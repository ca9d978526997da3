/**
 * The six request handlers of src/main.py over one store: a fixed base
 * directory and the filesystem tree they read and change. Each handler
 * joins the caller's path onto the base, applies the prefix check, checks
 * existence and type, then calls the library; every exception inside the
 * handler, the HTTP errors it raises itself included, is caught by its
 * `except Exception` and raised again with status 500, so a failure keeps
 * its inner reason but always carries status 500.
 */
module FileServer {
  import opened PurePaths
  import opened FileSystem

  /** The status every failing handler responds with (src/main.py:48-49). */
  const InternalServerError := 500

  /** Why a handler failed: the inner 403, 404 or 400 it raised, or the
      error of a library call. */
  datatype Reason =
    | AccessDenied        // the prefix check refused the path (403)
    | NotFound            // `exists()` was false (404)
    | NotAFile            // delete, move or copy of something that is not a regular file (400)
    | NotADir             // listing of something that is not a directory (400)
    | IOError(cause: OsError)

  datatype Response<T> = Success(value: T) | Failure(status: int, reason: Reason)

  datatype ReadResult = ReadResult(content: string, path: string, size: nat)
  datatype WriteResult = WriteResult(path: string, size: nat)
  /** One listing entry; `kind` is "directory" or "file", `size` is set for regular files only. */
  datatype Entry = Entry(name: string, kind: string, size: Option<nat>)
  datatype Listing = Listing(path: string, contents: seq<Entry>)
  datatype DeleteResult = DeleteResult(message: string)
  datatype TransferResult = TransferResult(source: string, destination: string, size: nat)

  function Fail<T>(why: Reason): Response<T> {
    Failure(InternalServerError, why)
  }

  // ---------------------------------------------------------------------
  // What a directory listing must hold.

  /** The names of the entries directly inside directory `d`. */
  function Children(t: Tree, d: Loc): set<string> {
    set k | k in t && |k| == |d| + 1 && k[..|d|] == d :: k[|d|]
  }

  lemma ChildrenMembers(t: Tree, d: Loc, n: string)
    ensures n in Children(t, d) <==> d + [n] in t
  {
    if n in Children(t, d) {
      var k :| k in t && |k| == |d| + 1 && k[..|d|] == d && k[|d|] == n;
      assert k == d + [n];
    }
    if d + [n] in t {
      var k := d + [n];
      assert k[..|d|] == d && k[|d|] == n;
    }
  }

  /** The entry the listing shows for a child `n` holding `node`. */
  function EntryOf(n: string, node: Node): Entry {
    match node
    case Dir => Entry(n, "directory", None)
    case File(c) => Entry(n, "file", Some(|c|))
  }

  /** The names of the entries, as a set. */
  function Names(es: seq<Entry>): set<string>
    decreases |es|
  {
    if es == [] then {} else Names(es[..|es| - 1]) + {es[|es| - 1].name}
  }

  /** No name occurs twice. */
  ghost predicate DistinctNames(es: seq<Entry>) {
    forall i, j :: 0 <= i < j < |es| ==> es[i].name != es[j].name
  }

  /** `es` lists directory `d` of `t`: one entry per child, no child twice,
      each with the child's type and, for a file, its size. */
  ghost predicate Lists(t: Tree, d: Loc, es: seq<Entry>) {
    && Names(es) == Children(t, d)
    && DistinctNames(es)
    && (forall i :: 0 <= i < |es| ==> d + [es[i].name] in t && es[i] == EntryOf(es[i].name, t[d + [es[i].name]]))
  }

  lemma {:induction false} InNames(es: seq<Entry>, x: string)
    ensures x in Names(es) <==> exists i :: 0 <= i < |es| && es[i].name == x
    decreases |es|
  {
    if es != [] {
      var init := es[..|es| - 1];
      InNames(init, x);
      if x in Names(init) {
        var i :| 0 <= i < |init| && init[i].name == x;
        assert es[i] == init[i];
      }
      if exists i :: 0 <= i < |es| && es[i].name == x {
        var i :| 0 <= i < |es| && es[i].name == x;
        if i < |init| {
          assert init[i] == es[i];
        }
      }
    }
  }

  /** Appending an entry adds its name. */
  lemma NamesAppend(es: seq<Entry>, e: Entry)
    ensures Names(es + [e]) == Names(es) + {e.name}
  {
    assert (es + [e])[..|es|] == es;
  }

  /** Dropping the last entry keeps the names distinct. */
  lemma DistinctInit(es: seq<Entry>)
    requires DistinctNames(es) && es != []
    ensures DistinctNames(es[..|es| - 1])
  {
    var init := es[..|es| - 1];
    forall i, j | 0 <= i < j < |init| ensures init[i].name != init[j].name {
      assert init[i] == es[i] && init[j] == es[j];
    }
  }

  /** Without repeated names, there are as many names as entries. */
  lemma {:induction false} DistinctCardinality(es: seq<Entry>)
    requires DistinctNames(es)
    ensures |Names(es)| == |es|
    decreases |es|
  {
    if es != [] {
      var init := es[..|es| - 1];
      var x := es[|es| - 1].name;
      DistinctInit(es);
      DistinctCardinality(init);
      InNames(init, x);
    }
  }

  /** A listing has as many entries as the directory has children; an empty
      directory lists as nothing. */
  lemma ListingSize(t: Tree, d: Loc, es: seq<Entry>)
    requires Lists(t, d, es)
    ensures |es| == |Children(t, d)|
    ensures Children(t, d) == {} <==> es == []
  {
    DistinctCardinality(es);
  }

  /** An entry of a sequence without repeated names occurs once. */
  lemma {:induction false} DistinctCount(es: seq<Entry>, e: Entry)
    requires DistinctNames(es)
    ensures multiset(es)[e] == if e in es then 1 else 0
    decreases |es|
  {
    if es != [] {
      var init := es[..|es| - 1];
      DistinctInit(es);
      DistinctCount(init, e);
      assert es == init + [es[|es| - 1]];
    }
  }

  /** Two listings of the same directory hold the same entries: a listing is
      determined up to the order `iterdir` produces. */
  lemma ListingsArePermutations(t: Tree, d: Loc, a: seq<Entry>, b: seq<Entry>)
    requires Lists(t, d, a) && Lists(t, d, b)
    ensures multiset(a) == multiset(b)
  {
    forall e ensures multiset(a)[e] == multiset(b)[e] {
      DistinctCount(a, e);
      DistinctCount(b, e);
      InNames(a, e.name);
      InNames(b, e.name);
      if e in a {
        var i :| 0 <= i < |a| && a[i] == e;
        var j :| 0 <= j < |b| && b[j].name == e.name;
        assert b[j] == e;
      }
      if e in b {
        var j :| 0 <= j < |b| && b[j] == e;
        var i :| 0 <= i < |a| && a[i].name == e.name;
        assert a[i] == e;
      }
    }
  }

  /** Appending an entry with a new name keeps the names distinct. */
  lemma AppendDistinct(es: seq<Entry>, e: Entry)
    requires DistinctNames(es) && e.name !in Names(es)
    ensures DistinctNames(es + [e])
  {
    InNames(es, e.name);
    var fs := es + [e];
    forall i, j | 0 <= i < j < |fs| ensures fs[i].name != fs[j].name {
      assert fs[i] == es[i] || j == |es|;
    }
  }

  /** The entry `list_directory` builds for `item`, the listed path followed
      by a child's name: the is_dir, is_file and stat calls on that path. */
  function Describe(t: Tree, item: seq<string>, n: string): Entry {
    Entry(n,
      if IsDirectory(t, item) then "directory" else "file",
      if IsRegularFile(t, item) then Some(FileSize(t, item).value) else None)
  }

  /** Looked up through the listed path, a child shows the type and size of
      the child's own entry. */
  lemma DescribeChild(t: Tree, parts: seq<string>, n: string)
    requires ValidTree(t) && Resolve(t, parts).Ok? && IsDirAt(t, Resolve(t, parts).value)
    requires n in Children(t, Resolve(t, parts).value)
    ensures var d := Resolve(t, parts).value;
      d + [n] in t && Describe(t, parts + [n], n) == EntryOf(n, t[d + [n]])
  {
    var d := Resolve(t, parts).value;
    ChildrenMembers(t, d, n);
    var k := d + [n];
    assert k[|k| - 1] == n;
    ResolveChild(t, parts, n);
  }

  // ---------------------------------------------------------------------
  // The library calls of move and copy, one after another.

  /** The destination parent's mkdir keeps the source where it was. */
  lemma MkdirKeepsSource(t: Tree, parent: seq<string>, src: seq<string>)
    requires ValidTree(t) && Components(parent) && IsRegularFile(t, src)
    ensures var m := MakeDirs(t, parent, true, true).tree;
      && ValidTree(m) && KeepsDirs(t, m) && Extends(t, m)
      && Resolve(m, src) == Resolve(t, src) && IsRegularFile(m, src)
      && m[Resolve(t, src).value] == t[Resolve(t, src).value]
  {
    var m := MakeDirs(t, parent, true, true).tree;
    MakeDirsGrows(t, parent, true, true);
    ResolveExtends(t, m, src);
  }

  /** A successful rename after the destination parent's mkdir: the
      destination reads as the source's former content, the parent is a
      directory, the source is gone unless rename was onto itself, and every
      other entry is as it was. */
  lemma RenameEffects(t: Tree, parent: seq<string>, src: seq<string>, dst: seq<string>)
    requires ValidTree(t) && Components(parent) && Components(dst) && IsRegularFile(t, src)
    requires MakeDirs(t, parent, true, true).error.None?
    requires IsRegularFile(MakeDirs(t, parent, true, true).tree, src)
    requires Rename(MakeDirs(t, parent, true, true).tree, src, dst).Ok?
    ensures var m := MakeDirs(t, parent, true, true).tree;
      var u := Rename(m, src, dst).value;
      var s := Resolve(t, src).value;
      && ValidTree(u) && KeepsDirs(t, u)
      && StoredText(u, dst) == Ok(t[s].content)
      && FileSize(u, dst) == Some(|t[s].content|)
      && IsDirectory(u, parent)
      && (Resolve(u, dst).value != s ==> !Exists(u, src))
      && (forall k :: k in t && k != s && k != Resolve(u, dst).value ==> k in u && u[k] == t[k])
  {
    var m := MakeDirs(t, parent, true, true).tree;
    MakeDirsGrows(t, parent, true, true);
    MkdirKeepsSource(t, parent, src);
    var u := Rename(m, src, dst).value;
    var s := Resolve(m, src).value;
    var d := Resolve(m, dst).value;
    RenameMoves(m, src, dst);
    if s != d {
      ResolvePlaces(m, dst);
      MoveEntryKeepsValid(m, s, d);
      SameDirsIsDirectory(m, u, parent);
      ResolveSameDirs(m, u, dst);
    }
  }

  /** A successful copy2 after the destination parent's mkdir: the
      copy handler's outcome whatever size it reports, with the effects
      `CopySucceeded` lists. */
  lemma CopyEffects(t: Tree, source: PurePath, dest: PurePath)
    requires ValidTree(t) && Components(source.parts) && Components(dest.parts) && IsRegularFile(t, source.parts)
    requires MakeDirs(t, ParentOf(dest).parts, true, true).error.None?
    requires ValidTree(MakeDirs(t, ParentOf(dest).parts, true, true).tree)
    requires IsRegularFile(MakeDirs(t, ParentOf(dest).parts, true, true).tree, source.parts)
    requires Copy2(MakeDirs(t, ParentOf(dest).parts, true, true).tree, source.parts, dest.parts).Ok?
    ensures var m := MakeDirs(t, ParentOf(dest).parts, true, true).tree;
      var u := Copy2(m, source.parts, dest.parts).value;
      && ValidTree(u) && KeepsDirs(t, u)
      && (forall r: Response<TransferResult> :: r.Success? && r.value.source == Str(source) && r.value.destination == Str(dest) ==>
            CopyOutcome(t, u, source, dest, r))
      && CopySucceeded(t, u, source.parts, dest)
  {
    var parent, src, dst := ParentOf(dest).parts, source.parts, dest.parts;
    ParentComponents(dest);
    var m := MakeDirs(t, parent, true, true).tree;
    MakeDirsGrows(t, parent, true, true);
    MkdirKeepsSource(t, parent, src);
    var u := Copy2(m, src, dst).value;
    Copy2Copies(m, src, dst);
    var target := CopyTarget(m, src, dst);
    assert Components(target);
    ResolvePlaces(m, target);
    SameDirsIsDirectory(m, u, parent);
    ResolveSameDirs(m, u, src);
  }

  // ---------------------------------------------------------------------
  // The store.

  /** No call removes a directory. */
  ghost predicate KeepsDirs(t: Tree, u: Tree) {
    forall l :: IsDirAt(t, l) ==> IsDirAt(u, l)
  }

  /** Trees with the same directories agree on which paths are directories. */
  lemma SameDirsIsDirectory(t: Tree, u: Tree, parts: seq<string>)
    requires forall l :: IsDirAt(t, l) <==> IsDirAt(u, l)
    ensures IsDirectory(t, parts) ==> IsDirectory(u, parts)
  {
    if IsDirectory(t, parts) {
      ResolveSameDirs(t, u, parts);
    }
  }

  /** Writing a file where a path resolves, when that is not a directory, keeps the directories. */
  lemma WriteKeepsDirs(t: Tree, parts: seq<string>, c: string)
    requires WriteText(t, parts, c).Ok?
    ensures forall l :: IsDirAt(t, l) <==> IsDirAt(WriteText(t, parts, c).value, l)
  {
  }

  /** The parent of a joined path holds its parts but the last. */
  lemma ParentParts(q: PurePath)
    requires Components(q.parts) && q.parts != []
    ensures ParentOf(q).parts == q.parts[..|q.parts| - 1]
    ensures Components(ParentOf(q).parts)
  {
    var r := ParentOf(q);
    assert r.parts == (r.parts + [q.parts[|q.parts| - 1]])[..|r.parts|];
  }

  lemma ParentComponents(q: PurePath)
    requires Components(q.parts)
    ensures Components(ParentOf(q).parts)
  {
    if q.parts != [] {
      ParentParts(q);
    }
  }

  /** What the copy handler does once its checks pass, from tree `t` to
      tree `u`: a failed mkdir keeps its partial effects, a failed copy2
      leaves the tree after mkdir, and a successful copy2 gives its tree
      and reports both paths. */
  ghost predicate CopyOutcome(t: Tree, u: Tree, source: PurePath, dest: PurePath, r: Response<TransferResult>) {
    var m := MakeDirs(t, ParentOf(dest).parts, true, true);
    if m.error.Some? then r == Failure(500, IOError(m.error.value)) && u == m.tree
    else ValidTree(m.tree) && IsRegularFile(m.tree, source.parts) && match Copy2(m.tree, source.parts, dest.parts)
      case Err(e) => r == Failure(500, IOError(e)) && u == m.tree
      case Ok(v) =>
        u == v && r.Success? && r.value.source == Str(source) && r.value.destination == Str(dest)
  }

  /** After a successful copy from `src` to `dst` (tree `t` to tree `u`):
      the source is untouched, the destination's parent is a directory, and
      the copy reads as the source's content, at `dst` itself or, when `dst`
      is a directory, at `dst` followed by the source's name, where it has
      the content's length. */
  ghost predicate CopySucceeded(t: Tree, u: Tree, src: seq<string>, dest: PurePath)
    requires IsRegularFile(t, src)
  {
    var s := Resolve(t, src).value;
    var dst := dest.parts;
    && src != []
    && StoredText(u, src) == Ok(t[s].content) && s in u && u[s] == t[s]
    && IsDirectory(u, ParentOf(dest).parts)
    && (!IsDirectory(u, dst) ==> StoredText(u, dst) == Ok(t[s].content) && FileSize(u, dst) == Some(|t[s].content|))
    && (IsDirectory(u, dst) ==> StoredText(u, dst + [src[|src| - 1]]) == Ok(t[s].content))
  }

  class FileStore {
    /** `BASE_DIR`, as its parts below "/". */
    const base: seq<string>
    /** The whole filesystem, from "/" down. */
    var fs: Tree

    ghost predicate Valid()
      reads this
    {
      BaseParts(base) && ValidTree(fs) && IsDirAt(fs, base)
    }

    /** The store once the module is loaded: the base directory exists. */
    constructor (base0: seq<string>, fs0: Tree)
      requires BaseParts(base0) && ValidTree(fs0) && IsDirAt(fs0, base0)
      ensures Valid() && base == base0 && fs == fs0
    {
      base := base0;
      fs := fs0;
    }

    /** `read_file` (src/main.py:32-49): the text read back has its line
        endings translated, while the size is that of the stored file. */
    method ReadFile(p: string) returns (r: Response<ReadResult>)
      requires Valid()
      ensures r.Failure? ==> r.status == 500
      ensures !PrefixCheck(base, p) ==> r == Failure(500, AccessDenied)
      ensures PrefixCheck(base, p) && !Exists(fs, Join(base, p).parts) ==> r == Failure(500, NotFound)
      ensures PrefixCheck(base, p) && IsDirectory(fs, Join(base, p).parts) ==>
        r == Failure(500, IOError(IsADirectory))
      ensures PrefixCheck(base, p) && IsRegularFile(fs, Join(base, p).parts) ==>
        var c := fs[Resolve(fs, Join(base, p).parts).value].content;
        r == Success(ReadResult(UniversalNewlines(c), Str(Join(base, p)), |c|))
      ensures r.Success? ==> |r.value.content| <= r.value.size
    {
      var full := Join(base, p);
      if !PrefixCheck(base, p) {
        return Fail(AccessDenied);
      }
      if !Exists(fs, full.parts) {
        return Fail(NotFound);
      }
      match ReadText(fs, full.parts) {
        case Err(e) =>
          return Fail(IOError(e));
        case Ok(content) =>
          var size := FileSize(fs, full.parts).value;
          return Success(ReadResult(content, Str(full), size));
      }
    }

    /** `write_file` (src/main.py:63-80): the parent's mkdir, then the write,
        then `stat`. A mkdir that fails part-way keeps what it created. */
    method WriteFile(p: string, c: string) returns (r: Response<WriteResult>)
      requires Valid()
      modifies this
      ensures Valid() && KeepsDirs(old(fs), fs)
      ensures r.Failure? ==> r.status == 500
      ensures !PrefixCheck(base, p) ==> r == Failure(500, AccessDenied) && fs == old(fs)
      ensures PrefixCheck(base, p) ==>
        var m := MakeDirs(old(fs), ParentOf(Join(base, p)).parts, true, true);
        if m.error.Some? then r == Failure(500, IOError(m.error.value)) && fs == m.tree
        else match WriteText(m.tree, Join(base, p).parts, c)
          case Err(e) => r == Failure(500, IOError(e)) && fs == m.tree
          case Ok(u) => fs == u && r == Success(WriteResult(Str(Join(base, p)), |c|))
      ensures r.Success? ==>
        && StoredText(fs, Join(base, p).parts) == Ok(c)
        && ReadText(fs, Join(base, p).parts) == Ok(UniversalNewlines(c))
        && FileSize(fs, Join(base, p).parts) == Some(|c|)
        && IsDirectory(fs, ParentOf(Join(base, p)).parts)
      ensures PrefixCheck(base, p) && Plain(Join(base, p).parts) && Join(base, p).parts != [] ==>
        var target := Join(base, p).parts;
        var dir := target[..|target| - 1];
        && (r.Success? <==> NoFileOnWay(old(fs), dir) && !IsDirAt(old(fs), target))
        && (r.Success? ==> fs == WithDirs(old(fs), dir)[target := File(c)])
        && (r.Failure? ==> fs == old(fs))
    {
      var full := Join(base, p);
      if !PrefixCheck(base, p) {
        return Fail(AccessDenied);
      }
      var parent := ParentOf(full);
      ParentComponents(full);
      if full.parts != [] && Plain(full.parts) {
        ParentParts(full);
        WritePlain(fs, full.parts, c);
      }
      var m := MakeDirs(fs, parent.parts, true, true);
      MakeDirsGrows(fs, parent.parts, true, true);
      fs := m.tree;
      if m.error.Some? {
        return Fail(IOError(m.error.value));
      }
      match WriteText(fs, full.parts, c) {
        case Err(e) =>
          return Fail(IOError(e));
        case Ok(u) =>
          WriteThenRead(fs, full.parts, c);
          WriteKeepsDirs(fs, full.parts, c);
          SameDirsIsDirectory(fs, u, parent.parts);
          fs := u;
          var size := FileSize(fs, full.parts).value;
          return Success(WriteResult(Str(full), size));
      }
    }

    /** `list_directory` (src/main.py:93-117): one entry per child, built by
        appending in whatever order the directory yields its names. A call
        without `dir_path` is `ListDirectory("")`, the base itself. */
    method ListDirectory(p: string) returns (r: Response<Listing>)
      requires Valid()
      ensures r.Failure? ==> r.status == 500
      ensures !PrefixCheck(base, p) ==> r == Failure(500, AccessDenied)
      ensures PrefixCheck(base, p) && !Exists(fs, Join(base, p).parts) ==> r == Failure(500, NotFound)
      ensures PrefixCheck(base, p) && IsRegularFile(fs, Join(base, p).parts) ==> r == Failure(500, NotADir)
      ensures PrefixCheck(base, p) && IsDirectory(fs, Join(base, p).parts) ==>
        && r.Success?
        && r.value.path == Str(Join(base, p))
        && Lists(fs, Resolve(fs, Join(base, p).parts).value, r.value.contents)
    {
      var full := Join(base, p);
      if !PrefixCheck(base, p) {
        return Fail(AccessDenied);
      }
      if !Exists(fs, full.parts) {
        return Fail(NotFound);
      }
      if !IsDirectory(fs, full.parts) {
        return Fail(NotADir);
      }
      var d := Resolve(fs, full.parts).value;
      var names := Children(fs, d);
      var remaining := names;
      var contents: seq<Entry> := [];
      while remaining != {}
        invariant remaining <= names
        invariant Names(contents) == names - remaining
        invariant DistinctNames(contents)
        invariant forall i :: 0 <= i < |contents| ==>
          d + [contents[i].name] in fs && contents[i] == EntryOf(contents[i].name, fs[d + [contents[i].name]])
        decreases remaining
      {
        var n :| n in remaining;
        var item := full.parts + [n];
        var entry := Describe(fs, item, n);
        DescribeChild(fs, full.parts, n);
        NamesAppend(contents, entry);
        AppendDistinct(contents, entry);
        contents := contents + [entry];
        remaining := remaining - {n};
      }
      return Success(Listing(Str(full), contents));
    }

    /** `delete_file` (src/main.py:130-147): only a regular file is removed. */
    method DeleteFile(p: string) returns (r: Response<DeleteResult>)
      requires Valid()
      modifies this
      ensures Valid() && KeepsDirs(old(fs), fs)
      ensures r.Failure? ==> r.status == 500 && fs == old(fs)
      ensures !PrefixCheck(base, p) ==> r == Failure(500, AccessDenied)
      ensures PrefixCheck(base, p) && !Exists(old(fs), Join(base, p).parts) ==> r == Failure(500, NotFound)
      ensures PrefixCheck(base, p) && IsDirectory(old(fs), Join(base, p).parts) ==> r == Failure(500, NotAFile)
      ensures PrefixCheck(base, p) && IsRegularFile(old(fs), Join(base, p).parts) ==>
        && r == Success(DeleteResult("File " + p + " deleted successfully"))
        && fs == Unlink(old(fs), Join(base, p).parts)
      ensures r.Success? ==>
        var l := Resolve(old(fs), Join(base, p).parts).value;
        && !Exists(fs, Join(base, p).parts)
        && fs.Keys == old(fs).Keys - {l}
        && (forall k :: k in fs ==> fs[k] == old(fs)[k])
    {
      var full := Join(base, p);
      if !PrefixCheck(base, p) {
        return Fail(AccessDenied);
      }
      if !Exists(fs, full.parts) {
        return Fail(NotFound);
      }
      if !IsRegularFile(fs, full.parts) {
        return Fail(NotAFile);
      }
      UnlinkRemoves(fs, full.parts);
      fs := Unlink(fs, full.parts);
      return Success(DeleteResult("File " + p + " deleted successfully"));
    }

    /** `move_file` (src/main.py:161-185): both paths checked, the source a
        regular file, the destination's parent made, then `rename` and `stat`. */
    method MoveFile(sp: string, dp: string) returns (r: Response<TransferResult>)
      requires Valid()
      modifies this
      ensures Valid() && KeepsDirs(old(fs), fs)
      ensures r.Failure? ==> r.status == 500
      ensures !(PrefixCheck(base, sp) && PrefixCheck(base, dp)) ==> r == Failure(500, AccessDenied) && fs == old(fs)
      ensures PrefixCheck(base, sp) && PrefixCheck(base, dp) && !Exists(old(fs), Join(base, sp).parts) ==>
        r == Failure(500, NotFound) && fs == old(fs)
      ensures PrefixCheck(base, sp) && PrefixCheck(base, dp) && IsDirectory(old(fs), Join(base, sp).parts) ==>
        r == Failure(500, NotAFile) && fs == old(fs)
      ensures PrefixCheck(base, sp) && PrefixCheck(base, dp) && IsRegularFile(old(fs), Join(base, sp).parts) ==>
        var src := Join(base, sp).parts;
        var dst := Join(base, dp).parts;
        var c := old(fs)[Resolve(old(fs), src).value].content;
        var m := MakeDirs(old(fs), ParentOf(Join(base, dp)).parts, true, true);
        if m.error.Some? then r == Failure(500, IOError(m.error.value)) && fs == m.tree
        else IsRegularFile(m.tree, src) && match Rename(m.tree, src, dst)
          case Err(e) => r == Failure(500, IOError(e)) && fs == m.tree
          case Ok(u) => fs == u && r == Success(TransferResult(Str(Join(base, sp)), Str(Join(base, dp)), |c|))
      ensures r.Success? ==>
        var src := Join(base, sp).parts;
        var dst := Join(base, dp).parts;
        var s := Resolve(old(fs), src).value;
        && StoredText(fs, dst) == Ok(old(fs)[s].content)
        && r.value.size == |old(fs)[s].content|
        && IsDirectory(fs, ParentOf(Join(base, dp)).parts)
        && (Resolve(fs, dst).value != s ==> !Exists(fs, src))
        && (forall k :: k in old(fs) && k != s && k != Resolve(fs, dst).value ==> k in fs && fs[k] == old(fs)[k])
    {
      var source := Join(base, sp);
      var dest := Join(base, dp);
      if !PrefixCheck(base, sp) || !PrefixCheck(base, dp) {
        return Fail(AccessDenied);
      }
      if !Exists(fs, source.parts) {
        return Fail(NotFound);
      }
      if !IsRegularFile(fs, source.parts) {
        return Fail(NotAFile);
      }
      var parent := ParentOf(dest);
      ParentComponents(dest);
      var m := MakeDirs(fs, parent.parts, true, true);
      MakeDirsGrows(fs, parent.parts, true, true);
      MkdirKeepsSource(fs, parent.parts, source.parts);
      fs := m.tree;
      if m.error.Some? {
        return Fail(IOError(m.error.value));
      }
      match Rename(fs, source.parts, dest.parts) {
        case Err(e) =>
          return Fail(IOError(e));
        case Ok(u) =>
          RenameEffects(old(fs), parent.parts, source.parts, dest.parts);
          fs := u;
          var size := FileSize(fs, dest.parts).value;
          return Success(TransferResult(Str(source), Str(dest), size));
      }
    }

    /** `copy_file` (src/main.py:199-224): as move, with `shutil.copy2`. When
        the destination is a directory, copy2 writes inside it and the size
        reported is the directory's own `st_size`, which the model leaves open. */
    method CopyFile(sp: string, dp: string) returns (r: Response<TransferResult>)
      requires Valid()
      modifies this
      ensures Valid() && KeepsDirs(old(fs), fs)
      ensures r.Failure? ==> r.status == 500
      ensures !(PrefixCheck(base, sp) && PrefixCheck(base, dp)) ==> r == Failure(500, AccessDenied) && fs == old(fs)
      ensures PrefixCheck(base, sp) && PrefixCheck(base, dp) && !Exists(old(fs), Join(base, sp).parts) ==>
        r == Failure(500, NotFound) && fs == old(fs)
      ensures PrefixCheck(base, sp) && PrefixCheck(base, dp) && IsDirectory(old(fs), Join(base, sp).parts) ==>
        r == Failure(500, NotAFile) && fs == old(fs)
      ensures PrefixCheck(base, sp) && PrefixCheck(base, dp) && IsRegularFile(old(fs), Join(base, sp).parts) ==>
        CopyOutcome(old(fs), fs, Join(base, sp), Join(base, dp), r)
      ensures r.Success? ==>
        IsRegularFile(old(fs), Join(base, sp).parts) && CopySucceeded(old(fs), fs, Join(base, sp).parts, Join(base, dp))
      ensures r.Success? && !IsDirectory(fs, Join(base, dp).parts) ==> FileSize(fs, Join(base, dp).parts) == Some(r.value.size)
    {
      var source := Join(base, sp);
      var dest := Join(base, dp);
      if !PrefixCheck(base, sp) || !PrefixCheck(base, dp) {
        return Fail(AccessDenied);
      }
      if !Exists(fs, source.parts) {
        return Fail(NotFound);
      }
      if !IsRegularFile(fs, source.parts) {
        return Fail(NotAFile);
      }
      r := CopyChecked(source, dest);
    }

    /** The copy handler once its checks have passed: the destination's
        parent is created, then copy2 runs; each failure keeps its cause. */
    method CopyChecked(source: PurePath, dest: PurePath) returns (r: Response<TransferResult>)
      requires Valid() && Components(source.parts) && Components(dest.parts)
      requires IsRegularFile(fs, source.parts)
      modifies this
      ensures Valid() && KeepsDirs(old(fs), fs)
      ensures r.Failure? ==> r.status == 500
      ensures CopyOutcome(old(fs), fs, source, dest, r)
      ensures r.Success? ==> CopySucceeded(old(fs), fs, source.parts, dest)
      ensures r.Success? && !IsDirectory(fs, dest.parts) ==> FileSize(fs, dest.parts) == Some(r.value.size)
    {
      var parent := ParentOf(dest);
      ParentComponents(dest);
      var m := MakeDirs(fs, parent.parts, true, true);
      MakeDirsGrows(fs, parent.parts, true, true);
      MkdirKeepsSource(fs, parent.parts, source.parts);
      fs := m.tree;
      if m.error.Some? {
        return Fail(IOError(m.error.value));
      }
      match Copy2(fs, source.parts, dest.parts) {
        case Err(e) =>
          return Fail(IOError(e));
        case Ok(u) =>
          CopyEffects(old(fs), source, dest);
          var size: nat;
          if IsDirectory(u, dest.parts) {
            size :| true;
          } else {
            size := FileSize(u, dest.parts).value;
          }
          fs := u;
          return Success(TransferResult(Str(source), Str(dest), size));
      }
    }

    /** A read after a successful write of the same path returns what was
        written with its line endings translated, so exactly what was written
        when it holds no "\r"; the size is that of what was written. */
    method WriteThenReadBack(p: string, c: string) returns (w: Response<WriteResult>, r: Response<ReadResult>)
      requires Valid()
      modifies this
      ensures Valid()
      ensures w.Success? ==> r == Success(ReadResult(UniversalNewlines(c), Str(Join(base, p)), |c|))
      ensures w.Success? && '\r' !in c ==> r.Success? && r.value.content == c && r.value.size == |c|
    {
      w := WriteFile(p, c);
      r := ReadFile(p);
    }

    /** Deleting the same path twice: after a first delete that succeeds the
        second finds nothing. */
    method DeleteTwice(p: string) returns (first: Response<DeleteResult>, second: Response<DeleteResult>)
      requires Valid()
      modifies this
      ensures Valid()
      ensures first.Success? ==> second == Failure(500, NotFound)
    {
      first := DeleteFile(p);
      second := DeleteFile(p);
    }
  }
}
