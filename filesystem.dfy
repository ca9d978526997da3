/**
 * The filesystem below the handlers: a tree of regular files and
 * directories, POSIX path resolution, and the library calls the handlers
 * make (`os.mkdir` and pathlib's `mkdir(parents=True, exist_ok=True)`,
 * `open(...).read()`, `open(..., 'w').write`, `stat().st_size`, `unlink`,
 * `rename`, `shutil.copy2`). Every call is a function from the tree before
 * to its outcome; the handlers in FileServer apply them one after another.
 *
 * A location is the list of names from "/" down, so the whole tree is one
 * map: requests that leave the base directory reach real locations too.
 */
module FileSystem {
  import opened PurePaths

  type Loc = seq<string>

  datatype Node = File(content: string) | Dir

  type Tree = map<Loc, Node>

  /** The errno (or Python exception) a failing call raises. */
  datatype OsError =
    | NoSuchEntry    // ENOENT
    | NotADirectory  // ENOTDIR
    | AlreadyExists  // EEXIST
    | IsADirectory   // EISDIR
    | InvalidPath    // ValueError: embedded NUL character
    | SameFile       // shutil.SameFileError
    | NotEmpty       // ENOTEMPTY
    | Busy           // EBUSY

  datatype Result<T> = Ok(value: T) | Err(error: OsError)

  /** A name a directory can hold. */
  predicate IsName(n: string) {
    Component(n) && n != ".." && '\0' !in n
  }

  predicate IsDirAt(t: Tree, l: Loc) {
    l in t && t[l] == Dir
  }

  /** The root is a directory and every other entry sits, under a proper
      name, in a directory. So files have no entries below them. */
  ghost predicate ValidTree(t: Tree) {
    && IsDirAt(t, [])
    && forall k, n :: k + [n] in t ==> InDirectory(t, k, n)
  }

  /** `n` is a proper name and `k` a directory. */
  predicate InDirectory(t: Tree, k: Loc, n: string) {
    IsName(n) && IsDirAt(t, k)
  }

  /** The parent of an entry other than the root is a directory, and the
      entry's last name a proper name. */
  lemma EntryParent(t: Tree, l: Loc)
    requires ValidTree(t) && l in t && l != []
    ensures IsName(l[|l| - 1]) && IsDirAt(t, l[..|l| - 1])
  {
    var k, n := l[..|l| - 1], l[|l| - 1];
    assert l == k + [n];
    assert k + [n] in t;
  }

  /** An entry that exists, or could be created: its directory exists. */
  ghost predicate Placed(t: Tree, l: Loc) {
    l in t || (l != [] && IsDirAt(t, l[..|l| - 1]) && IsName(l[|l| - 1]))
  }

  function Up(l: Loc): Loc {
    if l == [] then [] else l[..|l| - 1]
  }

  function Step(cur: Loc, n: string): Loc {
    if n == ".." then Up(cur) else cur + [n]
  }

  /** Kernel path lookup from `cur`: every location looked into must be an
      existing directory; ".." climbs one level and stays at the root. The
      last name need not exist. */
  function Walk(t: Tree, cur: Loc, rest: seq<string>): Result<Loc>
    decreases |rest|
  {
    if rest == [] then Ok(cur)
    else if cur !in t then Err(NoSuchEntry)
    else if t[cur].File? then Err(NotADirectory)
    else Walk(t, Step(cur, rest[0]), rest[1..])
  }

  predicate Encodable(parts: seq<string>) {
    forall i :: 0 <= i < |parts| ==> '\0' !in parts[i]
  }

  /** Resolution of an absolute path's parts; "/" and "//" are the same root
      to the kernel. Python refuses a NUL character before any system call. */
  function Resolve(t: Tree, parts: seq<string>): Result<Loc> {
    if !Encodable(parts) then Err(InvalidPath) else Walk(t, [], parts)
  }

  /** `Path.exists()`: every failure of the lookup reads as "no". */
  predicate Exists(t: Tree, parts: seq<string>) {
    var r := Resolve(t, parts);
    r.Ok? && r.value in t
  }

  /** `Path.is_dir()`. */
  predicate IsDirectory(t: Tree, parts: seq<string>) {
    var r := Resolve(t, parts);
    r.Ok? && IsDirAt(t, r.value)
  }

  /** `Path.is_file()`. */
  predicate IsRegularFile(t: Tree, parts: seq<string>) {
    var r := Resolve(t, parts);
    r.Ok? && r.value in t && t[r.value].File?
  }

  /** `stat().st_size` of a regular file; None where the size is not a file's. */
  function FileSize(t: Tree, parts: seq<string>): Option<nat> {
    if IsRegularFile(t, parts) then Some(|t[Resolve(t, parts).value].content|) else None
  }

  /** What `open(path, 'r')` finds at a path: the stored content of a
      regular file, or the error of opening it. */
  function StoredText(t: Tree, parts: seq<string>): Result<string> {
    match Resolve(t, parts)
    case Err(e) => Err(e)
    case Ok(l) =>
      if l !in t then Err(NoSuchEntry)
      else if t[l] == Dir then Err(IsADirectory)
      else Ok(t[l].content)
  }

  /** Text-mode decoding with the default `newline=None`: "\r\n" and a lone
      "\r" both read as "\n"; every other character reads as itself. */
  function UniversalNewlines(s: string): (r: string)
    ensures |r| <= |s|
    ensures '\r' !in r
    ensures '\r' !in s ==> r == s
    decreases |s|
  {
    if s == [] then []
    else if s[0] == '\r' then "\n" + UniversalNewlines(if |s| >= 2 && s[1] == '\n' then s[2..] else s[1..])
    else [s[0]] + UniversalNewlines(s[1..])
  }

  /** A Windows line ending and an old Mac one both come back as "\n", one
      character shorter and as long respectively. */
  lemma UniversalNewlinesEndings()
    ensures UniversalNewlines("a\r\nb") == "a\nb"
    ensures UniversalNewlines("a\rb") == "a\nb"
    ensures UniversalNewlines("a\n\rb") == "a\n\nb"
  {
  }

  /** `open(path, 'r').read()`: the stored content with its line endings translated. */
  function ReadText(t: Tree, parts: seq<string>): Result<string> {
    match StoredText(t, parts)
    case Err(e) => Err(e)
    case Ok(c) => Ok(UniversalNewlines(c))
  }

  /** `open(path, 'w').write(c)`: creates or truncates a regular file. */
  function WriteText(t: Tree, parts: seq<string>, c: string): Result<Tree> {
    match Resolve(t, parts)
    case Err(e) => Err(e)
    case Ok(l) => if IsDirAt(t, l) then Err(IsADirectory) else Ok(t[l := File(c)])
  }

  /** `os.mkdir(path)`. */
  function Mkdir(t: Tree, parts: seq<string>): Result<Tree> {
    match Resolve(t, parts)
    case Err(e) => Err(e)
    case Ok(l) => if l in t then Err(AlreadyExists) else Ok(t[l := Dir])
  }

  /** What pathlib's mkdir leaves behind: the tree (directories it created
      stay even when it fails later) and the exception it raises, if any. */
  datatype Made = Made(tree: Tree, error: Option<OsError>)

  /** `Path(parts).mkdir(parents=parents, exist_ok=existOk)`, following
      CPython's pathlib: on ENOENT it makes the lexical parent (with
      parents and exist_ok both set) and tries once more without parents;
      any other OSError is forgiven when exist_ok holds and the path is now a
      directory; a ValueError passes through. */
  function MakeDirs(t: Tree, parts: seq<string>, parents: bool, existOk: bool): Made
    decreases |parts|, if parents then 1 else 0
  {
    match Mkdir(t, parts)
    case Ok(u) => Made(u, None)
    case Err(NoSuchEntry) =>
      if !parents || parts == [] then Made(t, Some(NoSuchEntry))
      else
        var up := MakeDirs(t, parts[..|parts| - 1], true, true);
        if up.error.Some? then up else MakeDirs(up.tree, parts, false, existOk)
    case Err(InvalidPath) => Made(t, Some(InvalidPath))
    case Err(e) => if existOk && IsDirectory(t, parts) then Made(t, None) else Made(t, Some(e))
  }

  /** `Path(parts).unlink()` on a regular file. */
  function Unlink(t: Tree, parts: seq<string>): Tree
    requires IsRegularFile(t, parts)
  {
    t - {Resolve(t, parts).value}
  }

  /** `Path(src).rename(dst)` of a regular file, in the order rename(2)
      checks: the lookups of the destination's directory; EBUSY when the
      destination is the root or ends in ".."; ENOTEMPTY when it is a
      directory above the source; then renaming a file onto itself does
      nothing, onto a directory fails with EISDIR, onto a file replaces it. */
  function Rename(t: Tree, src: seq<string>, dst: seq<string>): Result<Tree>
    requires IsRegularFile(t, src)
  {
    var s := Resolve(t, src).value;
    match Resolve(t, dst)
    case Err(e) => Err(e)
    case Ok(d) =>
      if dst == [] || dst[|dst| - 1] == ".." then Err(Busy)
      else if |d| < |s| && d == s[..|d|] then Err(NotEmpty)
      else if d == s then Ok(t)
      else if IsDirAt(t, d) then Err(IsADirectory)
      else Ok((t - {s})[d := t[s]])
  }

  /** Where `shutil.copy2(src, dst)` writes: into an existing directory it
      writes under the source's own name. */
  function CopyTarget(t: Tree, src: seq<string>, dst: seq<string>): seq<string>
    requires ValidTree(t) && IsRegularFile(t, src)
  {
    if IsDirectory(t, dst) then dst + [src[|src| - 1]] else dst
  }

  /** `shutil.copy2(src, dst)` of a regular file (metadata aside): refuses to
      copy a file onto itself, fails on a directory, else creates or
      overwrites the target with the source's content. */
  function Copy2(t: Tree, src: seq<string>, dst: seq<string>): Result<Tree>
    requires ValidTree(t) && IsRegularFile(t, src)
  {
    var s := Resolve(t, src).value;
    match Resolve(t, CopyTarget(t, src, dst))
    case Err(e) => Err(e)
    case Ok(d) =>
      if d == s then Err(SameFile)
      else if IsDirAt(t, d) then Err(IsADirectory)
      else Ok(t[d := t[s]])
  }

  // ---------------------------------------------------------------------
  // Resolution.

  /** A successful lookup ends at an entry that exists or whose directory exists. */
  lemma {:induction false} WalkPlaces(t: Tree, cur: Loc, rest: seq<string>)
    requires ValidTree(t) && Placed(t, cur)
    requires Components(rest) && Encodable(rest)
    requires Walk(t, cur, rest).Ok?
    ensures Placed(t, Walk(t, cur, rest).value)
    decreases |rest|
  {
    if rest != [] {
      var next := Step(cur, rest[0]);
      if rest[0] == ".." {
        if cur != [] {
          EntryParent(t, cur);
        }
      } else {
        assert next[..|next| - 1] == cur;
        assert IsName(rest[0]);
      }
      WalkPlaces(t, next, rest[1..]);
    }
  }

  lemma ResolvePlaces(t: Tree, parts: seq<string>)
    requires ValidTree(t) && Components(parts)
    requires Resolve(t, parts).Ok?
    ensures Placed(t, Resolve(t, parts).value)
  {
    WalkPlaces(t, [], parts);
  }

  /** Looking up `a + b` is looking up `a`, then `b` from where `a` ended. */
  lemma {:induction false} WalkConcat(t: Tree, cur: Loc, a: seq<string>, b: seq<string>)
    ensures Walk(t, cur, a + b) ==
      match Walk(t, cur, a)
      case Ok(l) => Walk(t, l, b)
      case Err(e) => Err(e)
    decreases |a|
  {
    if a != [] {
      assert (a + b)[0] == a[0] && (a + b)[1..] == a[1..] + b;
      WalkConcat(t, Step(cur, a[0]), a[1..], b);
    } else {
      assert a + b == b;
    }
  }

  /** A name looked up in a directory a path resolves to is that directory's entry. */
  lemma ResolveChild(t: Tree, parts: seq<string>, n: string)
    requires Resolve(t, parts).Ok? && IsDirAt(t, Resolve(t, parts).value) && IsName(n)
    ensures Resolve(t, parts + [n]) == Ok(Resolve(t, parts).value + [n])
  {
    assert Encodable(parts + [n]) by {
      forall i | 0 <= i < |parts + [n]| ensures '\0' !in (parts + [n])[i] {
        if i < |parts| {
          assert (parts + [n])[i] == parts[i];
        }
      }
    }
    WalkConcat(t, [], parts, [n]);
  }

  /** Lookup only looks at which locations are directories: two trees with the
      same directories resolve every path alike. */
  lemma {:induction false} WalkSameDirs(t: Tree, u: Tree, cur: Loc, rest: seq<string>)
    requires forall l :: IsDirAt(t, l) <==> IsDirAt(u, l)
    requires Walk(t, cur, rest).Ok?
    ensures Walk(u, cur, rest) == Walk(t, cur, rest)
    decreases |rest|
  {
    if rest != [] {
      assert IsDirAt(t, cur);
      WalkSameDirs(t, u, Step(cur, rest[0]), rest[1..]);
    }
  }

  lemma ResolveSameDirs(t: Tree, u: Tree, parts: seq<string>)
    requires forall l :: IsDirAt(t, l) <==> IsDirAt(u, l)
    requires Resolve(t, parts).Ok?
    ensures Resolve(u, parts) == Resolve(t, parts)
  {
    WalkSameDirs(t, u, [], parts);
  }

  ghost predicate Extends(t: Tree, u: Tree) {
    forall l :: l in t ==> l in u && u[l] == t[l]
  }

  ghost predicate OnlyNewDirs(t: Tree, u: Tree) {
    forall l :: l in u && l !in t ==> u[l] == Dir
  }

  /** Adding entries keeps every successful lookup where it was. */
  lemma {:induction false} WalkExtends(t: Tree, u: Tree, cur: Loc, rest: seq<string>)
    requires Extends(t, u)
    requires Walk(t, cur, rest).Ok?
    ensures Walk(u, cur, rest) == Walk(t, cur, rest)
    decreases |rest|
  {
    if rest != [] {
      WalkExtends(t, u, Step(cur, rest[0]), rest[1..]);
    }
  }

  lemma ResolveExtends(t: Tree, u: Tree, parts: seq<string>)
    requires Extends(t, u)
    requires Resolve(t, parts).Ok?
    ensures Resolve(u, parts) == Resolve(t, parts)
  {
    WalkExtends(t, u, [], parts);
  }

  // ---------------------------------------------------------------------
  // The tree stays well formed.

  /** Putting an entry where one may be put, over nothing or over a file, keeps the tree well formed. */
  lemma PutKeepsValid(t: Tree, l: Loc, v: Node)
    requires ValidTree(t) && Placed(t, l)
    requires l in t ==> t[l].File?
    ensures ValidTree(t[l := v])
  {
    var u := t[l := v];
    forall k, n | k + [n] in u ensures InDirectory(u, k, n) {
      var e := k + [n];
      assert e[..|e| - 1] == k && e[|e| - 1] == n;
      if e != l || l in t {
        EntryParent(t, e);
      }
    }
  }

  /** Removing a regular file keeps the tree well formed. */
  lemma RemoveFileKeepsValid(t: Tree, l: Loc)
    requires ValidTree(t) && l in t && t[l].File?
    ensures ValidTree(t - {l})
  {
    var u := t - {l};
    forall k, n | k + [n] in u ensures InDirectory(u, k, n) {
      var e := k + [n];
      assert e[..|e| - 1] == k && e[|e| - 1] == n;
      EntryParent(t, e);
    }
  }

  /** pathlib's mkdir, succeeding or not, keeps every entry, adds only
      directories and keeps the tree well formed; when it succeeds the path
      is a directory. */
  lemma {:induction false} MakeDirsGrows(t: Tree, parts: seq<string>, parents: bool, existOk: bool)
    requires ValidTree(t) && Components(parts)
    ensures var m := MakeDirs(t, parts, parents, existOk);
      ValidTree(m.tree) && Extends(t, m.tree) && OnlyNewDirs(t, m.tree)
      && (m.error.None? ==> IsDirectory(m.tree, parts))
    decreases |parts|, if parents then 1 else 0
  {
    match Mkdir(t, parts)
    case Ok(u) =>
      var l := Resolve(t, parts).value;
      ResolvePlaces(t, parts);
      PutKeepsValid(t, l, Dir);
      ResolveExtends(t, u, parts);
    case Err(NoSuchEntry) =>
      if parents && parts != [] {
        var up := MakeDirs(t, parts[..|parts| - 1], true, true);
        MakeDirsGrows(t, parts[..|parts| - 1], true, true);
        if up.error.None? {
          MakeDirsGrows(up.tree, parts, false, existOk);
        }
      }
    case Err(InvalidPath) =>
    case Err(e) =>
  }

  // ---------------------------------------------------------------------
  // What each call leaves behind.

  /** After `open(p, 'w').write(c)` succeeds, `p` is a regular file holding
      exactly `c`, its size is `|c|`, the tree is well formed, and the only
      entry that may have changed or appeared is the target. */
  lemma WriteThenRead(t: Tree, parts: seq<string>, c: string)
    requires ValidTree(t) && Components(parts)
    requires WriteText(t, parts, c).Ok?
    ensures var u := WriteText(t, parts, c).value;
      var l := Resolve(t, parts).value;
      && ValidTree(u)
      && StoredText(u, parts) == Ok(c)
      && FileSize(u, parts) == Some(|c|)
      && u.Keys == t.Keys + {l}
      && (forall k :: k in t && k != l ==> u[k] == t[k])
  {
    var u := WriteText(t, parts, c).value;
    var l := Resolve(t, parts).value;
    ResolvePlaces(t, parts);
    PutKeepsValid(t, l, File(c));
    ResolveSameDirs(t, u, parts);
  }

  /** After `unlink`, exactly the file's entry is gone, the tree is well
      formed, and the path no longer exists. */
  lemma UnlinkRemoves(t: Tree, parts: seq<string>)
    requires ValidTree(t) && IsRegularFile(t, parts)
    ensures var u := Unlink(t, parts);
      var l := Resolve(t, parts).value;
      && ValidTree(u)
      && !Exists(u, parts)
      && u.Keys == t.Keys - {l}
      && (forall k :: k in u ==> u[k] == t[k])
  {
    var u := Unlink(t, parts);
    var l := Resolve(t, parts).value;
    RemoveFileKeepsValid(t, l);
    ResolveSameDirs(t, u, parts);
  }

  /** Moving a file's entry to a free place or over another file keeps the
      tree well formed and keeps its directories. */
  lemma MoveEntryKeepsValid(t: Tree, s: Loc, d: Loc)
    requires ValidTree(t) && s in t && t[s].File?
    requires Placed(t, d) && d != s && !IsDirAt(t, d)
    ensures ValidTree((t - {s})[d := t[s]])
    ensures forall l :: IsDirAt(t, l) <==> IsDirAt((t - {s})[d := t[s]], l)
  {
    var t1 := t - {s};
    RemoveFileKeepsValid(t, s);
    assert Placed(t1, d);
    PutKeepsValid(t1, d, t[s]);
  }

  /** After a successful rename the destination holds the source's content,
      the source is gone unless it was the destination itself, and no other
      entry changed. */
  lemma RenameMoves(t: Tree, src: seq<string>, dst: seq<string>)
    requires ValidTree(t) && Components(dst)
    requires IsRegularFile(t, src) && Rename(t, src, dst).Ok?
    ensures var u := Rename(t, src, dst).value;
      var s := Resolve(t, src).value;
      var d := Resolve(t, dst).value;
      && ValidTree(u)
      && StoredText(u, dst) == Ok(t[s].content)
      && FileSize(u, dst) == Some(|t[s].content|)
      && (s == d ==> u == t)
      && (s != d ==> !Exists(u, src) && u.Keys == t.Keys - {s} + {d})
      && (forall k :: k in t && k != s && k != d ==> k in u && u[k] == t[k])
  {
    var s := Resolve(t, src).value;
    var d := Resolve(t, dst).value;
    if s != d {
      var u := (t - {s})[d := t[s]];
      assert Rename(t, src, dst).value == u;
      ResolvePlaces(t, dst);
      MoveEntryKeepsValid(t, s, d);
      ResolveSameDirs(t, u, dst);
      ResolveSameDirs(t, u, src);
    }
  }

  /** Renaming a file onto the directory that holds it, or onto that
      directory followed by "..", fails, with ENOTEMPTY and EBUSY
      respectively. */
  lemma RenameOntoOwnDirectory(t: Tree, src: seq<string>)
    requires ValidTree(t) && Plain(src) && |src| >= 2 && IsRegularFile(t, src)
    ensures Rename(t, src, src[..|src| - 1]) == Err(NotEmpty)
    ensures Rename(t, src, src[..|src| - 1] + [".."]) == Err(Busy)
  {
    var dir := src[..|src| - 1];
    FileAndDirResolve(t, src);
    assert dir[|dir| - 1] != "..";
    assert src[..|dir|] == dir;
    var up := dir + [".."];
    assert Encodable(up) by {
      forall i | 0 <= i < |up| ensures '\0' !in up[i] {
        if i < |dir| {
          assert up[i] == dir[i];
        }
      }
    }
    WalkConcat(t, [], dir, [".."]);
    assert Resolve(t, up).Ok?;
  }

  /** A plain path to a regular file resolves to itself, and so does the
      directory that holds it. */
  lemma FileAndDirResolve(t: Tree, src: seq<string>)
    requires ValidTree(t) && Plain(src) && |src| >= 1 && IsRegularFile(t, src)
    ensures Resolve(t, src) == Ok(src)
    ensures Resolve(t, src[..|src| - 1]) == Ok(src[..|src| - 1])
    ensures IsDirAt(t, src[..|src| - 1])
  {
    var dir := src[..|src| - 1];
    WalkPlainExact(t, [], src);
    assert [] + src == src;
    forall i | 0 <= i < |dir| ensures IsDirAt(t, [] + dir[..i]) {
      assert dir[..i] == src[..i];
      assert [] + src[..i] == src[..i];
    }
    assert Plain(dir);
    WalkPlainOk(t, [], dir);
    assert [] + dir == dir;
    EntryParent(t, src);
    assert Encodable(dir) by {
      forall i | 0 <= i < |dir| ensures '\0' !in dir[i] {
        assert dir[i] == src[i];
      }
    }
  }

  /** After a successful copy2 the target holds the source's content, the
      source entry is untouched, no other entry changed, and a destination
      that was not a directory reports the content's size. */
  lemma Copy2Copies(t: Tree, src: seq<string>, dst: seq<string>)
    requires ValidTree(t) && Components(src) && Components(dst)
    requires IsRegularFile(t, src) && Copy2(t, src, dst).Ok?
    ensures var u := Copy2(t, src, dst).value;
      var s := Resolve(t, src).value;
      var target := CopyTarget(t, src, dst);
      var d := Resolve(t, target).value;
      && ValidTree(u)
      && StoredText(u, target) == Ok(t[s].content)
      && StoredText(u, src) == Ok(t[s].content) && u[s] == t[s]
      && u.Keys == t.Keys + {d}
      && (forall k :: k in t && k != d ==> u[k] == t[k])
      && (IsDirectory(t, dst) <==> IsDirectory(u, dst))
      && (!IsDirectory(t, dst) ==> FileSize(u, dst) == Some(|t[s].content|))
  {
    var u := Copy2(t, src, dst).value;
    var s := Resolve(t, src).value;
    var target := CopyTarget(t, src, dst);
    var d := Resolve(t, target).value;
    assert Components(target);
    ResolvePlaces(t, target);
    PutKeepsValid(t, d, t[s]);
    ResolveSameDirs(t, u, target);
    ResolveSameDirs(t, u, src);
    if IsDirectory(t, dst) {
      ResolveSameDirs(t, u, dst);
    } else if Resolve(u, dst).Ok? {
      ResolveSameDirs(u, t, dst);
    }
  }

  // ---------------------------------------------------------------------
  // Paths without "..": lexical and physical locations agree.

  /** Every part is a name a directory can hold: no "..", no NUL. */
  predicate Plain(parts: seq<string>) {
    forall i :: 0 <= i < |parts| ==> IsName(parts[i])
  }

  /** Every proper ancestor of an entry is a directory. */
  lemma {:induction false} AncestorsAreDirs(t: Tree, l: Loc, i: nat)
    requires ValidTree(t) && l in t && i < |l|
    ensures IsDirAt(t, l[..i])
    decreases |l| - i
  {
    var up := l[..|l| - 1];
    EntryParent(t, l);
    if i < |l| - 1 {
      AncestorsAreDirs(t, up, i);
      assert up[..i] == l[..i];
    }
  }

  /** A plain lookup succeeds when every location it looks into is a directory. */
  lemma {:induction false} WalkPlainOk(t: Tree, cur: Loc, rest: seq<string>)
    requires Plain(rest)
    requires forall i :: 0 <= i < |rest| ==> IsDirAt(t, cur + rest[..i])
    ensures Walk(t, cur, rest) == Ok(cur + rest)
    decreases |rest|
  {
    if rest != [] {
      assert cur + rest[..0] == cur;
      assert IsName(rest[0]);
      var next := cur + [rest[0]];
      forall i | 0 <= i < |rest| - 1 ensures IsDirAt(t, next + rest[1..][..i]) {
        assert next + rest[1..][..i] == cur + rest[..i + 1];
      }
      WalkPlainOk(t, next, rest[1..]);
      assert next + rest[1..] == cur + rest;
    }
  }

  /** A plain lookup that succeeds ends at `cur + rest`, having looked into
      directories only. */
  lemma {:induction false} WalkPlainExact(t: Tree, cur: Loc, rest: seq<string>)
    requires Plain(rest)
    requires Walk(t, cur, rest).Ok?
    ensures Walk(t, cur, rest).value == cur + rest
    ensures forall i :: 0 <= i < |rest| ==> IsDirAt(t, cur + rest[..i])
    decreases |rest|
  {
    if rest != [] {
      assert IsName(rest[0]);
      var next := cur + [rest[0]];
      WalkPlainExact(t, next, rest[1..]);
      assert next + rest[1..] == cur + rest;
      forall i | 0 <= i < |rest| ensures IsDirAt(t, cur + rest[..i]) {
        if i == 0 {
          assert cur + rest[..0] == cur;
        } else {
          assert cur + rest[..i] == next + rest[1..][..i - 1];
        }
      }
    }
  }

  /** A plain lookup that fails names the location where it failed: a missing
      one for ENOENT, a regular file for ENOTDIR. */
  lemma {:induction false} WalkPlainFails(t: Tree, cur: Loc, rest: seq<string>)
    requires Plain(rest)
    requires Walk(t, cur, rest).Err?
    ensures Walk(t, cur, rest).error == NoSuchEntry || Walk(t, cur, rest).error == NotADirectory
    ensures Walk(t, cur, rest).error == NoSuchEntry ==>
      exists i :: 0 <= i < |rest| && cur + rest[..i] !in t
    ensures Walk(t, cur, rest).error == NotADirectory ==>
      exists i :: 0 <= i < |rest| && cur + rest[..i] in t && t[cur + rest[..i]].File?
    decreases |rest|
  {
    assert cur + rest[..0] == cur;
    if cur in t && t[cur] == Dir {
      assert IsName(rest[0]);
      var next := cur + [rest[0]];
      WalkPlainFails(t, next, rest[1..]);
      if Walk(t, cur, rest).error == NoSuchEntry {
        var i :| 0 <= i < |rest| - 1 && next + rest[1..][..i] !in t;
        assert next + rest[1..][..i] == cur + rest[..i + 1];
      } else {
        var i :| 0 <= i < |rest| - 1 && next + rest[1..][..i] in t && t[next + rest[1..][..i]].File?;
        assert next + rest[1..][..i] == cur + rest[..i + 1];
      }
    }
  }

  /** No prefix of `parts`, itself included, is a regular file. */
  ghost predicate NoFileOnWay(t: Tree, parts: seq<string>) {
    forall i :: 0 <= i <= |parts| ==> !(parts[..i] in t && t[parts[..i]].File?)
  }

  /** The tree with every missing prefix of `parts` added as a directory. */
  ghost function WithDirs(t: Tree, parts: seq<string>): Tree
    decreases |parts|
  {
    if parts == [] then t
    else
      var u := WithDirs(t, parts[..|parts| - 1]);
      if parts in u then u else u[parts := Dir]
  }

  /** WithDirs keeps every entry, adds only directories on the way to `parts`,
      and, when no file is on the way, leaves a directory at each prefix. */
  lemma {:induction false} WithDirsFacts(t: Tree, parts: seq<string>)
    requires ValidTree(t)
    ensures var u := WithDirs(t, parts);
      && Extends(t, u)
      && (forall l :: l in u && l !in t ==> u[l] == Dir && 1 <= |l| && l <= parts)
      && (NoFileOnWay(t, parts) ==> forall i :: 0 <= i <= |parts| ==> IsDirAt(u, parts[..i]))
    decreases |parts|
  {
    if parts != [] {
      var p := parts[..|parts| - 1];
      WithDirsFacts(t, p);
      var u := WithDirs(t, p);
      if NoFileOnWay(t, parts) {
        assert NoFileOnWay(t, p) by {
          forall i | 0 <= i <= |p| ensures !(p[..i] in t && t[p[..i]].File?) {
            assert p[..i] == parts[..i];
          }
        }
        forall i | 0 <= i <= |parts| ensures IsDirAt(WithDirs(t, parts), parts[..i]) {
          if i < |parts| {
            assert p[..i] == parts[..i];
            assert IsDirAt(u, p[..i]);
          } else {
            assert parts[..i] == parts;
            if parts in t {
              assert t[parts] == Dir by { assert parts[..|parts|] == parts; }
            }
          }
        }
      }
    } else {
      assert parts[..0] == parts;
    }
  }

  /** The outcome pathlib's mkdir has on a plain path: success exactly when no
      prefix is a regular file, every missing prefix created as a directory on
      success, the tree untouched on failure. */
  ghost predicate PlainOutcome(t: Tree, parts: seq<string>, m: Made) {
    && (m.error.None? <==> NoFileOnWay(t, parts))
    && (m.error.None? ==> m.tree == WithDirs(t, parts))
    && (m.error.Some? ==> m.tree == t)
  }

  /** pathlib's `mkdir(parents=True, exist_ok=True)` on a plain path succeeds
      exactly when no prefix of it is a regular file; it then creates every
      missing prefix as a directory and nothing else, and when it fails it
      leaves the tree as it was. */
  lemma {:induction false} MakeDirsPlain(t: Tree, parts: seq<string>)
    requires ValidTree(t) && Plain(parts)
    ensures PlainOutcome(t, parts, MakeDirs(t, parts, true, true))
    decreases |parts|
  {
    assert Encodable(parts);
    var w := Walk(t, [], parts);
    assert Resolve(t, parts) == w;
    if w.Ok? {
      MakeDirsPlainFound(t, parts);
    } else {
      WalkPlainFails(t, [], parts);
      if w.error == NotADirectory {
        var i :| 0 <= i < |parts| && [] + parts[..i] in t && t[[] + parts[..i]].File?;
        assert [] + parts[..i] == parts[..i];
      } else {
        var p := parts[..|parts| - 1];
        assert Plain(p);
        MakeDirsPlain(t, p);
        MakeDirsPlainMissing(t, parts);
      }
    }
  }

  /** mkdir on a plain path that resolves: it exists already, or is created. */
  lemma MakeDirsFound(t: Tree, parts: seq<string>, parents: bool)
    requires Plain(parts) && Resolve(t, parts).Ok?
    ensures Resolve(t, parts) == Ok(parts)
    ensures MakeDirs(t, parts, parents, true) ==
      if parts !in t then Made(t[parts := Dir], None)
      else if t[parts] == Dir then Made(t, None)
      else Made(t, Some(AlreadyExists))
  {
    WalkPlainExact(t, [], parts);
    assert [] + parts == parts;
  }

  /** mkdir(parents=True) on a path with a missing ancestor makes the parent first. */
  lemma MakeDirsMissing(t: Tree, parts: seq<string>)
    requires Resolve(t, parts) == Err(NoSuchEntry) && parts != []
    ensures MakeDirs(t, parts, true, true) ==
      var up := MakeDirs(t, parts[..|parts| - 1], true, true);
      if up.error.Some? then up else MakeDirs(up.tree, parts, false, true)
  {
  }

  /** The case where every proper prefix is already a directory. */
  lemma MakeDirsPlainFound(t: Tree, parts: seq<string>)
    requires ValidTree(t) && Plain(parts)
    requires Resolve(t, parts).Ok?
    ensures PlainOutcome(t, parts, MakeDirs(t, parts, true, true))
  {
    MakeDirsFound(t, parts, true);
    WalkPlainExact(t, [], parts);
    if parts == [] {
      assert parts[..0] == parts;
    } else {
      var p := parts[..|parts| - 1];
      forall i | 0 <= i <= |p| ensures IsDirAt(t, [] + p[..i]) {
        assert p[..i] == parts[..i];
      }
      WithDirsPresent(t, p);
      assert WithDirs(t, parts) == if parts in t then t else t[parts := Dir];
      if parts in t && t[parts].File? {
        assert parts[..|parts|] == parts;
      } else {
        forall i | 0 <= i <= |parts| ensures !(parts[..i] in t && t[parts[..i]].File?) {
          if i < |parts| {
            assert [] + parts[..i] == parts[..i];
          } else {
            assert parts[..i] == parts;
          }
        }
      }
    }
  }

  /** The case where some proper prefix is missing: the parent is made first. */
  lemma MakeDirsPlainMissing(t: Tree, parts: seq<string>)
    requires ValidTree(t) && Plain(parts) && parts != []
    requires Resolve(t, parts) == Err(NoSuchEntry)
    requires exists i :: 0 <= i < |parts| && [] + parts[..i] !in t
    requires PlainOutcome(t, parts[..|parts| - 1], MakeDirs(t, parts[..|parts| - 1], true, true))
    ensures PlainOutcome(t, parts, MakeDirs(t, parts, true, true))
  {
    var p := parts[..|parts| - 1];
    var up := MakeDirs(t, p, true, true);
    MakeDirsMissing(t, parts);
    if up.error.Some? {
      var i :| 0 <= i <= |p| && p[..i] in t && t[p[..i]].File?;
      assert p[..i] == parts[..i];
    } else {
      var u := up.tree;
      WithDirsFacts(t, p);
      var j :| 0 <= j < |parts| && [] + parts[..j] !in t;
      assert [] + parts[..j] == parts[..j];
      assert parts !in t by {
        if parts in t {
          AncestorsAreDirs(t, parts, j);
        }
      }
      assert parts !in u;
      forall i | 0 <= i < |parts| ensures IsDirAt(u, [] + parts[..i]) {
        assert [] + parts[..i] == p[..i];
      }
      WalkPlainOk(u, [], parts);
      assert Resolve(u, parts).Ok?;
      MakeDirsFound(u, parts, false);
      assert WithDirs(t, parts) == u[parts := Dir];
      NoFileOnWayExtend(t, parts);
    }
  }

  /** No file lies on the way to a path when none lies on the way to its
      parent and the path itself is not a file. */
  lemma NoFileOnWayExtend(t: Tree, parts: seq<string>)
    requires parts != [] && NoFileOnWay(t, parts[..|parts| - 1])
    requires !(parts in t && t[parts].File?)
    ensures NoFileOnWay(t, parts)
  {
    var p := parts[..|parts| - 1];
    forall i | 0 <= i <= |parts| ensures !(parts[..i] in t && t[parts[..i]].File?) {
      if i < |parts| {
        assert parts[..i] == p[..i];
      } else {
        assert parts[..i] == parts;
      }
    }
  }

  /** WithDirs adds nothing when every prefix already exists. */
  lemma {:induction false} WithDirsPresent(t: Tree, parts: seq<string>)
    requires ValidTree(t)
    requires forall i :: 0 <= i <= |parts| ==> IsDirAt(t, [] + parts[..i])
    ensures WithDirs(t, parts) == t
    decreases |parts|
  {
    if parts != [] {
      var p := parts[..|parts| - 1];
      forall i | 0 <= i <= |p| ensures IsDirAt(t, [] + p[..i]) {
        assert p[..i] == parts[..i];
      }
      WithDirsPresent(t, p);
      assert [] + parts[..|parts|] == parts;
    }
  }

  /** The two steps of write_file on a plain target: the parent's mkdir
      followed by the write succeed exactly when no ancestor is a regular
      file and the target is not a directory. Then every missing ancestor
      has become a directory and the target a file holding `c`, and nothing
      else changed; when either call fails the tree is as it was. */
  lemma WritePlain(t: Tree, target: seq<string>, c: string)
    requires ValidTree(t) && Plain(target) && |target| >= 1
    ensures var p := target[..|target| - 1];
      var m := MakeDirs(t, p, true, true);
      && ((m.error.None? && WriteText(m.tree, target, c).Ok?) <==>
          (NoFileOnWay(t, p) && !IsDirAt(t, target)))
      && (m.error.Some? ==> m.tree == t)
      && (m.error.None? && WriteText(m.tree, target, c).Err? ==> m.tree == t)
      && (m.error.None? && WriteText(m.tree, target, c).Ok? ==>
          WriteText(m.tree, target, c).value == WithDirs(t, p)[target := File(c)])
  {
    var p := target[..|target| - 1];
    MakeDirsPlain(t, p);
    if NoFileOnWay(t, p) {
      WriteUnderNewDirs(t, target, c);
      if IsDirAt(t, target) {
        forall i | 0 <= i <= |p| ensures IsDirAt(t, [] + p[..i]) {
          AncestorsAreDirs(t, target, i);
          assert [] + p[..i] == target[..i];
        }
        WithDirsPresent(t, p);
      }
    }
  }

  lemma WriteUnderNewDirs(t: Tree, target: seq<string>, c: string)
    requires ValidTree(t) && Plain(target) && |target| >= 1
    requires NoFileOnWay(t, target[..|target| - 1])
    ensures var u := WithDirs(t, target[..|target| - 1]);
      WriteText(u, target, c) == if IsDirAt(t, target) then Err(IsADirectory) else Ok(u[target := File(c)])
  {
    var p := target[..|target| - 1];
    var u := WithDirs(t, p);
    WithDirsFacts(t, p);
    forall i | 0 <= i < |target| ensures IsDirAt(u, [] + target[..i]) {
      assert [] + target[..i] == p[..i];
    }
    WalkPlainOk(u, [], target);
    assert [] + target == target;
    assert Encodable(target);
    assert Resolve(u, target) == Ok(target);
    assert target in u <==> target in t;
  }
}
