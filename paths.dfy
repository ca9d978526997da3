/**
 * The lexical path layer of the file server: how POSIX `pathlib` turns a
 * caller's string into a path, how `BASE_DIR / p` joins it onto the base
 * directory, what `str()` of the result is, and the `startswith` test every
 * handler applies to that string (src/main.py:33-34 and its five copies).
 * Nothing here looks at the filesystem.
 */
module PurePaths {

  datatype Option<T> = None | Some(value: T)

  /** POSIX roots: pathlib keeps exactly two leading slashes, folds one or
      three and more into a single slash. */
  datatype Root = Single | Double

  /** An absolute pure path: its root and its parts, as `Path.parts` past the root. */
  datatype PurePath = PurePath(root: Root, parts: seq<string>)

  /** A part as pathlib keeps it: not empty, no separator, not ".". (".." is kept.) */
  predicate Component(n: string) {
    n != "" && n != "." && '/' !in n
  }

  predicate Components(xs: seq<string>) {
    forall i :: 0 <= i < |xs| ==> Component(xs[i])
  }

  /** A base directory as `Path(...)` of an absolute, `..`-free setting leaves it
      (an environment variable cannot hold a NUL character). */
  predicate BaseParts(base: seq<string>) {
    Components(base) && forall i :: 0 <= i < |base| ==> base[i] != ".." && '\0' !in base[i]
  }

  /** The pieces of `s` between separators, empty pieces included. */
  function Split(s: string): (r: seq<string>)
    ensures |r| >= 1
    ensures forall i :: 0 <= i < |r| ==> '/' !in r[i]
    decreases |s|
  {
    if s == [] then [""]
    else
      var rest := Split(s[1..]);
      if s[0] == '/' then [""] + rest
      else [[s[0]] + rest[0]] + rest[1..]
  }

  /** Drops the pieces pathlib ignores: empty ones (repeated, leading or
      trailing separators) and ".". */
  function Keep(xs: seq<string>): (r: seq<string>)
    requires forall i :: 0 <= i < |xs| ==> '/' !in xs[i]
    ensures Components(r)
    ensures |r| <= |xs|
  {
    if xs == [] then []
    else if xs[0] == "" || xs[0] == "." then Keep(xs[1..])
    else [xs[0]] + Keep(xs[1..])
  }

  /** `Path(s).parts`, without the root. */
  function Parts(s: string): (r: seq<string>)
    ensures Components(r)
  {
    Keep(Split(s))
  }

  predicate IsAbsolute(s: string) {
    |s| > 0 && s[0] == '/'
  }

  /** The root pathlib's `splitroot` finds in `s`, if any. */
  function RootOf(s: string): (r: Option<Root>)
    ensures r.Some? <==> IsAbsolute(s)
  {
    if !IsAbsolute(s) then None
    else if |s| >= 2 && s[1] == '/' && !(|s| >= 3 && s[2] == '/') then Some(Double)
    else Some(Single)
  }

  /** `Path(s)` for an absolute `s`. */
  function Parse(s: string): PurePath
    requires IsAbsolute(s)
  {
    PurePath(RootOf(s).value, Parts(s))
  }

  /** `Path(base) / p`: an absolute `p` replaces the base, a relative one is appended. */
  function Join(base: seq<string>, p: string): (q: PurePath)
    requires BaseParts(base)
    ensures Components(q.parts)
    ensures !IsAbsolute(p) ==> q == PurePath(Single, base + Parts(p))
    ensures IsAbsolute(p) ==> q == Parse(p)
  {
    match RootOf(p)
    case None => PurePath(Single, base + Parts(p))
    case Some(r) => PurePath(r, Parts(p))
  }

  /** `Path.parent`: lexical, so the parent of ".../a/.." is ".../a"; the root is its own parent. */
  function ParentOf(q: PurePath): (r: PurePath)
    ensures r.root == q.root
    ensures q.parts == [] ==> r == q
    ensures q.parts != [] ==> r.parts + [q.parts[|q.parts| - 1]] == q.parts
  {
    if q.parts == [] then q else PurePath(q.root, q.parts[..|q.parts| - 1])
  }

  function RootStr(r: Root): string {
    match r
    case Single => "/"
    case Double => "//"
  }

  /** The parts joined by single separators. */
  function JoinSlash(xs: seq<string>): string {
    if |xs| == 0 then ""
    else if |xs| == 1 then xs[0]
    else xs[0] + "/" + JoinSlash(xs[1..])
  }

  /** `str(q)`. */
  function Str(q: PurePath): string {
    RootStr(q.root) + JoinSlash(q.parts)
  }

  predicate StartsWith(s: string, prefix: string) {
    prefix <= s
  }

  /** The test of src/main.py:34: `str(BASE_DIR / p).startswith(str(BASE_DIR))`. */
  predicate PrefixCheck(base: seq<string>, p: string)
    requires BaseParts(base)
  {
    StartsWith(Str(Join(base, p)), Str(PurePath(Single, base)))
  }

  // ---------------------------------------------------------------------
  // Splitting and joining are inverse on well-formed parts.

  lemma {:induction false} SplitNoSlash(n: string)
    requires '/' !in n
    ensures Split(n) == [n]
    decreases |n|
  {
    if n != [] {
      SplitNoSlash(n[1..]);
      assert [n[0]] + n[1..] == n;
    }
  }

  lemma {:induction false} SplitConcat(s: string, t: string)
    ensures Split(s + "/" + t) == Split(s) + Split(t)
    decreases |s|
  {
    if s == [] {
      assert (s + "/" + t)[1..] == t;
    } else {
      assert (s + "/" + t)[1..] == s[1..] + "/" + t;
      SplitConcat(s[1..], t);
    }
  }

  lemma {:induction false} SplitJoinSlash(xs: seq<string>)
    requires |xs| >= 1
    requires forall i :: 0 <= i < |xs| ==> '/' !in xs[i]
    ensures Split(JoinSlash(xs)) == xs
    decreases |xs|
  {
    if |xs| == 1 {
      SplitNoSlash(xs[0]);
    } else {
      SplitNoSlash(xs[0]);
      SplitJoinSlash(xs[1..]);
      SplitConcat(xs[0], JoinSlash(xs[1..]));
      assert [xs[0]] + xs[1..] == xs;
    }
  }

  lemma {:induction false} KeepComponents(xs: seq<string>)
    requires Components(xs)
    ensures Keep(xs) == xs
    decreases |xs|
  {
    if xs != [] {
      KeepComponents(xs[1..]);
      assert [xs[0]] + xs[1..] == xs;
    }
  }

  /** Joining well-formed parts by "/" and splitting them again gives the parts back. */
  lemma PartsOfJoinSlash(xs: seq<string>)
    requires Components(xs)
    ensures Parts(JoinSlash(xs)) == xs
  {
    if xs == [] {
    } else {
      SplitJoinSlash(xs);
      KeepComponents(xs);
    }
  }

  /** `Path(str(q)) == q`: the string handlers return in "path" fields names the path they used. */
  lemma ParseStr(q: PurePath)
    requires Components(q.parts)
    ensures IsAbsolute(Str(q)) && Parse(Str(q)) == q
  {
    var j := JoinSlash(q.parts);
    if q.parts == [] {
      assert Split("/") == ["", ""] by { SplitConcat("", ""); }
      assert Split("//") == ["", "", ""] by { SplitConcat("", "/"); assert "" + "/" + "/" == "//"; }
      assert Keep(["", ""]) == [] && Keep(["", "", ""]) == [];
      assert Str(q) == RootStr(q.root);
    } else {
      assert j[0] == q.parts[0][0] by { JoinSlashHead(q.parts); }
      SplitJoinSlash(q.parts);
      KeepComponents(q.parts);
      SplitConcat("", j);
      assert "" + "/" + j == "/" + j;
      assert Split("/" + j) == [""] + q.parts;
      if q.root == Double {
        SplitConcat("", "/" + j);
        assert "" + "/" + ("/" + j) == "//" + j;
        assert Split("//" + j) == [""] + ([""] + q.parts);
        assert Keep([""] + ([""] + q.parts)) == Keep([""] + q.parts) == Keep(q.parts);
        assert ("//" + j)[2] == j[0];
      } else {
        assert Keep([""] + q.parts) == Keep(q.parts);
        assert ("/" + j)[1] == j[0];
      }
    }
  }

  lemma {:induction false} JoinSlashHead(xs: seq<string>)
    requires |xs| >= 1 && xs[0] != ""
    ensures |JoinSlash(xs)| >= 1 && JoinSlash(xs)[0] == xs[0][0]
  {
  }

  lemma {:induction false} JoinSlashAppend(xs: seq<string>, ys: seq<string>)
    requires |xs| >= 1 && |ys| >= 1
    ensures JoinSlash(xs + ys) == JoinSlash(xs) + "/" + JoinSlash(ys)
    decreases |xs|
  {
    if |xs| == 1 {
      assert (xs + ys)[1..] == ys;
    } else {
      assert (xs + ys)[1..] == xs[1..] + ys;
      JoinSlashAppend(xs[1..], ys);
    }
  }

  /** Extending the last part by `s` extends the joined string by `s`. */
  lemma {:induction false} JoinSlashExtendLast(xs: seq<string>, s: string)
    requires |xs| >= 1
    ensures JoinSlash(xs[..|xs| - 1] + [xs[|xs| - 1] + s]) == JoinSlash(xs) + s
    decreases |xs|
  {
    if |xs| > 1 {
      var ys := xs[..|xs| - 1] + [xs[|xs| - 1] + s];
      assert ys[1..] == xs[1..][..|xs| - 2] + [xs[1..][|xs| - 2] + s];
      JoinSlashExtendLast(xs[1..], s);
    }
  }

  // ---------------------------------------------------------------------
  // What the prefix check accepts.

  /** Joining `str(BASE_DIR / p)` onto the base again names the same path:
      the string is absolute, so it replaces the base and parses back. */
  lemma JoinIdempotent(base: seq<string>, p: string)
    requires BaseParts(base)
    ensures Join(base, Str(Join(base, p))) == Join(base, p)
  {
    ParseStr(Join(base, p));
  }

  /** A relative argument always passes: the joined string is the base string
      followed by "/" and the argument's parts, whatever they are (".." included). */
  lemma RelativeAlwaysPasses(base: seq<string>, p: string)
    requires BaseParts(base)
    requires !IsAbsolute(p)
    ensures PrefixCheck(base, p)
  {
    var ps := Parts(p);
    var b := Str(PurePath(Single, base));
    if base == [] {
      assert base + ps == ps;
      assert b == "/";
      assert Str(Join(base, p)) == b + JoinSlash(ps);
    } else if ps == [] {
      assert base + ps == base;
    } else {
      JoinSlashAppend(base, ps);
      assert Str(Join(base, p)) == b + "/" + JoinSlash(ps);
    }
  }

  /** An absolute argument replaces the base. With one leading slash it
      passes exactly when its parts begin with all the base's parts but the
      last, and its next part begins with the base's last part; every such
      argument passes when the base is "/". Written with two leading slashes
      it passes only when the base is "/". */
  lemma AbsolutePasses(base: seq<string>, p: string)
    requires BaseParts(base)
    requires IsAbsolute(p)
    ensures Join(base, p).parts == Parts(p)
    ensures RootOf(p) == Some(Double) ==> (PrefixCheck(base, p) <==> base == [])
    ensures RootOf(p) == Some(Single) && base == [] ==> PrefixCheck(base, p)
    ensures RootOf(p) == Some(Single) && base != [] ==>
      var n := |base|;
      var ps := Parts(p);
      PrefixCheck(base, p) <==> n <= |ps| && ps[..n - 1] == base[..n - 1] && base[n - 1] <= ps[n - 1]
  {
    var ps := Parts(p);
    var jb, jp := JoinSlash(base), JoinSlash(ps);
    assert Str(PurePath(Single, base)) == "/" + jb;
    if base != [] {
      JoinSlashHead(base);
      if RootOf(p) == Some(Double) {
        assert Str(Join(base, p)) == "/" + ("/" + jp);
        assert ("/" + ("/" + jp))[1] == '/';
        assert ("/" + jb)[1] == jb[0] == base[0][0];
        assert base[0][0] in base[0];
      } else {
        assert Str(Join(base, p)) == "/" + jp;
        PrefixAfterSlash(jb, jp);
        JoinSlashPrefix(base, ps);
      }
    } else {
      assert jb == "";
      assert Str(Join(base, p))[..1] == "/";
    }
  }

  /** Prefixes are kept and found again below a common first character. */
  lemma PrefixAfterSlash(a: string, b: string)
    ensures "/" + a <= "/" + b <==> a <= b
  {
    if "/" + a <= "/" + b {
      assert a == ("/" + a)[1..] == ("/" + b)[1..|a| + 1] == b[..|a|];
    }
    if a <= b {
      assert ("/" + b)[..|a| + 1] == "/" + b[..|a|];
    }
  }

  /** A name without separators begins a string that has a separator after
      `b` exactly when it begins `b`. */
  lemma NameBeforeSlash(a: string, b: string, rest: string)
    requires '/' !in a
    ensures a <= b + "/" + rest <==> a <= b
  {
    var s := b + "/" + rest;
    if |a| <= |b| {
      assert s[..|a|] == b[..|a|];
    } else {
      assert a[|b|] in a;
      assert a[|b|] != s[|b|];
    }
  }

  /** Text with a separator at position |a| does not begin a separator-free name. */
  lemma SlashNotInName(a: string, c: string, b: string)
    requires '/' !in b
    ensures !(a + "/" + c <= b)
  {
    var x := a + "/" + c;
    if |a| < |b| {
      assert b[|a|] in b;
      assert x[|a|] != b[|a|];
    }
  }

  /** Two separator-free names followed by a separator: one such string
      begins the other exactly when the names agree and the rest does. */
  lemma NamesBeforeSlash(a: string, c: string, b: string, d: string)
    requires '/' !in a && '/' !in b
    ensures a + "/" + c <= b + "/" + d <==> a == b && c <= d
  {
    var x, y := a + "/" + c, b + "/" + d;
    if |a| < |b| {
      assert b[|a|] in b;
      assert x[|a|] != y[|a|];
    } else if |a| > |b| {
      assert a[|b|] in a;
      assert x[|b|] != y[|b|];
    } else {
      if x <= y {
        assert a == x[..|a|] == y[..|a|] == b;
        assert c == x[|a| + 1..] == y[|a| + 1..|x|] == d[..|c|];
      }
      if a == b && c <= d {
        assert y[..|x|] == b + "/" + d[..|c|];
      }
    }
  }

  /** The joined parts of one path begin those of another exactly when its
      parts but the last are the other's first parts and its last part
      begins the other's next part. */
  lemma {:induction false} JoinSlashPrefix(xs: seq<string>, ys: seq<string>)
    requires Components(xs) && Components(ys) && |xs| >= 1
    ensures var n := |xs|;
      JoinSlash(xs) <= JoinSlash(ys) <==>
        n <= |ys| && xs[..n - 1] == ys[..n - 1] && xs[n - 1] <= ys[n - 1]
    decreases |xs|
  {
    var n := |xs|;
    if |ys| == 0 {
      JoinSlashHead(xs);
    } else if n == 1 {
      if |ys| >= 2 {
        NameBeforeSlash(xs[0], ys[0], JoinSlash(ys[1..]));
      }
    } else if |ys| == 1 {
      SlashNotInName(xs[0], JoinSlash(xs[1..]), ys[0]);
    } else {
      var xt, yt := xs[1..], ys[1..];
      assert Components(xt) by {
        forall i | 0 <= i < |xt| ensures Component(xt[i]) {
          assert xt[i] == xs[i + 1];
        }
      }
      assert Components(yt) by {
        forall i | 0 <= i < |yt| ensures Component(yt[i]) {
          assert yt[i] == ys[i + 1];
        }
      }
      NamesBeforeSlash(xs[0], JoinSlash(xt), ys[0], JoinSlash(yt));
      JoinSlashPrefix(xt, yt);
      if n <= |ys| {
        assert xs[..n - 1] == [xs[0]] + xt[..n - 2];
        assert ys[..n - 1] == [ys[0]] + yt[..n - 2];
        assert xs[n - 1] == xt[n - 2] && ys[n - 1] == yt[n - 2];
        if xs[..n - 1] == ys[..n - 1] {
          assert xs[0] == xs[..n - 1][0];
          assert xt[..n - 2] == xs[..n - 1][1..];
          assert yt[..n - 2] == ys[..n - 1][1..];
        }
      }
    }
  }

  /** `<base>` followed by any separator-free text, given as an absolute path,
      passes the check although it names a sibling of the base directory. */
  lemma SiblingPasses(base: seq<string>, s: string)
    requires BaseParts(base) && |base| >= 1
    requires s != [] && '/' !in s
    ensures var p := Str(PurePath(Single, base)) + s;
      IsAbsolute(p)
      && PrefixCheck(base, p)
      && Join(base, p).parts == base[..|base| - 1] + [base[|base| - 1] + s]
      && !(base <= Join(base, p).parts)
  {
    var n := |base|;
    var sib := base[..n - 1] + [base[n - 1] + s];
    assert Components(sib) by {
      forall i | 0 <= i < |sib| ensures Component(sib[i]) {
        if i == n - 1 {
          assert '/' !in base[n - 1] + s;
          assert |base[n - 1] + s| >= 2;
        }
      }
    }
    JoinSlashExtendLast(base, s);
    assert Str(PurePath(Single, sib)) == Str(PurePath(Single, base)) + s;
    ParseStr(PurePath(Single, sib));
    assert sib[n - 1] != base[n - 1];
  }

  /** The relative argument "a/../../x" of the traversal example is read as
      these four parts, ".." kept. */
  lemma TraversalParts()
    ensures Parts("a/../../x") == ["a", "..", "..", "x"]
    ensures !IsAbsolute("a/../../x")
  {
    var xs := ["a", "..", "..", "x"];
    assert JoinSlash(xs) == "a/../../x";
    PartsOfJoinSlash(xs);
  }
}
