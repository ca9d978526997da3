/**
 * What the prefix check of src/main.py:33-34 guarantees about where a
 * request lands once the kernel resolves the joined path. The check
 * compares strings, and pathlib keeps "..", so it confines only relative
 * paths without ".." and absolute paths that stay below the base.
 */
module Containment {
  import opened PurePaths
  import opened FileSystem

  /** A relative request without ".." passes the check and, if it resolves,
      lands at the base followed by its own parts: inside the base. */
  lemma PlainRelativeStaysInside(t: Tree, base: seq<string>, p: string)
    requires BaseParts(base) && !IsAbsolute(p)
    requires forall i :: 0 <= i < |Parts(p)| ==> Parts(p)[i] != ".."
    requires Resolve(t, Join(base, p).parts).Ok?
    ensures PrefixCheck(base, p)
    ensures Resolve(t, Join(base, p).parts).value == base + Parts(p)
    ensures base <= Resolve(t, Join(base, p).parts).value
  {
    RelativeAlwaysPasses(base, p);
    var parts := base + Parts(p);
    assert Plain(parts) by {
      forall i | 0 <= i < |parts| ensures IsName(parts[i]) {
        if i >= |base| {
          assert parts[i] == Parts(p)[i - |base|];
        }
      }
    }
    WalkPlainExact(t, [], parts);
    assert [] + parts == parts;
  }

  /** A directory reached by a plain path resolves to itself. */
  lemma DirResolves(t: Tree, d: Loc)
    requires ValidTree(t) && Plain(d) && IsDirAt(t, d)
    ensures Resolve(t, d) == Ok(d)
  {
    forall i | 0 <= i < |d| ensures IsDirAt(t, [] + d[..i]) {
      AncestorsAreDirs(t, d, i);
      assert [] + d[..i] == d[..i];
    }
    WalkPlainOk(t, [], d);
    assert [] + d == d;
  }

  /** The traversal "a/../../x" passes the check, and when "a" is a directory
      under the base it resolves to "x" beside the base, outside it. */
  lemma TraversalEscapes(t: Tree, base: seq<string>)
    requires ValidTree(t) && BaseParts(base) && |base| >= 1
    requires IsDirAt(t, base + ["a"])
    ensures PrefixCheck(base, "a/../../x")
    ensures Resolve(t, Join(base, "a/../../x").parts) == Ok(base[..|base| - 1] + ["x"])
    ensures base[|base| - 1] != "x" ==> !(base <= base[..|base| - 1] + ["x"])
  {
    TraversalJoin(base);
    TraversalResolves(t, base);
  }

  /** "a/../../x" under the base: the check passes and pathlib keeps both "..". */
  lemma TraversalJoin(base: seq<string>)
    requires BaseParts(base)
    ensures PrefixCheck(base, "a/../../x")
    ensures Join(base, "a/../../x").parts == base + ["a", "..", "..", "x"]
  {
    TraversalParts();
    RelativeAlwaysPasses(base, "a/../../x");
  }

  /** The kernel resolves the base followed by "a", "..", "..", "x" to the base's sibling "x". */
  lemma TraversalResolves(t: Tree, base: seq<string>)
    requires ValidTree(t) && BaseParts(base) && |base| >= 1
    requires IsDirAt(t, base + ["a"])
    ensures Resolve(t, base + ["a", "..", "..", "x"]) == Ok(base[..|base| - 1] + ["x"])
  {
    var rest := ["a", "..", "..", "x"];
    var a := base + ["a"];
    assert a[..|base|] == base;
    AncestorsAreDirs(t, a, |base|);
    assert Plain(base);
    DirResolves(t, base);
    WalkConcat(t, [], base, rest);
    TraversalWalk(t, base, rest);
    assert Encodable(base + rest) by {
      forall i | 0 <= i < |base + rest| ensures '\0' !in (base + rest)[i] {
        if i >= |base| {
          assert (base + rest)[i] == rest[i - |base|];
        }
      }
    }
  }

  /** The kernel's view of "a/../../x" from the base: down into "a", up twice, into "x". */
  lemma TraversalWalk(t: Tree, base: seq<string>, rest: seq<string>)
    requires ValidTree(t) && |base| >= 1
    requires IsDirAt(t, base + ["a"])
    requires rest == ["a", "..", "..", "x"]
    ensures Walk(t, base, rest) == Ok(base[..|base| - 1] + ["x"])
  {
    var n := |base|;
    var a := base + ["a"];
    assert a[..n] == base;
    AncestorsAreDirs(t, a, n);
    AncestorsAreDirs(t, base, n - 1);
    assert Up(a) == base;
    assert rest[1..] == ["..", "..", "x"];
    assert Walk(t, a, ["..", "..", "x"]) == Walk(t, base, ["..", "x"]);
    assert Walk(t, base, ["..", "x"]) == Walk(t, base[..n - 1], ["x"]);
  }

  /** `<base>` followed by separator-free text `s`, sent as an absolute path,
      passes the check; if it resolves it lands at the sibling of the base
      whose name is the base's last name followed by `s`, outside the base. */
  lemma SiblingEscapes(t: Tree, base: seq<string>, s: string)
    requires BaseParts(base) && |base| >= 1
    requires s != [] && '/' !in s && '\0' !in s
    ensures var p := Str(PurePath(Single, base)) + s;
      var sibling := base[..|base| - 1] + [base[|base| - 1] + s];
      && PrefixCheck(base, p)
      && (Resolve(t, Join(base, p).parts).Ok? ==> Resolve(t, Join(base, p).parts) == Ok(sibling))
      && !(base <= sibling)
  {
    SiblingPasses(base, s);
    var n := |base|;
    var sibling := base[..n - 1] + [base[n - 1] + s];
    var p := Str(PurePath(Single, base)) + s;
    assert Join(base, p).parts == sibling;
    assert Plain(sibling) by {
      forall i | 0 <= i < n ensures IsName(sibling[i]) {
        if i == n - 1 {
          var last := base[n - 1] + s;
          assert '\0' !in last && '/' !in last;
          assert last[..|base[n - 1]|] == base[n - 1];
        }
      }
    }
    if Resolve(t, sibling).Ok? {
      WalkPlainExact(t, [], sibling);
      assert [] + sibling == sibling;
    }
  }
}
