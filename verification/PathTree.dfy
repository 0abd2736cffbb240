// File trees addressed by component paths.

module PathTree {
  // The components of an absolute path; "/a/b" is ["a", "b"].
  type Path = seq<string>

  ghost predicate Child<T>(fs: map<Path, T>, p: Path, name: string) {
    p + [name] in fs
  }

  /** `names` are the children of `p`, each once, in some order. */
  ghost predicate Lists<T>(fs: map<Path, T>, p: Path, names: seq<string>) {
    && (forall i, j :: 0 <= i < j < |names| ==> names[i] != names[j])
    && (forall name :: name in names <==> Child(fs, p, name))
  }

  /** Every entry but the root lies in a directory, whose content is `dir`. */
  ghost predicate Rooted<T>(fs: map<Path, T>, dir: T) {
    forall p {:trigger p in fs} :: p in fs && p != [] ==> p[..|p| - 1] in fs && fs[p[..|p| - 1]] == dir
  }

  lemma {:induction false} SamePrefix(a: Path, b: Path, q: Path)
    requires a <= q && b <= q && |a| == |b|
    ensures a == b
  {
    assert a == q[..|a|] == b;
  }

  lemma {:induction false} Comparable(a: Path, b: Path, q: Path)
    ensures a <= q && b <= q ==> a <= b || b <= a
  {
    if a <= q && b <= q {
      if |a| <= |b| {
        assert a == q[..|a|] == b[..|a|];
      } else {
        assert b == q[..|b|] == a[..|b|];
      }
    }
  }

  lemma {:induction false} PrefixOfExtended(p: Path, q: Path, name: string)
    ensures p <= q + [name] ==> p <= q || p == q + [name]
  {
    if p <= q + [name] && |p| <= |q| {
      assert p == (q + [name])[..|p|] == q[..|p|];
    }
  }

  /** readdir: the children in an order of the file system's choosing, without "." and "..". */
  method ListChildren<T>(fs: map<Path, T>, p: Path) returns (names: seq<string>)
    ensures Lists(fs, p, names)
  {
    names := [];
    var todo := set q | q in fs && |q| == |p| + 1 && p <= q;
    assert forall q :: q in todo ==> q == p + [q[|p|]];
    ghost var all := todo;
    while todo != {}
      invariant todo <= all
      invariant forall i, j :: 0 <= i < j < |names| ==> names[i] != names[j]
      invariant forall name :: name in names <==> p + [name] in all && p + [name] !in todo
      decreases todo
    {
      var q :| q in todo;
      assert q == p + [q[|p|]];
      todo := todo - {q};
      forall name ensures p + [name] == q <==> name == q[|p|] {
        assert (p + [name])[|p|] == name;
      }
      names := names + [q[|p|]];
    }
    forall name
      ensures name in names <==> Child(fs, p, name)
    {
      assert p <= p + [name];
    }
  }
}
