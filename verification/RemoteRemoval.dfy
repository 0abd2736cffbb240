// Recursive removal on the server: rm_file_or_directory_recursively_ex over a file system
// given by its paths.

module RemoteRemoval {
  import opened Options
  import opened PathTree

  // What the first letter of the listed mode tells apart: 'd', '-', 'l', anything else. The target of a link
  // is where following it to the end leads, if anywhere.
  datatype Kind = Dir | File | Link(target: Option<Path>) | Special

  type Fs = map<Path, Kind>

  ghost predicate Empty(fs: Fs, p: Path) {
    forall name :: !Child(fs, p, name)
  }

  /** Something of a kind the removal does not handle lies strictly inside `top`, at or below `q`. */
  ghost predicate Blocked(fs: Fs, top: Path, q: Path) {
    exists r :: r in fs && q <= r && fs[r] == Special && r != top
  }

  /** `fs'` is `fs` without everything at or below `top` that is not blocked. */
  ghost predicate Removed(fs: Fs, top: Path, fs': Fs) {
    && (forall q :: q in fs' <==> q in fs && (top <= q ==> Blocked(fs, top, q)))
    && (forall q :: q in fs' ==> fs'[q] == fs[q])
  }

  // ----- What the loop over one listing has done so far -----

  ghost predicate Handled(top: Path, names: seq<string>, i: int, q: Path) {
    exists j :: i <= j < |names| && 0 <= j && top + [names[j]] <= q
  }

  ghost predicate PartlyRemoved(fs: Fs, top: Path, names: seq<string>, i: int, fs': Fs) {
    && (forall q :: q in fs' <==> q in fs && (Handled(top, names, i, q) ==> Blocked(fs, top, q)))
    && (forall q :: q in fs' ==> fs'[q] == fs[q])
  }

  /** Every path strictly below a directory passes through one of its children. */
  lemma {:induction false} ThroughChild(fs: Fs, top: Path, q: Path)
    requires Rooted(fs, Dir) && q in fs && top <= q && top != q
    ensures top + [q[|top|]] <= q && Child(fs, top, q[|top|])
    ensures top in fs && fs[top] == Dir
    decreases |q|
  {
    var up := q[..|q| - 1];
    assert q == up + [q[|q| - 1]];
    if |q| == |top| + 1 {
      assert q == top + [q[|top|]];
      assert up == top;
    } else {
      assert top <= up && top != up;
      ThroughChild(fs, top, up);
    }
  }

  lemma {:induction false} BlockedBelow(fs: Fs, top: Path, q: Path, q': Path)
    requires Blocked(fs, top, q') && q <= q'
    ensures Blocked(fs, top, q)
  {
    var r :| r in fs && q' <= r && fs[r] == Special && r != top;
    assert q <= r;
  }

  /** What is left is still a tree. */
  lemma {:induction false} PartlyRemovedRooted(fs: Fs, top: Path, names: seq<string>, i: int, fs': Fs)
    requires Rooted(fs, Dir) && PartlyRemoved(fs, top, names, i, fs') && 0 <= i
    ensures Rooted(fs', Dir)
  {
    forall p | p in fs' && p != []
      ensures p[..|p| - 1] in fs' && fs'[p[..|p| - 1]] == Dir
    {
      var up := p[..|p| - 1];
      if Handled(top, names, i, up) {
        var j :| i <= j < |names| && top + [names[j]] <= up;
        assert up <= p;
        assert top + [names[j]] <= p;
        BlockedBelow(fs, top, up, p);
      }
    }
  }

  lemma {:induction false} RemovedRooted(fs: Fs, top: Path, fs': Fs)
    requires Rooted(fs, Dir) && Removed(fs, top, fs')
    ensures Rooted(fs', Dir)
  {
    forall p | p in fs' && p != []
      ensures p[..|p| - 1] in fs' && fs'[p[..|p| - 1]] == Dir
    {
      var up := p[..|p| - 1];
      assert up <= p;
      if top <= up {
        BlockedBelow(fs, top, up, p);
      }
    }
  }

  // ----- The steps of the loop -----

  /** While child `i` waits for its turn, everything at or below it is untouched. */
  lemma {:induction false} ChildUntouched(fs: Fs, top: Path, names: seq<string>, i: int, fs': Fs, q: Path)
    requires Lists(fs, top, names) && 0 <= i < |names| && PartlyRemoved(fs, top, names, i + 1, fs')
    requires top + [names[i]] <= q
    ensures q in fs' <==> q in fs
  {
    if Handled(top, names, i + 1, q) {
      var j :| i + 1 <= j < |names| && top + [names[j]] <= q;
      SamePrefix(top + [names[i]], top + [names[j]], q);
      assert (top + [names[i]])[|top|] == names[i] && (top + [names[j]])[|top|] == names[j];
    }
  }

  lemma {:induction false} SameBlocked(fs: Fs, top: Path, names: seq<string>, i: int, fs': Fs, q: Path)
    requires Lists(fs, top, names) && 0 <= i < |names| && PartlyRemoved(fs, top, names, i + 1, fs')
    requires top + [names[i]] in fs && fs[top + [names[i]]] == Dir && top + [names[i]] <= q
    ensures Blocked(fs', top + [names[i]], q) <==> Blocked(fs, top, q)
  {
    var p := top + [names[i]];
    if Blocked(fs', p, q) {
      var r :| r in fs' && q <= r && fs'[r] == Special && r != p;
      assert r != top;
      assert r in fs && fs[r] == Special;
    }
    if Blocked(fs, top, q) {
      var r :| r in fs && q <= r && fs[r] == Special && r != top;
      assert p <= r;
      ChildUntouched(fs, top, names, i, fs', r);
      assert fs'[r] == Special && r != p;
    }
  }

  lemma {:induction false} HandledStep(top: Path, names: seq<string>, i: int, q: Path)
    requires 0 <= i < |names|
    ensures Handled(top, names, i, q) <==> Handled(top, names, i + 1, q) || top + [names[i]] <= q
  {
  }

  lemma {:induction false} AfterRecursing(fs: Fs, top: Path, names: seq<string>, i: int, fs1: Fs, fs2: Fs)
    requires Lists(fs, top, names) && 0 <= i < |names| && PartlyRemoved(fs, top, names, i + 1, fs1)
    requires top + [names[i]] in fs && fs[top + [names[i]]] == Dir
    requires Removed(fs1, top + [names[i]], fs2)
    ensures PartlyRemoved(fs, top, names, i, fs2)
  {
    var p := top + [names[i]];
    forall q
      ensures q in fs2 <==> q in fs && (Handled(top, names, i, q) ==> Blocked(fs, top, q))
    {
      HandledStep(top, names, i, q);
      if p <= q {
        ChildUntouched(fs, top, names, i, fs1, q);
        SameBlocked(fs, top, names, i, fs1, q);
      }
    }
  }

  lemma {:induction false} LeafBlocked(fs: Fs, top: Path, p: Path)
    requires Rooted(fs, Dir) && p in fs && fs[p] != Dir && p != top
    ensures Blocked(fs, top, p) <==> fs[p] == Special
  {
    forall r | r in fs && p <= r
      ensures r == p
    {
      if r != p {
        ThroughChild(fs, p, r);
      }
    }
  }

  /** A child that is no directory is a leaf, and is removed unless it is special. */
  lemma {:induction false} AfterLeaf(fs: Fs, top: Path, names: seq<string>, i: int, fs1: Fs, fs2: Fs)
    requires Rooted(fs, Dir) && Lists(fs, top, names) && 0 <= i < |names| && PartlyRemoved(fs, top, names, i + 1, fs1)
    requires top + [names[i]] in fs && fs[top + [names[i]]] != Dir
    requires fs2 == if fs[top + [names[i]]] == Special then fs1 else fs1 - {top + [names[i]]}
    ensures PartlyRemoved(fs, top, names, i, fs2)
  {
    var p := top + [names[i]];
    forall q
      ensures q in fs2 <==> q in fs && (Handled(top, names, i, q) ==> Blocked(fs, top, q))
    {
      HandledStep(top, names, i, q);
      if p <= q {
        ChildUntouched(fs, top, names, i, fs1, q);
        if q in fs && q != p {
          ThroughChild(fs, p, q);
        }
        LeafBlocked(fs, top, p);
      }
    }
  }

  // ----- Removing the directory itself -----

  lemma {:induction false} HandledIff(fs: Fs, top: Path, names: seq<string>, q: Path)
    requires Rooted(fs, Dir) && Lists(fs, top, names) && q in fs
    ensures Handled(top, names, 0, q) <==> top <= q && q != top
  {
    if Handled(top, names, 0, q) {
      var j :| 0 <= j < |names| && top + [names[j]] <= q;
      assert top <= top + [names[j]];
    }
    if top <= q && q != top {
      ThroughChild(fs, top, q);
      var j :| 0 <= j < |names| && names[j] == q[|top|];
      assert top + [names[j]] <= q;
    }
  }

  /** Once every child is handled the directory is empty unless something special is inside. */
  lemma {:induction false} EmptyIff(fs: Fs, top: Path, names: seq<string>, fs1: Fs)
    requires Rooted(fs, Dir) && Lists(fs, top, names) && PartlyRemoved(fs, top, names, 0, fs1)
    ensures Empty(fs1, top) <==> !Blocked(fs, top, top)
  {
    if Blocked(fs, top, top) {
      var r :| r in fs && top <= r && fs[r] == Special && r != top;
      ThroughChild(fs, top, r);
      assert Blocked(fs, top, top + [r[|top|]]);
      assert Child(fs1, top, r[|top|]);
    } else {
      forall name
        ensures !Child(fs1, top, name)
      {
        var c := top + [name];
        if c in fs {
          HandledIff(fs, top, names, c);
          if Blocked(fs, top, c) {
            BlockedBelow(fs, top, top, c);
          }
        }
      }
    }
  }

  lemma {:induction false} AfterTop(fs: Fs, top: Path, names: seq<string>, fs1: Fs, fs2: Fs)
    requires Rooted(fs, Dir) && top in fs && fs[top] == Dir && Lists(fs, top, names)
    requires PartlyRemoved(fs, top, names, 0, fs1)
    requires fs2 == if Empty(fs1, top) then fs1 - {top} else fs1
    ensures top in fs1 && fs1[top] == Dir
    ensures Removed(fs, top, fs2) && (top in fs2 <==> Blocked(fs, top, top))
  {
    EmptyIff(fs, top, names, fs1);
    HandledIff(fs, top, names, top);
    forall q
      ensures q in fs2 <==> q in fs && (top <= q ==> Blocked(fs, top, q))
    {
      if q in fs {
        HandledIff(fs, top, names, q);
      }
    }
  }

  lemma {:induction false} AfterLeafTop(fs: Fs, top: Path, fs2: Fs)
    requires Rooted(fs, Dir) && (top in fs ==> fs[top] != Dir) && fs2 == fs - {top}
    ensures Removed(fs, top, fs2) && !Blocked(fs, top, top)
  {
    forall q | q in fs && top <= q
      ensures q == top
    {
      if q != top {
        ThroughChild(fs, top, q);
      }
    }
  }

  /** The whole subtree goes, and nothing else, exactly when it holds only directories, files and links
      below the top item. */
  lemma {:induction false} WholeSubtreeIff(fs: Fs, top: Path, fs': Fs)
    requires Removed(fs, top, fs')
    ensures (forall q :: q in fs' <==> q in fs && !(top <= q))
        <==> (forall r :: r in fs && top <= r && r != top ==> fs[r] != Special)
  {
    if r :| r in fs && top <= r && r != top && fs[r] == Special {
      assert Blocked(fs, top, r);
      assert r in fs';
    } else {
      forall q | top <= q
        ensures !Blocked(fs, top, q)
      {
        forall r | r in fs && q <= r && fs[r] == Special
          ensures r == top
        {
          assert top <= r;
        }
      }
    }
  }

  /** Removing "/d" leaves it in place for the sake of the pipe "/d/p". */
  lemma {:induction false} PipeStays(fs': Fs)
    requires Removed(map[[] := Dir, ["d"] := Dir, ["d", "p"] := Special], ["d"], fs')
    ensures ["d"] in fs' && ["d", "p"] in fs'
  {
    var fs: Fs := map[[] := Dir, ["d"] := Dir, ["d", "p"] := Special];
    assert ["d"] <= ["d", "p"] && fs[["d", "p"]] == Special;
    assert Blocked(fs, ["d"], ["d"]) && Blocked(fs, ["d"], ["d", "p"]);
  }

  // ----- The server and the client code -----

  ghost function Below(fs: Fs, p: Path): set<Path> {
    set q | q in fs && p <= q
  }

  lemma {:induction false} Subset(a: set<Path>, b: set<Path>)
    requires a <= b
    ensures |a| <= |b|
    decreases a
  {
    if a != {} {
      var x :| x in a;
      Subset(a - {x}, b - {x});
    }
  }

  lemma {:induction false} Smaller(a: set<Path>, b: set<Path>, x: Path)
    requires a <= b && x in b && x !in a
    ensures |a| < |b|
  {
    assert a <= b - {x};
    Subset(a, b - {x});
  }

  lemma {:induction false} FewerBelow(fs: Fs, top: Path, fs': Fs, name: string)
    requires fs'.Keys <= fs.Keys && top in fs
    ensures |Below(fs', top + [name])| < |Below(fs, top)|
  {
    var a, b := Below(fs', top + [name]), Below(fs, top);
    forall q | q in a ensures q in b {
      assert top <= top + [name] <= q;
    }
    assert top in b && top !in a;
    Smaller(a, b, top);
  }

  // ----- A top item that is a link -----

  /** The directory that opening `p` with a slash behind it reads. */
  function Opens(fs: Fs, p: Path): Option<Path> {
    if p !in fs then None
    else if fs[p] == Dir then Some(p)
    else if fs[p].Link? && fs[p].target.Some? && fs[p].target.value in fs && fs[fs[p].target.value] == Dir
    then fs[p].target
    else None
  }

  /** `p` is a link to a directory. */
  predicate Redirected(fs: Fs, p: Path) {
    p in fs && fs[p].Link? && Opens(fs, p).Some?
  }

  /** Opening follows a link, and reads nothing but a directory. */
  lemma {:induction false} OpensIff(fs: Fs, p: Path, d: Path)
    ensures Opens(fs, p) == Some(d) <==>
      (p in fs && fs[p] == Dir && d == p) || (p in fs && fs[p] == Link(Some(d)) && d in fs && fs[d] == Dir)
  {
  }

  /** `fs'` is `fs` without the link `top` and without everything strictly below its target that is not blocked. */
  ghost predicate RemovedThrough(fs: Fs, top: Path, fs': Fs)
    requires Redirected(fs, top)
  {
    var d := Opens(fs, top).value;
    && (forall q :: q in fs' <==> q in fs && q != top && (d <= q && q != d ==> Blocked(fs, d, q)))
    && (forall q :: q in fs' ==> fs'[q] == fs[q])
  }

  lemma {:induction false} AfterThrough(fs: Fs, top: Path, names: seq<string>, fs1: Fs, fs2: Fs)
    requires Rooted(fs, Dir) && Redirected(fs, top) && Lists(fs, Opens(fs, top).value, names)
    requires !(Opens(fs, top).value <= top)
    requires PartlyRemoved(fs, Opens(fs, top).value, names, 0, fs1) && fs2 == fs1 - {top}
    ensures RemovedThrough(fs, top, fs2) && Rooted(fs2, Dir)
  {
    var d := Opens(fs, top).value;
    forall q | q in fs
      ensures Handled(d, names, 0, q) <==> d <= q && q != d
    {
      HandledIff(fs, d, names, q);
    }
    PartlyRemovedRooted(fs, d, names, 0, fs1);
    AfterLeafTop(fs1, top, fs2);
    RemovedRooted(fs1, top, fs2);
  }

  lemma {:induction false} HandledTop(fs: Fs, top: Path, names: seq<string>, fs1: Fs)
    requires Rooted(fs, Dir) && Redirected(fs, top) && Lists(fs, Opens(fs, top).value, names)
    requires !(Opens(fs, top).value <= top) && PartlyRemoved(fs, Opens(fs, top).value, names, 0, fs1)
    ensures top in fs1 && fs1[top] == fs[top]
  {
    HandledIff(fs, Opens(fs, top).value, names, top);
  }

  /** Removing a link to a directory leaves everything outside the link alone exactly if nothing below the
      target can be removed, because it is empty or holds only special files. */
  lemma {:induction false} OutsideKeptIff(fs: Fs, top: Path, fs': Fs)
    requires Rooted(fs, Dir) && Redirected(fs, top) && RemovedThrough(fs, top, fs')
    requires !(Opens(fs, top).value <= top)
    ensures var d := Opens(fs, top).value;
      (forall q :: q in fs && !(top <= q) ==> q in fs') <==>
      (forall q :: q in fs && d <= q && q != d ==> Blocked(fs, d, q))
  {
    var d := Opens(fs, top).value;
    forall q | q in fs && d <= q
      ensures !(top <= q)
    {
      Comparable(top, d, q);
      if top <= d {
        ThroughChild(fs, top, d);
      }
    }
  }

  function Linked(): Fs {
    map[[] := Dir, ["d"] := Dir, ["d", "f"] := File, ["l"] := Link(Some(["d"]))]
  }

  /** Removing "/l", a link to "/d", removes "/d/f". */
  lemma {:induction false} LinkEmptiesTarget(fs': Fs)
    ensures Redirected(Linked(), ["l"])
    ensures RemovedThrough(Linked(), ["l"], fs') ==> ["d", "f"] !in fs'
  {
    assert ["d"] <= ["d", "f"] && forall r :: r in Linked() ==> Linked()[r] != Special;
  }

  class Server {
    var entries: Fs

    constructor (fs: Fs)
      ensures entries == fs
    {
      entries := fs;
    }

    /** opendir and readdir on the path with a slash behind it, which follows a link: the children in some
        order, without "." and "..". */
    method ListDir(p: Path) returns (names: seq<string>)
      ensures match Opens(entries, p) case Some(d) => Lists(entries, d, names) case None => names == []
    {
      names := [];
      var d := Opens(entries, p);
      if d.Some? {
        names := ListChildren(entries, d.value);
      }
    }

    /** SSH_FXP_RMDIR: succeeds on an empty directory. */
    method RmDir(p: Path) returns (ret: int)
      modifies this`entries
      ensures ret == 0 <==> p in old(entries) && old(entries)[p] == Dir && Empty(old(entries), p)
      ensures entries == if ret == 0 then old(entries) - {p} else old(entries)
    {
      ret := -1;
      if p in entries && entries[p] == Dir {
        var inside := set q | q in entries && |q| == |p| + 1 && p <= q;
        forall name ensures Child(entries, p, name) <==> p + [name] in inside {
        }
        forall q | q in inside ensures Child(entries, p, q[|p|]) {
          assert q == p + [q[|p|]];
        }
        if inside == {} {
          ret := 0;
          entries := entries - {p};
        } else {
          ghost var q :| q in inside;
          assert Child(entries, p, q[|p|]);
        }
      }
    }

    /** SSH_FXP_REMOVE: succeeds on anything that is not a directory; a link itself is removed. */
    method Unlink(p: Path) returns (ret: int)
      modifies this`entries
      ensures ret == 0 <==> p in old(entries) && old(entries)[p] != Dir
      ensures entries == if ret == 0 then old(entries) - {p} else old(entries)
    {
      if p in entries && entries[p] != Dir {
        ret := 0;
        entries := entries - {p};
      } else {
        ret := -1;
      }
    }

    /** rm_file_or_directory_recursively_ex on an item that is no link to a directory. */
    method RemoveRecursively(top: Path) returns (ret: int)
      requires Rooted(entries, Dir) && !Redirected(entries, top)
      modifies this`entries
      ensures Removed(old(entries), top, entries) && Rooted(entries, Dir)
      ensures ret == 0 <==> top in old(entries) && !Blocked(old(entries), top, top)
      decreases |Below(entries, top)|
    {
      ghost var fs := entries;
      var names := ListDir(top);
      if names != [] {
        RemoveChildren(top, names);
      }
      ghost var fs1 := entries;
      ret := RmDir(top);
      if ret != 0 {
        ret := Unlink(top);
      }
      if top in fs && fs[top] == Dir {
        AfterTop(fs, top, names, fs1, entries);
      } else {
        assert entries == fs - {top};
        AfterLeafTop(fs, top, entries);
      }
      RemovedRooted(fs, top, entries);
    }

    /** The loop over the listing, from the last entry to the first. */
    method RemoveChildren(top: Path, names: seq<string>)
      requires Rooted(entries, Dir) && top in entries && entries[top] == Dir && Lists(entries, top, names)
      modifies this`entries
      ensures PartlyRemoved(old(entries), top, names, 0, entries)
      decreases |Below(entries, top)|, 0
    {
      ghost var fs := entries;
      var i := |names|;
      while i > 0
        invariant 0 <= i <= |names| && PartlyRemoved(fs, top, names, i, entries)
      {
        i := i - 1;
        var p := top + [names[i]];
        assert names[i] in names && Child(fs, top, names[i]);
        ChildUntouched(fs, top, names, i, entries, p);
        PartlyRemovedRooted(fs, top, names, i + 1, entries);
        ghost var fs1 := entries;
        if entries[p] == Dir {
          FewerBelow(fs, top, entries, names[i]);
          var ret := RemoveRecursively(p);
          AfterRecursing(fs, top, names, i, fs1, entries);
        } else {
          if entries[p].Link? || entries[p] == File {
            var ret := Unlink(p);
          }
          AfterLeaf(fs, top, names, i, fs1, entries);
        }
      }
    }

    /** The same on any top item whose link, if it is one to a directory, does not lie inside that directory:
        paths through the link are resolved to paths below its target. */
    method RemoveTop(top: Path) returns (ret: int)
      requires Rooted(entries, Dir) && (Redirected(entries, top) ==> !(Opens(entries, top).value <= top))
      modifies this`entries
      ensures Rooted(entries, Dir)
      ensures if Redirected(old(entries), top) then RemovedThrough(old(entries), top, entries) && ret == 0
              else Removed(old(entries), top, entries)
                   && (ret == 0 <==> top in old(entries) && !Blocked(old(entries), top, top))
    {
      if !Redirected(entries, top) {
        ret := RemoveRecursively(top);
        return;
      }
      ghost var fs := entries;
      var names := ListDir(top);
      RemoveChildren(Opens(entries, top).value, names);
      ghost var fs1 := entries;
      HandledTop(fs, top, names, fs1);
      ret := RmDir(top);
      if ret != 0 {
        ret := Unlink(top);
      }
      AfterThrough(fs, top, names, fs1, entries);
    }
  }
}
