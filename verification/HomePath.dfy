// The tree that set_user_home_path plants: a single chain of directories.

module HomePath {
  import opened Options
  import opened NodeHeap
  import opened Paths
  import opened ReconcileFacts
  import opened PathLookup
  import opened ListSpec

  /** Parts are used up to the first empty one after the leading slash. */
  function ChainLength(parts: seq<string>, i: nat): (n: nat)
    requires 1 <= i <= |parts|
    ensures i <= n <= |parts|
    ensures forall j :: i <= j < n ==> parts[j] != ""
    ensures n < |parts| ==> parts[n] == ""
    decreases |parts| - i
  {
    if i == |parts| || parts[i] == "" then i else ChainLength(parts, i + 1)
  }

  function ChainPath(parts: seq<string>, i: nat): string
    requires i < |parts|
  {
    if i == 0 then "" else ChainPath(parts, i - 1) + "/" + parts[i]
  }

  function HomeFlag(home: string, parts: seq<string>, i: nat): int {
    if home == "/" || i == |parts| - 1 then POP_NO_NEED_NO_DATA else POP_NO_NEED_WITH_DATA
  }

  function HomeData(home: string, parts: seq<string>, i: nat): NodeData
    requires i < |parts|
  {
    NodeData(ChainPath(parts, i), if i == 0 then "/" else parts[i], false,
             HomeFlag(home, parts, i), 0xFF, false, Attrib(16877, 0, 0))
  }

  /** The node at address `r` of a chain of `m` directories allocated from `base` on. */
  function HomeNode(home: string, parts: seq<string>, base: Ref, m: nat, r: Ref): NetDirNode
    requires base <= r < base + m && m <= |parts|
  {
    NetDirNode(HomeData(home, parts, r - base),
               if r + 1 < base + m then map[0 := r + 1] else map[],
               if r == base then None else Some(r - 1), 0)
  }

  ghost predicate HomeChain(home: string, parts: seq<string>, base: Ref, m: nat, h: Heap)
    requires m <= |parts|
  {
    && (forall r :: r in h <==> base <= r < base + m)
    && forall r {:trigger HomeNode(home, parts, base, m, r)} :: base <= r < base + m ==>
         h[r] == HomeNode(home, parts, base, m, r)
  }

  lemma {:induction false} ChainIsTree(home: string, parts: seq<string>, base: Ref, m: nat, h: Heap)
    requires 1 <= m <= |parts| && HomeChain(home, parts, base, m, h)
    ensures Tree(h, base, base + m)
  {
    forall n | n in h
      ensures NodeOk(h, n) && LinkOk(h, n) && (n != base ==> h[n].pNode.Some?)
    {
      assert h[n] == HomeNode(home, parts, base, m, n);
      if n + 1 < base + m {
        assert h[n + 1] == HomeNode(home, parts, base, m, n + 1);
      }
      if n > base {
        assert h[n - 1] == HomeNode(home, parts, base, m, n - 1);
      }
    }
    assert h[base] == HomeNode(home, parts, base, m, base);
  }

  lemma {:induction false} GrownNode(home: string, parts: seq<string>, base: Ref, m: nat, h: Heap, r: Ref)
    requires 1 <= m < |parts| && HomeChain(home, parts, base, m, h) && base <= r < base + m + 1
    ensures var h' := AppendedNode(h, base + m - 1, base + m, HomeData(home, parts, m));
      h'[r] == HomeNode(home, parts, base, m + 1, r)
  {
    var last := base + m - 1;
    assert h[last] == HomeNode(home, parts, base, m, last) && |h[last].childNodes| == 0;
    if r < last {
      assert h[r] == HomeNode(home, parts, base, m, r);
    } else if r == last {
      assert h[last].childNodes[|h[last].childNodes| := base + m] == map[0 := base + m];
    }
  }

  lemma {:induction false} ChainGrows(home: string, parts: seq<string>, base: Ref, m: nat, h: Heap, h': Heap)
    requires 1 <= m < |parts| && HomeChain(home, parts, base, m, h)
    requires h' == AppendedNode(h, base + m - 1, base + m, HomeData(home, parts, m))
    ensures HomeChain(home, parts, base, m + 1, h')
  {
    forall r | base <= r < base + m + 1
      ensures h'[r] == HomeNode(home, parts, base, m + 1, r)
    {
      GrownNode(home, parts, base, m, h, r);
    }
  }

  // ----- What the chain is good for -----

  lemma {:induction false} ChainPathsOk(home: string, parts: seq<string>, base: Ref, m: nat, h: Heap)
    requires 1 <= m <= |parts| && HomeChain(home, parts, base, m, h)
    requires forall i :: 1 <= i < m ==> GoodName(parts[i])
    ensures PathsOk(h, base)
    ensures Shape(h) && NamesUnique(h)
  {
    ChainIsTree(home, parts, base, m, h);
    assert h[base] == HomeNode(home, parts, base, m, base);
    forall n | n in h
      ensures PathOk(h, n)
    {
      assert h[n] == HomeNode(home, parts, base, m, n);
      if n > base {
        assert h[n - 1] == HomeNode(home, parts, base, m, n - 1);
      }
    }
    forall n | n in h && NodeOk(h, n)
      ensures Distinct(Shown(h, n))
    {
      assert h[n] == HomeNode(home, parts, base, m, n);
      assert |Kids(h, n)| <= 1;
    }
  }

  lemma {:induction false} ChainPathPrefix(ps: seq<string>, qs: seq<string>, i: nat)
    requires i < |ps| && i < |qs| && ps[..i + 1] == qs[..i + 1]
    ensures ChainPath(ps, i) == ChainPath(qs, i)
  {
    assert ps[i] == ps[..i + 1][i] == qs[i];
    if i > 0 {
      assert ps[..i] == ps[..i + 1][..i] == qs[..i + 1][..i] == qs[..i];
      ChainPathPrefix(ps, qs, i - 1);
    }
  }

  /** One more character at the end of a split path. */
  lemma {:induction false} ChainPathMore(ps: seq<string>, c: char)
    requires |ps| >= 2
    ensures var qs := if c == '/' then ps + [""] else ps[..|ps| - 1] + [ps[|ps| - 1] + [c]];
      ChainPath(qs, |qs| - 1) == ChainPath(ps, |ps| - 1) + [c]
  {
    var k := |ps| - 1;
    if c == '/' {
      ChainPathPrefix(ps, ps + [""], k);
    } else {
      var qs := ps[..k] + [ps[k] + [c]];
      ChainPathPrefix(ps, qs, k - 1);
      assert ChainPath(ps, k - 1) + "/" + (ps[k] + [c]) == (ChainPath(ps, k - 1) + "/" + ps[k]) + [c];
    }
  }

  lemma {:induction false} RootPath()
    ensures Split("/") == ["", ""] && ChainPath(["", ""], 1) == "/"
  {
    assert "/" == "" + "/" + "";
    SplitAppend("", "");
    assert ChainPath(["", ""], 0) == "";
  }

  /** A path is its own parts joined again. */
  lemma {:induction false} ChainPathOfSplit(s: string)
    requires s != "" && s[0] == '/'
    ensures Split(s)[0] == "" && |Split(s)| >= 2 && ChainPath(Split(s), |Split(s)| - 1) == s
    decreases |s|
  {
    var front, c := s[..|s| - 1], s[|s| - 1];
    assert s == front + [c];
    if |s| == 1 {
      RootPath();
    } else {
      ChainPathOfSplit(front);
      ChainPathMore(Split(front), c);
    }
  }

  lemma {:induction false} ChainFindsLast(home: string, parts: seq<string>, base: Ref, m: nat, h: Heap)
    requires 1 <= m <= |parts| && HomeChain(home, parts, base, m, h)
    requires forall i :: 1 <= i < m ==> GoodName(parts[i])
    ensures Shape(h) && base in h && base + m - 1 in h
    ensures h[base + m - 1].data.fullPath == ChainPath(parts, m - 1)
    ensures IndexOfPath(h, base, ChainPath(parts, m - 1)) == (0, base + m - 1)
  {
    var last := base + m - 1;
    ChainIsTree(home, parts, base, m, h);
    ChainPathsOk(home, parts, base, m, h);
    assert h[last] == HomeNode(home, parts, base, m, last);
    OwnPathFindsNode(h, base, base + m, last);
  }

  /** Without empty parts the last directory of the chain is the home itself, and lookup finds it. */
  lemma {:induction false} HomeIsFound(home: string, base: Ref, h: Heap)
    requires home != "" && home[0] == '/'
    requires forall i :: 1 <= i < |Split(home)| ==> Split(home)[i] != ""
    requires HomeChain(home, Split(home), base, |Split(home)|, h)
    ensures Shape(h) && base in h
    ensures var last := base + |Split(home)| - 1;
      last in h && h[last].data.fullPath == home && IndexOfPath(h, base, home) == (0, last)
  {
    var parts := Split(home);
    ChainPathOfSplit(home);
    assert forall i :: 1 <= i < |parts| ==> GoodName(parts[i]);
    ChainFindsLast(home, parts, base, |parts|, h);
  }

  /** Which directories of the chain will be fetched when shown: for "/" the root; otherwise the
      last one if no part was empty, and none at all if one was. */
  lemma {:induction false} HomeFlags(home: string, base: Ref, h: Heap, r: Ref)
    requires home != "" && home[0] == '/'
    requires HomeChain(home, Split(home), base, ChainLength(Split(home), 1), h) && r in h
    ensures h[r].data.retrFlag == 0x01 <==>
      if home == "/" then r == base
      else r == base + |Split(home)| - 1 && forall i :: 1 <= i < |Split(home)| ==> Split(home)[i] != ""
    ensures h[r].data.retrFlag == 0x01 || h[r].data.retrFlag == 0x02
  {
    var parts := Split(home);
    var m := ChainLength(parts, 1);
    assert h[r] == HomeNode(home, parts, base, m, r);
    if home == "/" {
      assert home[..0] == "" && Split("") == [""];
      assert parts == ["", ""];
    }
  }

  /** A planted directory bears its part of the home, the root a slash; nothing else distinguishes them. */
  lemma {:induction false} HomeDirectory(home: string, base: Ref, h: Heap, r: Ref)
    requires home != "" && home[0] == '/'
    requires HomeChain(home, Split(home), base, ChainLength(Split(home), 1), h) && r in h
    ensures h[r].data.fileName == (if r == base then "/" else Split(home)[r - base])
    ensures h[base].data.fullPath == "" && h[r].data.prevFlag == 0xFF && h[r].data.attrib.permissions == 16877
    ensures !h[r].data.linkToDir && !h[r].data.deleted
  {
    var m := ChainLength(Split(home), 1);
    assert h[r] == HomeNode(home, Split(home), base, m, r);
    assert h[base] == HomeNode(home, Split(home), base, m, base);
  }

  lemma {:induction false} DfParts()
    ensures Split("/d/f") == ["", "d", "f"]
  {
    assert "/d/f" == "/d" + "/" + "f" && "/d" == "" + "/" + "d";
    SplitAppend("", "d");
    SplitAppend("/d", "f");
  }

  /** Renaming "/d" to "/e" in the tree of the home "/d/f" leaves the path "/d/f" behind. */
  lemma {:induction false} RenameLosesPath(base: Ref, h: Heap)
    requires HomeChain("/d/f", Split("/d/f"), base, |Split("/d/f")|, h)
    ensures PathsOk(h, base) && base + 1 in h && h[base + 1].pNode == Some(base) && base in h
    ensures !PathsOk(Renamed(h, base + 1, "e"), base)
  {
    var parts := ["", "d", "f"];
    DfParts();
    ChainIsTree("/d/f", parts, base, 3, h);
    ChainPathsOk("/d/f", parts, base, 3, h);
    assert h[base] == HomeNode("/d/f", parts, base, 3, base);
    assert h[base + 1] == HomeNode("/d/f", parts, base, 3, base + 1);
    RenameKeepsPathsIffLeaf(h, base, base + 3, base + 1, "e");
  }

  /** The home "/a/" plants its directories and flags none of them. */
  lemma {:induction false} TrailingSlashFlagsNone(base: Ref, h: Heap)
    requires HomeChain("/a/", Split("/a/"), base, ChainLength(Split("/a/"), 1), h)
    ensures base in h && forall r :: r in h ==> h[r].data.retrFlag != POP_NO_NEED_NO_DATA
  {
    var home := "/a/";
    assert home == "/a" + "/" + "" && "/a" == "" + "/" + "a";
    SplitAppend("", "a");
    SplitAppend("/a", "");
    assert Split(home)[2] == "";
    forall r | r in h
      ensures h[r].data.retrFlag != POP_NO_NEED_NO_DATA
    {
      HomeFlags(home, base, h, r);
    }
  }
}
