// The remote directory tree as a heap of nodes: the fields of NetDirNode, the links
// that tie parents to children, and what every reachable heap satisfies.

module NodeHeap {
  import opened Options

  // Retrieval flags (src/rfsdirnode.h:19-26).
  const POP_NO_NEED_NO_DATA := 0x01
  const POP_NO_NEED_WITH_DATA := 0x02
  const POP_WITH_NEED_WANT_UPDATE := 0x04
  const POP_UPDATING := 0x08
  const POP_NEWEST := 0x10

  // `onRow` is a C++ short, so rows 0..32767 are the ones it can hold.
  const ROW_LIMIT := 32768

  type Short = i: int | -ROW_LIMIT <= i < ROW_LIMIT

  /** Assigning an int to the `short` field `onRow`. */
  function ToShort(i: int): Short {
    (i + ROW_LIMIT) % 65536 - ROW_LIMIT
  }

  lemma {:induction false} FitsShort(i: int)
    requires 0 <= i < ROW_LIMIT
    ensures ToShort(i) == i
  {
  }

  // Nodes are addressed by allocation number; an address is never handed out twice.
  type Ref = nat

  datatype Attrib = Attrib(permissions: nat, filesize: nat, mtime: nat)

  /** The part of a node that `copyFrom` copies, apart from `onRow`. */
  datatype NodeData = NodeData(
    fullPath: string, fileName: string, linkToDir: bool,
    retrFlag: int, prevFlag: int, deleted: bool, attrib: Attrib)

  datatype NetDirNode = NetDirNode(data: NodeData, childNodes: map<int, Ref>, pNode: Option<Ref>, onRow: Short)

  type Heap = map<Ref, NetDirNode>

  /** A node as its constructor leaves it. */
  const FRESH_DATA := NodeData("", "", false, 0, 0xFF, false, Attrib(0, 0, 0))

  // ----- Shape -----

  /** The child hash is an array in disguise: its keys are exactly 0..n-1. */
  ghost predicate Dense(kids: map<int, Ref>) {
    forall r :: r in kids <==> 0 <= r < |kids|
  }

  function KidSeq(kids: map<int, Ref>): (s: seq<Ref>)
    requires Dense(kids)
    ensures |s| == |kids|
    ensures forall r :: 0 <= r < |s| ==> s[r] == kids[r]
  {
    seq(|kids|, r requires 0 <= r < |kids| => kids[r])
  }

  /** The children of `n` are dense, alive, younger than `n`, and point back to it. */
  ghost predicate NodeOk(h: Heap, n: Ref)
    requires n in h
  {
    && Dense(h[n].childNodes)
    && forall r :: r in h[n].childNodes ==>
         var k := h[n].childNodes[r];
         k in h && n < k && h[k].pNode == Some(n) && h[k].onRow == r
  }

  /** The parent of `n`, if any, is alive and holds `n` at the row `n` claims. */
  ghost predicate LinkOk(h: Heap, n: Ref)
    requires n in h
  {
    h[n].pNode.Some? ==>
      var p := h[n].pNode.value;
      p in h && p < n && h[n].onRow in h[p].childNodes && h[p].childNodes[h[n].onRow] == n
  }

  ghost predicate Shape(h: Heap) {
    forall n {:trigger NodeOk(h, n)} {:trigger LinkOk(h, n)} :: n in h ==> NodeOk(h, n) && LinkOk(h, n)
  }

  /** The whole heap is one tree rooted at `root`, all of it allocated below `next`. */
  ghost predicate Tree(h: Heap, root: Ref, next: Ref) {
    && root in h && h[root].pNode == None && h[root].onRow == 0
    && (forall n :: n in h && n != root ==> h[n].pNode.Some?)
    && (forall n :: n in h ==> n < next)
    && Shape(h)
  }

  ghost function Kids(h: Heap, p: Ref): (s: seq<Ref>)
    requires p in h && NodeOk(h, p)
  {
    KidSeq(h[p].childNodes)
  }

  // ----- Descendants -----

  /** `n` is `top` or a descendant of it, found by following parent pointers upwards. */
  ghost predicate Under(h: Heap, top: Ref, n: Ref)
    decreases n
  {
    n in h && (n == top ||
               (h[n].pNode.Some? && h[n].pNode.value < n && Under(h, top, h[n].pNode.value)))
  }

  ghost function Subtree(h: Heap, top: Ref): set<Ref> {
    set n | n in h && Under(h, top, n)
  }

  lemma {:induction false} UnderIsYounger(h: Heap, top: Ref, n: Ref)
    requires Under(h, top, n)
    ensures top in h && top <= n
    decreases n
  {
    if n != top {
      UnderIsYounger(h, top, h[n].pNode.value);
    }
  }

  /** Every proper descendant lies under exactly the child its ancestor chain passes through. */
  lemma {:induction false} UnderChild(h: Heap, top: Ref, n: Ref) returns (r: int)
    requires Shape(h) && Under(h, top, n) && n != top
    ensures top in h && r in h[top].childNodes && Under(h, h[top].childNodes[r], n)
    decreases n
  {
    UnderIsYounger(h, top, n);
    assert LinkOk(h, n);
    var p := h[n].pNode.value;
    if p == top {
      r := h[n].onRow;
    } else {
      r := UnderChild(h, top, p);
    }
  }

  lemma {:induction false} ChildUnder(h: Heap, top: Ref, kid: Ref, n: Ref)
    requires top in h && kid in h && h[kid].pNode == Some(top) && top < kid
    requires Under(h, kid, n)
    ensures Under(h, top, n) && n != top
    decreases n
  {
    UnderIsYounger(h, kid, n);
    if n != kid {
      ChildUnder(h, top, kid, h[n].pNode.value);
    } else {
      assert Under(h, top, top);
    }
  }

  /** No node is shared: subtrees of distinct siblings have nothing in common. */
  lemma {:induction false} SiblingsDisjoint(h: Heap, p: Ref, a: Ref, b: Ref, n: Ref)
    requires Shape(h) && a in h && b in h && a != b
    requires h[a].pNode == Some(p) && h[b].pNode == Some(p)
    ensures !(Under(h, a, n) && Under(h, b, n))
    decreases n
  {
    assert LinkOk(h, a) && LinkOk(h, b);
    if Under(h, a, n) && Under(h, b, n) {
      if n == a {
        UnderIsYounger(h, b, p);
      } else if n == b {
        UnderIsYounger(h, a, p);
      } else {
        SiblingsDisjoint(h, p, a, b, h[n].pNode.value);
      }
    }
  }

  /** Every node hangs below the root. */
  lemma {:induction false} AllUnderRoot(h: Heap, root: Ref, next: Ref, n: Ref)
    requires Tree(h, root, next) && n in h
    ensures Under(h, root, n)
    decreases n
  {
    assert LinkOk(h, n);
    if n != root {
      AllUnderRoot(h, root, next, h[n].pNode.value);
    }
  }

  /** Where two heaps agree on parent pointers they agree on ancestry. */
  lemma {:induction false} UnderFrame(h: Heap, h': Heap, top: Ref, n: Ref)
    requires Shape(h') && h'.Keys <= h.Keys && n in h'
    requires forall m :: m in h' ==> h'[m].pNode == h[m].pNode
    ensures Under(h', top, n) <==> Under(h, top, n)
    decreases n
  {
    assert LinkOk(h', n);
    if n != top && h'[n].pNode.Some? {
      UnderFrame(h, h', top, h'[n].pNode.value);
    }
  }

  // ----- Removing one row -----

  lemma {:induction false} DomainSize(n: nat, m: map<int, Ref>)
    requires forall r :: r in m <==> 0 <= r < n
    ensures |m| == n
  {
    if n == 0 {
      assert m == map[];
    } else {
      var m' := map r | r in m && r != n - 1 :: m[r];
      DomainSize(n - 1, m');
      assert m.Keys == m'.Keys + {n - 1};
      assert |m.Keys| == |m'.Keys| + 1;
    }
  }

  /** The dense hash that lists `s`. */
  function HashOf(s: seq<Ref>): (kids: map<int, Ref>)
    ensures Dense(kids) && KidSeq(kids) == s
  {
    var kids := map r | 0 <= r < |s| :: s[r];
    DomainSize(|s|, kids);
    kids
  }

  function WithoutRow(s: seq<Ref>, i: int): seq<Ref>
    requires 0 <= i < |s|
  {
    s[..i] + s[i + 1..]
  }

  /** Node `n` once row `i` of `p` is unhooked and its later siblings renumbered. */
  function Unhooked(h: Heap, p: Ref, i: int, n: Ref): NetDirNode
    requires p in h && n in h && Dense(h[p].childNodes) && 0 <= i < |h[p].childNodes|
  {
    if n == p then h[n].(childNodes := HashOf(WithoutRow(KidSeq(h[n].childNodes), i)))
    else if h[n].pNode == Some(p) && h[n].onRow > i then h[n].(onRow := h[n].onRow - 1)
    else h[n]
  }

  /** `h'` is `h` after `removeRows(i, 1, p)`: the subtree at row `i` is gone, the rest renumbered. */
  ghost predicate RowRemoved(h: Heap, p: Ref, i: int, h': Heap)
    requires p in h && NodeOk(h, p) && 0 <= i < |h[p].childNodes|
  {
    && h'.Keys == h.Keys - Subtree(h, h[p].childNodes[i])
    && forall n {:trigger Unhooked(h, p, i, n)} :: n in h' ==> h'[n] == Unhooked(h, p, i, n)
  }

  lemma {:induction false} UnhookedNodeOk(h: Heap, root: Ref, next: Ref, p: Ref, i: int, h': Heap, n: Ref)
    requires Tree(h, root, next) && p in h && NodeOk(h, p) && 0 <= i < |h[p].childNodes|
    requires RowRemoved(h, p, i, h') && n in h'
    ensures NodeOk(h', n)
  {
    var dead := h[p].childNodes[i];
    var kids, kids' := h[n].childNodes, h'[n].childNodes;
    assert NodeOk(h, n);
    assert h'[n] == Unhooked(h, p, i, n);
    forall r | r in kids'
      ensures kids'[r] in h' && n < kids'[r] && h'[kids'[r]].pNode == Some(n) && h'[kids'[r]].onRow == r
    {
      var r0 := if n == p && r >= i then r + 1 else r;
      var k := kids[r0];
      assert kids'[r] == k by {
        if n == p { assert KidSeq(kids')[r] == WithoutRow(KidSeq(kids), i)[r]; }
      }
      assert Under(h, dead, k) && k != dead ==> Under(h, dead, n);
      assert h'[k] == Unhooked(h, p, i, k);
    }
  }

  /** A sibling of the unhooked row is found in its new row. */
  lemma {:induction false} SiblingHooked(kids: map<int, Ref>, i: int, row: int)
    requires Dense(kids) && 0 <= i < |kids| && 0 <= row < |kids| && row != i
    ensures var kids' := HashOf(WithoutRow(KidSeq(kids), i)); var row' := if row > i then row - 1 else row;
      row' in kids' && kids'[row'] == kids[row]
  {
    var s := KidSeq(kids);
    var kids', row' := HashOf(WithoutRow(s, i)), if row > i then row - 1 else row;
    assert |KidSeq(kids')| == |kids'|;
    assert WithoutRow(s, i)[row'] == s[row];
    assert KidSeq(kids')[row'] == kids'[row'];
  }

  lemma {:induction false} UnhookedParent(h: Heap, root: Ref, next: Ref, p: Ref, i: int, h': Heap, n: Ref)
    requires Tree(h, root, next) && p in h && NodeOk(h, p) && 0 <= i < |h[p].childNodes|
    requires RowRemoved(h, p, i, h') && n in h' && h[n].pNode.Some?
    ensures var q := h[n].pNode.value;
      && q in h' && h'[q] == Unhooked(h, p, i, q)
      && (q == p ==> h[n].onRow != i)
  {
    var dead, q := h[p].childNodes[i], h[n].pNode.value;
    assert LinkOk(h, n);
    assert Under(h, dead, q) ==> Under(h, dead, n);
    assert q == p && h[n].onRow == i ==> Under(h, dead, n);
  }

  lemma {:induction false} UnhookedLinkOk(h: Heap, root: Ref, next: Ref, p: Ref, i: int, h': Heap, n: Ref)
    requires Tree(h, root, next) && p in h && NodeOk(h, p) && 0 <= i < |h[p].childNodes|
    requires RowRemoved(h, p, i, h') && n in h'
    ensures LinkOk(h', n)
  {
    assert h'[n] == Unhooked(h, p, i, n) && LinkOk(h, n);
    if h[n].pNode.Some? {
      UnhookedParent(h, root, next, p, i, h', n);
      if h[n].pNode.value == p {
        SiblingHooked(h[p].childNodes, i, h[n].onRow);
      }
    }
  }

  /** Removing a row frees that child's whole subtree and leaves a tree. */
  lemma {:induction false} RowRemovedIsTree(h: Heap, root: Ref, next: Ref, p: Ref, i: int, h': Heap)
    requires Tree(h, root, next) && p in h && NodeOk(h, p) && 0 <= i < |h[p].childNodes|
    requires RowRemoved(h, p, i, h')
    ensures Tree(h', root, next)
    ensures p in h' && Kids(h', p) == WithoutRow(Kids(h, p), i)
  {
    var dead := h[p].childNodes[i];
    assert NodeOk(h, p);
    if Under(h, dead, p) { UnderIsYounger(h, dead, p); }
    assert h'[root] == Unhooked(h, p, i, root) && h'[p] == Unhooked(h, p, i, p);
    forall n | n in h'
      ensures NodeOk(h', n) && LinkOk(h', n) && (n != root ==> h'[n].pNode.Some?)
    {
      assert h'[n] == Unhooked(h, p, i, n);
      UnhookedNodeOk(h, root, next, p, i, h', n);
      UnhookedLinkOk(h, root, next, p, i, h', n);
    }
  }

  // ----- Appending one row -----

  /** The heap after `insertRows(row, 1, p)` allocated node `k`. In front of the end this takes over the
      place of the child in that row instead of moving the children up. */
  function InsertedRow(h: Heap, p: Ref, row: int, k: Ref): Heap
    requires p in h
  {
    h[p := h[p].(childNodes := h[p].childNodes[row := k])][k := NetDirNode(FRESH_DATA, map[], Some(p), ToShort(row))]
  }

  /** The same at the end. */
  function AppendedRow(h: Heap, p: Ref, k: Ref): Heap
    requires p in h
  {
    InsertedRow(h, p, |h[p].childNodes|, k)
  }

  /** Appended, with the data of the new node filled in. */
  function AppendedNode(h: Heap, p: Ref, k: Ref, d: NodeData): Heap
    requires p in h
  {
    var g := AppendedRow(h, p, k);
    g[k := g[k].(data := d)]
  }

  lemma {:induction false} AppendedKids(kids: map<int, Ref>, k: Ref)
    requires Dense(kids)
    ensures var kids' := kids[|kids| := k];
      Dense(kids') && |kids'| == |kids| + 1 && KidSeq(kids') == KidSeq(kids) + [k]
  {
    var kids' := kids[|kids| := k];
    assert kids'.Keys == kids.Keys + {|kids|};
    assert |kids'| == |kids'.Keys| == |kids| + 1;
  }

  lemma {:induction false} AppendedNodeOk(h: Heap, root: Ref, next: Ref, p: Ref, m: Ref)
    requires Tree(h, root, next) && p in h && NodeOk(h, p) && |h[p].childNodes| < ROW_LIMIT
    requires m == next || m in h
    ensures NodeOk(AppendedRow(h, p, next), m)
  {
    AppendedKids(h[p].childNodes, next);
    if m != next {
      assert NodeOk(h, m);
    }
  }

  lemma {:induction false} AppendedLinkOk(h: Heap, root: Ref, next: Ref, p: Ref, m: Ref)
    requires Tree(h, root, next) && p in h && NodeOk(h, p) && |h[p].childNodes| < ROW_LIMIT
    requires m == next || m in h
    ensures LinkOk(AppendedRow(h, p, next), m)
  {
    AppendedKids(h[p].childNodes, next);
    if m != next {
      assert LinkOk(h, m);
    }
  }

  lemma {:induction false} AppendedFits(h: Heap, root: Ref, next: Ref, p: Ref)
    requires Tree(h, root, next) && p in h && NodeOk(h, p) && |h[p].childNodes| < ROW_LIMIT
    ensures Tree(AppendedRow(h, p, next), root, next + 1)
  {
    var h' := AppendedRow(h, p, next);
    forall m | m in h'
      ensures NodeOk(h', m) && LinkOk(h', m)
    {
      AppendedNodeOk(h, root, next, p, m);
      AppendedLinkOk(h, root, next, p, m);
    }
  }

  /** Appending keeps the tree exactly as long as the new row number fits a short. */
  lemma {:induction false} AppendedRowIsTree(h: Heap, root: Ref, next: Ref, p: Ref)
    requires Tree(h, root, next) && p in h && NodeOk(h, p)
    ensures Tree(AppendedRow(h, p, next), root, next + 1) <==> |h[p].childNodes| < 32768
    ensures var h' := AppendedRow(h, p, next);
      Dense(h'[p].childNodes) && KidSeq(h'[p].childNodes) == KidSeq(h[p].childNodes) + [next]
  {
    var h', n := AppendedRow(h, p, next), |h[p].childNodes|;
    AppendedKids(h[p].childNodes, next);
    if n < ROW_LIMIT {
      AppendedFits(h, root, next, p);
    } else {
      assert h'[p].childNodes[n] == next && h'[next].onRow != n;
      assert !NodeOk(h', p);
    }
  }

  /** Inserting keeps the tree exactly at the end, and there only while the row fits a short. */
  lemma {:induction false} InsertedRowIsTreeIff(h: Heap, root: Ref, next: Ref, p: Ref, row: int)
    requires Tree(h, root, next) && p in h && NodeOk(h, p) && 0 <= row <= |h[p].childNodes|
    ensures Tree(InsertedRow(h, p, row, next), root, next + 1) <==> row == |h[p].childNodes| && row < 32768
  {
    if row == |h[p].childNodes| {
      AppendedRowIsTree(h, root, next, p);
    } else {
      var h', k := InsertedRow(h, p, row, next), h[p].childNodes[row];
      assert h'[k] == h[k] && h'[p].childNodes[row] == next;
      assert !LinkOk(h', k);
    }
  }

  // ----- Overwriting the data of one node -----

  /** Links do not depend on node data. */
  lemma {:induction false} DataIsTree(h: Heap, root: Ref, next: Ref, n: Ref, d: NodeData)
    requires Tree(h, root, next) && n in h
    ensures Tree(h[n := h[n].(data := d)], root, next)
  {
    var h' := h[n := h[n].(data := d)];
    forall m | m in h'
      ensures NodeOk(h', m) && LinkOk(h', m)
    {
      assert NodeOk(h, m) && LinkOk(h, m);
    }
  }

  // ----- Asking the retriever -----

  predicate WantsFetch(flag: int) {
    flag == POP_NO_NEED_NO_DATA || flag == POP_WITH_NEED_WANT_UPDATE
  }

  /** The flags `add_node` leaves behind. */
  function Updating(d: NodeData): NodeData {
    d.(prevFlag := d.retrFlag, retrFlag := POP_UPDATING)
  }

  /** The heap after `rowCount(p)`, which asks for the children of a node not fetched yet. */
  function Asked(h: Heap, p: Ref): Heap
    requires p in h
  {
    if WantsFetch(h[p].data.retrFlag) then h[p := h[p].(data := Updating(h[p].data))] else h
  }

  /** Asking queues nothing for a directory already fetched, being fetched or not to be fetched on sight; the
      other two flags become 0x08, and the old one is remembered. */
  lemma {:induction false} AskedFlags(h: Heap, p: Ref)
    requires p in h
    ensures var d := h[p].data;
      Asked(h, p) == if d.retrFlag == 0x01 || d.retrFlag == 0x04
                     then h[p := h[p].(data := d.(prevFlag := d.retrFlag, retrFlag := 0x08))] else h
  {
  }
}
