// The tree model: the operations of RemoteDirModel on the node heap.

module RemoteDirModels {
  import opened Options
  import opened NodeHeap
  import opened Reconciling
  import opened ReconcileFacts
  import opened Paths
  import opened HomePath

  /** The row search of the second loop finds a name exactly when it was kept or already appended. */
  lemma {:induction false} SearchMeaning(h1: Heap, next: Ref, p: Ref, listing: Listing, i: int, h: Heap)
    requires p in h1 && NodeOk(h1, p) && 0 <= i < |listing|
    requires (forall n :: n in h1 ==> n < next) && Extended(h1, next, p, listing, i, h) && Holding(h, p)
    ensures var have := NamesOf(h1, Kids(h1, p)); var name := listing[i].fileName;
      (exists r :: r in h[p].childNodes && h[h[p].childNodes[r]].data.fileName == name)
        <==> name in have || name in EntryNames(NewEntries(listing[..i], have))
  {
    var have, name := NamesOf(h1, Kids(h1, p)), listing[i].fileName;
    if r :| r in h[p].childNodes && h[h[p].childNodes[r]].data.fileName == name {
      RowNameTaken(h1, next, p, listing, i, h, r);
    }
    if name in have || name in EntryNames(NewEntries(listing[..i], have)) {
      var r := TakenNameHasRow(h1, next, p, listing, i, h, name);
    }
  }

  /** Searches the listing backwards, as the first loop of the slot does. */
  method FindLast(listing: Listing, name: string) returns (j: int)
    ensures j == LastIndex(listing, name)
  {
    j := |listing| - 1;
    assert listing[..|listing|] == listing;
    while j >= 0
      invariant -1 <= j < |listing| && LastIndex(listing, name) == LastIndex(listing[..j + 1], name)
    {
      if listing[j].fileName == name {
        return;
      }
      assert listing[..j + 1][..j] == listing[..j];
      j := j - 1;
    }
  }

  // ----- What the destructor frees -----

  ghost predicate Without(h: Heap, gone: set<Ref>, h': Heap) {
    h'.Keys == h.Keys - gone && forall m :: m in h' ==> h'[m] == h[m]
  }

  /** The part of `h` below `n` is still allocated and linked as in `g`. */
  ghost predicate Intact(g: Heap, n: Ref, h: Heap) {
    Subtree(g, n) <= h.Keys && forall m :: m in Subtree(g, n) ==> h[m].childNodes == g[m].childNodes
  }

  ghost function Freed(g: Heap, kids: map<int, Ref>, i: int): set<Ref> {
    set m | m in g && exists r :: i <= r && r in kids && Under(g, kids[r], m)
  }

  lemma {:induction false} FreedStep(g: Heap, n: Ref, i: int)
    requires Shape(g) && n in g && i in g[n].childNodes
    ensures var kids := g[n].childNodes;
      && Freed(g, kids, i) == Freed(g, kids, i + 1) + Subtree(g, kids[i])
      && Freed(g, kids, i + 1) !! Subtree(g, kids[i])
      && Subtree(g, kids[i]) <= Subtree(g, n)
  {
    var kids := g[n].childNodes;
    assert NodeOk(g, n);
    forall m | Under(g, kids[i], m)
      ensures m !in Freed(g, kids, i + 1) && Under(g, n, m)
    {
      ChildUnder(g, n, kids[i], m);
      forall r | i + 1 <= r && r in kids
        ensures !Under(g, kids[r], m)
      {
        SiblingsDisjoint(g, n, kids[i], kids[r], m);
      }
    }
  }

  lemma {:induction false} SubtreeIsFreed(g: Heap, n: Ref)
    requires Shape(g) && n in g
    ensures Subtree(g, n) == Freed(g, g[n].childNodes, 0) + {n}
    ensures n !in Freed(g, g[n].childNodes, 0)
  {
    var kids := g[n].childNodes;
    assert NodeOk(g, n);
    forall m | m in g
      ensures m in Subtree(g, n) <==> m in Freed(g, kids, 0) || m == n
      ensures m in Freed(g, kids, 0) ==> m != n
    {
      if Under(g, n, m) && m != n {
        var r := UnderChild(g, n, m);
      }
      forall r | r in kids && Under(g, kids[r], m)
        ensures Under(g, n, m) && m != n
      {
        ChildUnder(g, n, kids[r], m);
      }
    }
  }

  // ----- The renumbering loop of removeRows -----

  /** Node `n` once the siblings in rows i+1..j-1 have moved down by one. */
  function Renumbered(h: Heap, p: Ref, i: int, j: int, n: Ref): NetDirNode
    requires n in h && 0 <= i
  {
    if h[n].pNode == Some(p) && i < h[n].onRow < j then h[n].(onRow := h[n].onRow - 1) else h[n]
  }

  ghost predicate Shifted(h0: Heap, p: Ref, i: int, j: int, h: Heap)
    requires p in h0 && NodeOk(h0, p) && 0 <= i < j <= |h0[p].childNodes|
  {
    && h.Keys == h0.Keys
    && (forall n {:trigger Renumbered(h0, p, i, j, n)} :: n in h0 && n != p ==> h[n] == Renumbered(h0, p, i, j, n))
    && h[p] == h0[p].(childNodes := h[p].childNodes)
    && Dense(h[p].childNodes)
    && var s := Kids(h0, p);
       KidSeq(h[p].childNodes) == s[..i] + s[i + 1..j] + s[j - 1..]
  }

  lemma {:induction false} ShiftStart(h0: Heap, p: Ref, i: int)
    requires Shape(h0) && p in h0 && NodeOk(h0, p) && 0 <= i < |h0[p].childNodes|
    ensures Shifted(h0, p, i, i + 1, h0)
  {
    var s := Kids(h0, p);
    assert s == s[..i] + s[i + 1..i + 1] + s[i..];
  }

  lemma {:induction false} ShiftKids(kids: map<int, Ref>, s: seq<Ref>, i: int, j: int)
    requires Dense(kids) && 0 <= i < j < |s| && KidSeq(kids) == s[..i] + s[i + 1..j] + s[j - 1..]
    ensures j in kids && kids[j] == s[j]
    ensures var kids' := kids[j - 1 := s[j]]; Dense(kids') && KidSeq(kids') == s[..i] + s[i + 1..j + 1] + s[j..]
  {
    assert KidSeq(kids)[j] == s[j];
    var kids' := kids[j - 1 := s[j]];
    assert kids'.Keys == kids.Keys;
    assert |kids'| == |kids'.Keys| == |kids|;
    assert KidSeq(kids') == KidSeq(kids)[j - 1 := s[j]];
  }

  lemma {:induction false} ShiftNode(h0: Heap, p: Ref, i: int, j: int, h: Heap, n: Ref)
    requires Shape(h0) && p in h0 && NodeOk(h0, p) && 0 <= i < j < |h0[p].childNodes|
    requires Shifted(h0, p, i, j, h) && n in h0 && n != p
    ensures h0[p].childNodes[j] in h
    ensures var t := h0[p].childNodes[j];
      h[t := h[t].(onRow := ToShort(j - 1))][n] == Renumbered(h0, p, i, j + 1, n)
  {
    assert h[n] == Renumbered(h0, p, i, j, n);
    assert LinkOk(h0, n);
  }

  lemma {:induction false} ShiftNodes(h0: Heap, p: Ref, i: int, j: int, h: Heap)
    requires Shape(h0) && p in h0 && NodeOk(h0, p) && 0 <= i < j < |h0[p].childNodes|
    requires Shifted(h0, p, i, j, h)
    ensures h0[p].childNodes[j] in h
    ensures var t := h0[p].childNodes[j];
      var h1 := h[t := h[t].(onRow := ToShort(j - 1))];
      forall n {:trigger Renumbered(h0, p, i, j + 1, n)} :: n in h0 && n != p ==>
        h1[n] == Renumbered(h0, p, i, j + 1, n)
  {
    var t := h0[p].childNodes[j];
    forall n | n in h0 && n != p
      ensures h[t := h[t].(onRow := ToShort(j - 1))][n] == Renumbered(h0, p, i, j + 1, n)
    {
      ShiftNode(h0, p, i, j, h, n);
    }
  }

  lemma {:induction false} ShiftStep(h0: Heap, p: Ref, i: int, j: int, h: Heap)
    requires Shape(h0) && p in h0 && NodeOk(h0, p) && 0 <= i < j < |h0[p].childNodes|
    requires Shifted(h0, p, i, j, h)
    ensures j in h[p].childNodes && h[p].childNodes[j] in h
    ensures var t := h[p].childNodes[j];
      var h1 := h[t := h[t].(onRow := ToShort(j - 1))];
      Shifted(h0, p, i, j + 1, h1[p := h1[p].(childNodes := h1[p].childNodes[j - 1 := t])])
  {
    var t := h0[p].childNodes[j];
    ShiftKids(h[p].childNodes, Kids(h0, p), i, j);
    assert t != p by { assert NodeOk(h0, p); }
    ShiftNodes(h0, p, i, j, h);
  }

  lemma {:induction false} DropLastRow(kids: map<int, Ref>, s: seq<Ref>, i: int)
    requires Dense(kids) && 0 <= i < |s|
    requires KidSeq(kids) == s[..i] + s[i + 1..|s|] + s[|s| - 1..]
    ensures kids - {|s| - 1} == HashOf(WithoutRow(s, i))
  {
    var want, kids' := HashOf(WithoutRow(s, i)), kids - {|s| - 1};
    assert |want| == |KidSeq(want)| == |s| - 1;
    assert |kids| == |KidSeq(kids)| == |s|;
    forall r | 0 <= r < |s| - 1
      ensures kids'[r] == want[r]
    {
      assert kids[r] == KidSeq(kids)[r] == WithoutRow(s, i)[r] == KidSeq(want)[r];
    }
    assert kids'.Keys == want.Keys;
  }

  lemma {:induction false} ShiftEnd(h0: Heap, p: Ref, i: int, h: Heap)
    requires Shape(h0) && p in h0 && NodeOk(h0, p) && 0 <= i < |h0[p].childNodes|
    requires Shifted(h0, p, i, |h0[p].childNodes|, h)
    ensures p in h
    ensures var h' := h[p := h[p].(childNodes := h[p].childNodes - {|h0[p].childNodes| - 1})];
      h'.Keys == h0.Keys && forall n {:trigger Unhooked(h0, p, i, n)} :: n in h0 ==> h'[n] == Unhooked(h0, p, i, n)
  {
    var count := |h0[p].childNodes|;
    DropLastRow(h[p].childNodes, Kids(h0, p), i);
    forall n | n in h0 && n != p
      ensures h[n] == Unhooked(h0, p, i, n)
    {
      assert h[n] == Renumbered(h0, p, i, count, n);
      assert LinkOk(h0, n);
    }
  }

  lemma {:induction false} ShiftIntact(h0: Heap, p: Ref, i: int, h: Heap)
    requires Shape(h0) && p in h0 && NodeOk(h0, p) && 0 <= i < |h0[p].childNodes|
    requires h.Keys == h0.Keys
    requires forall n {:trigger Unhooked(h0, p, i, n)} :: n in h0 ==> h[n] == Unhooked(h0, p, i, n)
    ensures Intact(h0, h0[p].childNodes[i], h)
  {
    var dead := h0[p].childNodes[i];
    forall m | m in Subtree(h0, dead)
      ensures h[m].childNodes == h0[m].childNodes
    {
      UnderIsYounger(h0, dead, m);
      assert h[m] == Unhooked(h0, p, i, m);
    }
  }

  lemma {:induction false} ShiftThenDestroy(h0: Heap, p: Ref, i: int, h1: Heap, h: Heap)
    requires Shape(h0) && p in h0 && NodeOk(h0, p) && 0 <= i < |h0[p].childNodes|
    requires h1.Keys == h0.Keys
    requires forall n {:trigger Unhooked(h0, p, i, n)} :: n in h0 ==> h1[n] == Unhooked(h0, p, i, n)
    requires Without(h1, Subtree(h0, h0[p].childNodes[i]), h)
    ensures RowRemoved(h0, p, i, h)
  {
  }

  // ----- The model -----

  class RemoteDirModel {
    var heap: Heap
    var rootNode: Option<Ref>
    var nextRef: Ref
    var fetches: seq<Ref>  // nodes handed to the retriever by add_node, oldest first

    ghost predicate Valid()
      reads this
    {
      rootNode.Some? && Tree(heap, rootNode.value, nextRef)
    }

    constructor ()
      ensures heap == map[] && rootNode == None && fetches == []
    {
      heap, rootNode, nextRef, fetches := map[], None, 0, [];
    }

    /** `delete n`: frees the children from the last row to the first, then the node itself. */
    method Destroy(n: Ref, ghost g: Heap)
      requires Shape(g) && n in g
      requires forall m :: m in g ==> m < nextRef
      requires Intact(g, n, heap)
      modifies this`heap
      ensures Without(old(heap), Subtree(g, n), heap)
      decreases nextRef - n
    {
      SubtreeIsFreed(g, n);
      assert NodeOk(g, n);
      var kids := heap[n].childNodes;
      var i := |kids|;
      while i > 0
        invariant 0 <= i <= |kids|
        invariant Without(old(heap), Freed(g, kids, i), heap)
      {
        i := i - 1;
        assert i in kids;
        FreedStep(g, n, i);
        Destroy(kids[i], g);
      }
      heap := heap - {n};
    }

    /** One turn of the loop of `removeRows`: unhook row `i` of `p`, renumber, delete. */
    method RemoveRow(i: int, p: Ref)
      requires Valid() && p in heap && NodeOk(heap, p) && 0 <= i < |heap[p].childNodes|
      modifies this`heap
      ensures Valid()
      ensures RowRemoved(old(heap), p, i, heap)
      ensures p in heap && Kids(heap, p) == WithoutRow(old(Kids(heap, p)), i)
    {
      ghost var h0 := heap;
      var deleteItem := heap[p].childNodes[i];
      var count := |heap[p].childNodes|;
      ShiftStart(h0, p, i);
      for j := i + 1 to count
        invariant p in heap && Shifted(h0, p, i, j, heap)
      {
        ShiftStep(h0, p, i, j, heap);
        var tempItem := heap[p].childNodes[j];
        heap := heap[tempItem := heap[tempItem].(onRow := ToShort(j - 1))];
        heap := heap[p := heap[p].(childNodes := heap[p].childNodes[j - 1 := tempItem])];
      }
      ShiftEnd(h0, p, i, heap);
      heap := heap[p := heap[p].(childNodes := heap[p].childNodes - {count - 1})];
      ghost var h1 := heap;
      ShiftIntact(h0, p, i, h1);
      Destroy(deleteItem, h0);
      ShiftThenDestroy(h0, p, i, h1, heap);
      RowRemovedIsTree(h0, rootNode.value, nextRef, p, i, heap);
    }

    /** `insertRows(row, 1, p)`. Its callers only append; in front of the end a child loses its place. */
    method InsertRow(row: int, p: Ref)
      requires p in heap && 0 <= row <= |heap[p].childNodes| && nextRef !in heap
      requires Valid() || row == |heap[p].childNodes|
      modifies this`heap, this`nextRef
      ensures heap == InsertedRow(old(heap), p, row, old(nextRef)) && nextRef == old(nextRef) + 1
      ensures old(Valid()) ==> (Valid() <==> row == |old(heap)[p].childNodes| && row < 32768)
    {
      if Valid() {
        assert NodeOk(heap, p);
        InsertedRowIsTreeIff(heap, rootNode.value, nextRef, p, row);
      }
      ghost var h0 := heap;
      var node := nextRef;
      nextRef := nextRef + 1;
      if row < |heap[p].childNodes| {
        var moved := heap[p].childNodes[row];
        FitsShort(row);
        heap := heap[moved := heap[moved].(onRow := ToShort(row))];
        assert heap == h0;
      }
      heap := heap[node := NetDirNode(FRESH_DATA, map[], Some(p), ToShort(row))];
      heap := heap[p := heap[p].(childNodes := heap[p].childNodes[row := node])];
      assert heap == InsertedRow(h0, p, row, node);
    }

    /** `setData` with a node: everything is copied over except the row and the links. */
    method SetNode(n: Ref, value: NodeData, valueRow: Short)
      requires n in heap
      modifies this`heap
      ensures heap == old(heap)[n := old(heap)[n].(data := value)] && (old(Valid()) ==> Valid())
    {
      if Valid() {
        DataIsTree(heap, rootNode.value, nextRef, n, value);
      }
      var oldOnRow := heap[n].onRow;
      heap := heap[n := heap[n].(data := value, onRow := valueRow)];
      heap := heap[n := heap[n].(onRow := oldOnRow)];
      assert heap == old(heap)[n := old(heap)[n].(data := value)];
    }

    method AppendNode(row: int, p: Ref, value: NodeData)
      requires p in heap && Dense(heap[p].childNodes) && row == |heap[p].childNodes|
      requires forall n :: n in heap ==> n < nextRef
      modifies this`heap, this`nextRef
      ensures nextRef == old(nextRef) + 1 && heap == AppendedNode(old(heap), p, old(nextRef), value)
      ensures p in heap && Dense(heap[p].childNodes)
      ensures KidSeq(heap[p].childNodes) == KidSeq(old(heap[p].childNodes)) + [old(nextRef)]
      ensures old(Valid()) && row < ROW_LIMIT ==> Valid()
    {
      AppendedKids(heap[p].childNodes, nextRef);
      InsertRow(row, p);
      SetNode(nextRef - 1, value, ToShort(row));
    }

    /** `insertRows` under the invalid index plants the root; `setData` then fills it in. */
    method PlantRoot(value: NodeData)
      requires heap == map[]
      modifies this`heap, this`nextRef, this`rootNode
      ensures rootNode == Some(old(nextRef)) && nextRef == old(nextRef) + 1
      ensures heap == map[old(nextRef) := NetDirNode(value, map[], None, 0)]
    {
      var node := nextRef;
      nextRef := nextRef + 1;
      heap := heap[node := NetDirNode(FRESH_DATA, map[], None, 0)];
      rootNode := Some(node);
      heap := heap[node := heap[node].(data := value)];
    }

    /** One more directory at the end of the chain. */
    method PlantNext(home: string, parts: seq<string>, i: int, fullPath: string, ghost base: Ref)
      requires 1 <= i < |parts| && rootNode == Some(base) && nextRef == base + i
      requires HomeChain(home, parts, base, i, heap) && fullPath == ChainPath(parts, i)
      modifies this`heap, this`nextRef
      ensures nextRef == base + i + 1 && HomeChain(home, parts, base, i + 1, heap)
    {
      ChainIsTree(home, parts, base, i, heap);
      ghost var h := heap;
      var p := nextRef - 1;
      assert h[p] == HomeNode(home, parts, base, i, p) && NodeOk(h, p);
      var flag := if home == "/" || i == |parts| - 1 then POP_NO_NEED_NO_DATA else POP_NO_NEED_WITH_DATA;
      AppendNode(0, p, NodeData(fullPath, parts[i], false, flag, 0xFF, false, Attrib(16877, 0, 0)));
      ChainGrows(home, parts, base, i, h, heap);
    }

    /** `set_user_home_path` on a new model. */
    method SetUserHomePath(home: string)
      requires heap == map[] && home != "" && home[0] == '/'
      modifies this`heap, this`nextRef, this`rootNode
      ensures Valid() && rootNode == Some(old(nextRef))
      ensures HomeChain(home, Split(home), old(nextRef), ChainLength(Split(home), 1), heap)
    {
      var parts := Split(home);
      ghost var base := nextRef;
      PlantRoot(HomeData(home, parts, 0));
      var fullPath := "";
      var i := 1;
      while i < |parts| && parts[i] != ""
        invariant 1 <= i <= |parts| && rootNode == Some(base) && nextRef == base + i
        invariant fullPath == ChainPath(parts, i - 1)
        invariant ChainLength(parts, i) == ChainLength(parts, 1)
        invariant HomeChain(home, parts, base, i, heap)
      {
        fullPath := fullPath + "/" + parts[i];
        PlantNext(home, parts, i, fullPath, base);
        i := i + 1;
      }
      ChainIsTree(home, parts, base, i, heap);
    }

    /** `add_node` as called from the model. */
    method AddNode(n: Ref)
      requires n in heap
      modifies this`heap, this`fetches
      ensures old(Valid()) ==> Valid()
      ensures var d := old(heap)[n].data;
        heap == old(heap)[n := old(heap)[n].(data := d.(prevFlag := d.retrFlag, retrFlag := 0x08))]
      ensures fetches == old(fetches) + [n]
    {
      if Valid() {
        DataIsTree(heap, rootNode.value, nextRef, n, Updating(heap[n].data));
      }
      heap := heap[n := heap[n].(data := heap[n].data.(prevFlag := heap[n].data.retrFlag))];
      heap := heap[n := heap[n].(data := heap[n].data.(retrFlag := POP_UPDATING))];
      assert heap == old(heap)[n := old(heap)[n].(data := Updating(old(heap)[n].data))];
      fetches := fetches + [n];
    }

    method RowCount(p: Ref) returns (count: int)
      requires p in heap
      modifies this`heap, this`fetches
      ensures old(Valid()) ==> Valid()
      ensures heap == Asked(old(heap), p) && count == |heap[p].childNodes|
      ensures var d := old(heap)[p].data;
        if d.retrFlag == 0x01 || d.retrFlag == 0x04 then
          && heap == old(heap)[p := old(heap)[p].(data := d.(prevFlag := d.retrFlag, retrFlag := 0x08))]
          && fetches == old(fetches) + [p]
        else heap == old(heap) && fetches == old(fetches)
      ensures p in heap && heap[p].childNodes == old(heap)[p].childNodes && !WantsFetch(heap[p].data.retrFlag)
    {
      if heap[p].data.retrFlag == POP_NO_NEED_NO_DATA || heap[p].data.retrFlag == POP_WITH_NEED_WANT_UPDATE {
        AddNode(p);
      }
      count := |heap[p].childNodes|;
    }

    /** First row of `p` bearing `name`, searched from the top. */
    method FindRow(p: Ref, name: string) returns (found: bool)
      requires p in heap && Holding(heap, p)
      ensures found <==> exists r :: r in heap[p].childNodes && heap[heap[p].childNodes[r]].data.fileName == name
    {
      found := false;
      var row := |heap[p].childNodes|;
      for j := 0 to row
        invariant forall r :: 0 <= r < j ==>
          r in heap[p].childNodes && heap[heap[p].childNodes[r]].data.fileName != name
      {
        var node := heap[p].childNodes[j];
        if heap[node].data.fileName == name {
          return true;
        }
      }
    }

    /** One turn of the first loop of the slot: delete or refresh row `i`. */
    method PruneRow(i: int, p: Ref, listing: Listing, ghost h0: Heap)
      requires Valid() && Shape(h0) && p in h0 && NodeOk(h0, p) && 0 <= i < |h0[p].childNodes|
      requires Pruned(h0, p, listing, i + 1, heap)
      modifies this`heap
      ensures Valid() && Pruned(h0, p, listing, i, heap)
    {
      RowUntouched(h0, p, listing, i, heap);
      var node := heap[p].childNodes[i];
      var j := FindLast(listing, heap[node].data.fileName);
      ghost var h := heap;
      if j < 0 {
        RemoveRow(i, p);
        PruneByRemoving(h0, p, listing, i, h, heap);
      } else {
        SetNode(node, listing[j], -1);
        PruneByUpdating(h0, p, listing, i, h, heap);
      }
    }

    /** The entry has no row yet: `insertRows` and `setData` make it one. */
    method AppendFresh(row: int, i: int, p: Ref, listing: Listing, ghost h1: Heap, ghost next: Ref)
      requires p in h1 && NodeOk(h1, p) && 0 <= i < |listing|
      requires (forall n :: n in h1 ==> n < next) && Extended(h1, next, p, listing, i, heap)
      requires row == |heap[p].childNodes|
      requires var have := NamesOf(h1, Kids(h1, p)); var added := NewEntries(listing[..i], have);
        nextRef == next + |added| && listing[i].fileName !in have && listing[i].fileName !in EntryNames(added)
      modifies this`heap, this`nextRef
      ensures Extended(h1, next, p, listing, i + 1, heap) && nextRef == old(nextRef) + 1
    {
      ghost var h := heap;
      AppendNode(row, p, listing[i]);
      ExtendByAppending(h1, next, p, listing, i, h, heap);
    }

    /** One turn of the second loop of the slot: append entry `i` unless its name has a row. */
    method AppendEntry(i: int, p: Ref, listing: Listing, ghost h1: Heap, ghost next: Ref)
      requires p in h1 && NodeOk(h1, p) && 0 <= i < |listing|
      requires (forall n :: n in h1 ==> n < next) && Extended(h1, next, p, listing, i, heap)
      requires nextRef == next + |NewEntries(listing[..i], NamesOf(h1, Kids(h1, p)))|
      requires !WantsFetch(h1[p].data.retrFlag)
      modifies this`heap, this`nextRef, this`fetches
      ensures fetches == old(fetches) && Extended(h1, next, p, listing, i + 1, heap)
      ensures nextRef == next + |NewEntries(listing[..i + 1], NamesOf(h1, Kids(h1, p)))|
    {
      assert listing[..i + 1][..i] == listing[..i];
      ghost var h := heap;
      ExtendedHolding(h1, next, p, listing, i, h);
      var row := RowCount(p);
      var found := FindRow(p, listing[i].fileName);
      SearchMeaning(h1, next, p, listing, i, h);
      if found {
        ExtendBySkipping(h1, next, p, listing, i, h);
      } else {
        AppendFresh(row, i, p, listing, h1, next);
      }
    }

    /** The first loop of the slot. */
    method PruneRows(p: Ref, listing: Listing, count: int)
      requires Valid() && p in heap && NodeOk(heap, p) && count == |heap[p].childNodes|
      modifies this`heap
      ensures Valid() && Pruned(old(heap), p, listing, 0, heap)
    {
      ghost var h0 := heap;
      var i := count;
      PrunedStart(h0, p, listing);
      while i > 0
        invariant Valid()
        invariant 0 <= i <= |h0[p].childNodes| && Pruned(h0, p, listing, i, heap)
      {
        i := i - 1;
        PruneRow(i, p, listing, h0);
      }
    }

    /** The second loop of the slot. */
    method AppendEntries(p: Ref, listing: Listing)
      requires p in heap && NodeOk(heap, p) && !WantsFetch(heap[p].data.retrFlag)
      requires forall n :: n in heap ==> n < nextRef
      modifies this`heap, this`nextRef, this`fetches
      ensures fetches == old(fetches) && Extended(old(heap), old(nextRef), p, listing, |listing|, heap)
      ensures nextRef == old(nextRef) + |NewEntries(listing, NamesOf(old(heap), Kids(old(heap), p)))|
    {
      ghost var h1, next := heap, nextRef;
      ExtendedStart(h1, next, p, listing);
      var i := 0;
      assert listing[..0] == [];
      while i < |listing|
        invariant 0 <= i <= |listing| && fetches == old(fetches) && Extended(h1, next, p, listing, i, heap)
        invariant nextRef == next + |NewEntries(listing[..i], NamesOf(h1, Kids(h1, p)))|
      {
        AppendEntry(i, p, listing, h1, next);
        i := i + 1;
      }
      assert listing[..i] == listing;
    }

    method MarkNewest(p: Ref)
      requires p in heap
      modifies this`heap
      ensures heap == old(heap)[p := old(heap)[p].(data :=
                old(heap)[p].data.(prevFlag := old(heap)[p].data.retrFlag, retrFlag := POP_NEWEST))]
    {
      heap := heap[p := heap[p].(data := heap[p].data.(prevFlag := heap[p].data.retrFlag))];
      heap := heap[p := heap[p].(data := heap[p].data.(retrFlag := POP_NEWEST))];
      ghost var d := old(heap)[p].data.(prevFlag := old(heap)[p].data.retrFlag, retrFlag := POP_NEWEST);
      assert heap == old(heap)[p := old(heap)[p].(data := d)];
    }

    /** `slot_remote_dir_node_retrived`: bring the children of `p` in line with the listing. What comes out
        is a tree again exactly as long as the rows fit a short. */
    method Reconcile(p: Ref, listing: Listing)
      requires Valid() && p in heap && NodeOk(Asked(heap, p), p)
      modifies this`heap, this`nextRef, this`fetches
      ensures Reconciled(Asked(old(heap), p), old(nextRef), p, listing, heap)
      ensures nextRef == old(nextRef) + |Added(Asked(old(heap), p), p, listing)|
      ensures p in heap && heap[p].data.retrFlag == 0x10
      ensures var flag := old(heap)[p].data.retrFlag;
        fetches == if flag == 0x01 || flag == 0x04 then old(fetches) + [p] else old(fetches)
      ensures Valid() <==> RowsAfter(Asked(old(heap), p), p, listing) <= 32768
    {
      var count := RowCount(p);
      ghost var h0, next := heap, nextRef;
      PruneRows(p, listing, count);
      ghost var h1 := heap;
      PrunedNames(h0, rootNode.value, next, p, listing, h1);
      AppendEntries(p, listing);
      ghost var h2 := heap;
      MarkNewest(p);
      PassesReconcile(h0, rootNode.value, next, p, listing, h1, h2, heap);
      ReconciledIsTreeIff(h0, rootNode.value, next, p, listing, heap);
    }
  }

  // ----- The first look at a new model -----

  ghost predicate NoEmptyPart(home: string) {
    forall i :: 1 <= i < |Split(home)| ==> Split(home)[i] != ""
  }

  /** The directories that setting the home path flags for fetching. */
  ghost function Flagged(home: string, base: Ref): seq<Ref> {
    if home == "/" then [base]
    else if NoEmptyPart(home) then [base + |Split(home)| - 1] else []
  }

  lemma {:induction false} FlaggedIff(home: string, base: Ref, h: Heap, r: Ref)
    requires home != "" && home[0] == '/'
    requires HomeChain(home, Split(home), base, ChainLength(Split(home), 1), h) && r in h
    ensures (h[r].data.retrFlag == 0x01 <==> r in Flagged(home, base)) && h[r].data.retrFlag != 0x04
  {
    HomeFlags(home, base, h, r);
  }

  /** The one directory flagged for a home without empty parts is the home itself. */
  lemma {:induction false} FlaggedIsHome(home: string, base: Ref, h: Heap)
    requires home != "" && home[0] == '/' && home != "/" && NoEmptyPart(home)
    requires HomeChain(home, Split(home), base, ChainLength(Split(home), 1), h)
    ensures var last := base + |Split(home)| - 1; last in h && h[last].data.fullPath == home
  {
    assert ChainLength(Split(home), 1) == |Split(home)|;
    HomeIsFound(home, base, h);
  }

  /** Showing a new model: the view asks every planted directory for its rows. Only the home itself is then
      read from the server; for "/" that is the root, and with an empty part in the home there is none. */
  method ShowHome(m: RemoteDirModel, home: string)
    requires m.heap == map[] && m.fetches == [] && home != "" && home[0] == '/'
    modifies m
    ensures m.rootNode.Some?
    ensures home == "/" ==> m.fetches == [m.rootNode.value]
    ensures home != "/" && (exists i :: 1 <= i < |Split(home)| && Split(home)[i] == "") ==> m.fetches == []
    ensures home != "/" && (forall i :: 1 <= i < |Split(home)| ==> Split(home)[i] != "") ==>
      |m.fetches| == 1 && m.fetches[0] in m.heap && m.heap[m.fetches[0]].data.fullPath == home
  {
    var base := m.nextRef;
    m.SetUserHomePath(home);
    ghost var h0, flagged := m.heap, Flagged(home, base);
    ghost var count := ChainLength(Split(home), 1);
    var r := base;
    while r in m.heap
      invariant base <= r <= base + count && m.rootNode == Some(base)
      invariant forall k :: k in m.heap <==> base <= k < base + count
      invariant forall k :: base <= k < base + count ==> m.heap[k].data.fullPath == h0[k].data.fullPath
      invariant forall k :: r <= k < base + count ==> m.heap[k] == h0[k]
      invariant m.fetches == if flagged != [] && flagged[0] < r then flagged else []
      decreases base + count - r
    {
      FlaggedIff(home, base, h0, r);
      var rows := m.RowCount(r);
      r := r + 1;
    }
    if home != "/" && NoEmptyPart(home) {
      FlaggedIsHome(home, base, h0);
    }
  }
}
