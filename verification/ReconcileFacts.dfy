// What reconciling a listing guarantees: the names, the survivors, what is left alone,
// and that a second run changes no row.

module ReconcileFacts {
  import opened Options
  import opened NodeHeap
  import opened Reconciling
  import opened ListSpec

  /** The listing of `p` was reconciled into the tree `h0`, giving the tree `h`. */
  ghost predicate Ran(h0: Heap, root: Ref, next: Ref, p: Ref, listing: Listing, h: Heap, next': Ref) {
    && Tree(h0, root, next) && p in h0 && NodeOk(h0, p)
    && Reconciled(h0, next, p, listing, h)
    && Tree(h, root, next') && NodeOk(h, p)
  }

  ghost function Stay(h0: Heap, p: Ref, listing: Listing): seq<Ref>
    requires p in h0 && NodeOk(h0, p)
  {
    Survivors(h0, Kids(h0, p), listing)
  }

  ghost function Added(h0: Heap, p: Ref, listing: Listing): Listing
    requires p in h0 && NodeOk(h0, p)
  {
    NewEntries(listing, NamesOf(h0, Stay(h0, p, listing)))
  }

  /** The names a directory shows, by row. */
  ghost function Shown(h: Heap, p: Ref): seq<string>
    requires p in h && NodeOk(h, p)
  {
    NamesOf(h, Kids(h, p))
  }

  // ----- Refining the list of names -----

  lemma {:induction false} ListedIsEntryName(listing: Listing, name: string)
    ensures Listed(listing, name) <==> name in EntryNames(listing)
  {
    if Listed(listing, name) {
      var j :| 0 <= j < |listing| && listing[j].fileName == name;
      assert EntryNames(listing)[j] == name;
    }
  }

  lemma {:induction false} NamesCons(h: Heap, k: Ref, s: seq<Ref>)
    requires k in h
    ensures NamesOf(h, [k] + s) == [h[k].data.fileName] + NamesOf(h, s)
  {
  }

  lemma {:induction false} SurvivorNames(h: Heap, s: seq<Ref>, listing: Listing)
    requires forall k :: k in s ==> k in h
    ensures NamesOf(h, Survivors(h, s, listing)) == Keep(NamesOf(h, s), EntryNames(listing))
    decreases |s|
  {
    if s != [] {
      SurvivorNames(h, s[1..], listing);
      ListedIsEntryName(listing, h[s[0]].data.fileName);
      NamesCons(h, s[0], s[1..]);
      NamesCons(h, s[0], Survivors(h, s[1..], listing));
      assert s == [s[0]] + s[1..];
    }
  }

  lemma {:induction false} NewEntryNames(listing: Listing, have: seq<string>)
    ensures EntryNames(NewEntries(listing, have)) == Fresh(EntryNames(listing), have)
    decreases |listing|
  {
    if listing != [] {
      var front, e := listing[..|listing| - 1], listing[|listing| - 1];
      NewEntryNames(front, have);
      assert EntryNames(listing)[..|listing| - 1] == EntryNames(front);
      var added := NewEntries(front, have);
      assert EntryNames(added + [e]) == EntryNames(added) + [e.fileName];
    }
  }

  lemma {:induction false} KidRow(h: Heap, p: Ref, k: Ref) returns (r: int)
    requires p in h && NodeOk(h, p) && k in Kids(h, p)
    ensures r in h[p].childNodes && h[p].childNodes[r] == k && k in h && p < k && h[k].pNode == Some(p)
  {
    r :| 0 <= r < |Kids(h, p)| && Kids(h, p)[r] == k;
    assert h[p].childNodes[r] == k;
  }

  lemma {:induction false} NamesConcat(h: Heap, a: seq<Ref>, b: seq<Ref>)
    ensures NamesOf(h, a + b) == NamesOf(h, a) + NamesOf(h, b)
  {
  }

  lemma {:induction false} NamesSame(h: Heap, h': Heap, s: seq<Ref>)
    requires forall k :: k in s ==> k in h && k in h' && h'[k].data.fileName == h[k].data.fileName
    ensures NamesOf(h', s) == NamesOf(h, s)
  {
  }

  lemma {:induction false} NamesOfNew(h: Heap, next: Ref, added: Listing)
    requires forall k: Ref :: next <= k < next + |added| ==> k in h && h[k].data == added[k - next]
    ensures NamesOf(h, Range(next, |added|)) == EntryNames(added)
  {
  }

  lemma {:induction false} SurvivorName(h0: Heap, root: Ref, next: Ref, p: Ref, listing: Listing, h: Heap, next': Ref,
      k: Ref)
    requires Ran(h0, root, next, p, listing, h, next') && k in Stay(h0, p, listing)
    ensures k in h0 && k in h && h[k].data.fileName == h0[k].data.fileName
  {
    var rows, stay := Kids(h, p), Stay(h0, p, listing);
    var q := KidRow(h0, p, k);
    var r :| 0 <= r < |stay| && stay[r] == k;
    assert rows == stay + Range(next, |Added(h0, p, listing)|);
    assert rows[r] == k && h[p].childNodes[r] == k;
    assert Kept(h0, p, listing, 0, h, k);
  }

  /** The rows are the survivors, then one new node per added entry. */
  lemma {:induction false} ReconciledRows(h0: Heap, root: Ref, next: Ref, p: Ref, listing: Listing, h: Heap, next': Ref)
    requires Ran(h0, root, next, p, listing, h, next')
    ensures Shown(h, p) == NamesOf(h0, Stay(h0, p, listing)) + EntryNames(Added(h0, p, listing))
  {
    var stay, added := Stay(h0, p, listing), Added(h0, p, listing);
    forall k | k in stay
      ensures k in h0 && k in h && h[k].data.fileName == h0[k].data.fileName
    {
      SurvivorName(h0, root, next, p, listing, h, next', k);
    }
    NamesSame(h0, h, stay);
    NamesOfNew(h, next, added);
    NamesConcat(h, stay, Range(next, |added|));
  }

  /** Reconciling a tree node does to its names what `After` does to a plain list. */
  lemma {:induction false} ReconcileRefinesList(h0: Heap, root: Ref, next: Ref, p: Ref, listing: Listing, h: Heap,
      next': Ref)
    requires Ran(h0, root, next, p, listing, h, next')
    ensures Shown(h, p) == After(Shown(h0, p), EntryNames(listing))
  {
    ReconciledRows(h0, root, next, p, listing, h, next');
    forall k | k in Kids(h0, p) ensures k in h0 {
      var r := KidRow(h0, p, k);
    }
    SurvivorNames(h0, Kids(h0, p), listing);
    NewEntryNames(listing, NamesOf(h0, Stay(h0, p, listing)));
  }

  /** The rows fit a short whenever the names were unique and the listing is short enough. */
  lemma {:induction false} RowsFit(h0: Heap, p: Ref, listing: Listing)
    requires p in h0 && NodeOk(h0, p) && Distinct(Shown(h0, p)) && |listing| <= 32768
    ensures RowsAfter(h0, p, listing) <= 32768
  {
    forall k | k in Kids(h0, p) ensures k in h0 {
      var r := KidRow(h0, p, k);
    }
    SurvivorNames(h0, Kids(h0, p), listing);
    NewEntryNames(listing, NamesOf(h0, Stay(h0, p, listing)));
    AfterFits(Shown(h0, p), EntryNames(listing));
  }

  // ----- Idempotence -----

  lemma {:induction false} AllSurvive(h: Heap, s: seq<Ref>, listing: Listing)
    requires forall k :: k in s ==> k in h && Listed(listing, h[k].data.fileName)
    ensures Survivors(h, s, listing) == s && Vanished(h, s, listing) == {}
    decreases |s|
  {
    if s != [] {
      AllSurvive(h, s[1..], listing);
      assert s == [s[0]] + s[1..];
    }
  }

  /** Right after a run, the same listing has nothing to delete and nothing to add. */
  lemma {:induction false} NothingLeftToDo(h0: Heap, root: Ref, next: Ref, p: Ref, listing: Listing, h: Heap,
      next': Ref)
    requires Ran(h0, root, next, p, listing, h, next')
    ensures Stay(h, p, listing) == Kids(h, p) && Vanished(h, Kids(h, p), listing) == {}
    ensures Added(h, p, listing) == []
  {
    var s, before, listed := Kids(h, p), Shown(h0, p), EntryNames(listing);
    ReconcileRefinesList(h0, root, next, p, listing, h, next');
    AfterShowsListing(before, listed);
    AfterTwice(before, listed);
    forall k | k in s
      ensures k in h && Listed(listing, h[k].data.fileName)
    {
      var r := KidRow(h, p, k);
      assert Shown(h, p)[r] == h[k].data.fileName;
      ListedIsEntryName(listing, h[k].data.fileName);
    }
    AllSurvive(h, s, listing);
    NewEntryNames(listing, NamesOf(h, s));
    assert |EntryNames(Added(h, p, listing))| == 0;
  }

  lemma {:induction false} OnlyEntry(listing: Listing, j: nat)
    requires Distinct(EntryNames(listing)) && j < |listing|
    ensures LastIndex(listing, listing[j].fileName) == j
  {
    var i := LastIndex(listing, listing[j].fileName);
    assert Listed(listing, listing[j].fileName);
    assert EntryNames(listing)[i] == EntryNames(listing)[j];
  }

  /** Every entry's name is known already or gets a row. */
  lemma {:induction false} EntryTaken(listing: Listing, have: seq<string>, k: nat)
    requires k < |listing|
    ensures listing[k].fileName in have || listing[k].fileName in EntryNames(NewEntries(listing, have))
    decreases |listing|
  {
    var front, e := listing[..|listing| - 1], listing[|listing| - 1];
    var added := NewEntries(front, have);
    assert EntryNames(added + [e]) == EntryNames(added) + [e.fileName];
    if k < |front| {
      EntryTaken(front, have, k);
    }
  }

  lemma {:induction false} NewEntryFrom(listing: Listing, have: seq<string>, j: nat) returns (i: nat)
    requires j < |NewEntries(listing, have)|
    ensures i < |listing| && listing[i] == NewEntries(listing, have)[j] && listing[i].fileName !in have
    ensures forall k :: 0 <= k < i ==> listing[k].fileName != listing[i].fileName
    decreases |listing|
  {
    var front := listing[..|listing| - 1];
    if j < |NewEntries(front, have)| {
      i := NewEntryFrom(front, have, j);
    } else {
      i := |listing| - 1;
      forall k | 0 <= k < i
        ensures listing[k].fileName != listing[i].fileName
      {
        EntryTaken(front, have, k);
      }
    }
  }

  lemma {:induction false} EntryOfNew(listing: Listing, have: seq<string>, j: nat)
    requires Distinct(EntryNames(listing)) && j < |NewEntries(listing, have)|
    ensures var e := NewEntries(listing, have)[j];
      LastIndex(listing, e.fileName) >= 0 && listing[LastIndex(listing, e.fileName)] == e
    decreases |listing|
  {
    var i := NewEntryFrom(listing, have, j);
    OnlyEntry(listing, i);
  }

  /** After a run with a duplicate-free listing every row carries the data of the entry with its name. */
  lemma {:induction false} RowHasEntry(h0: Heap, root: Ref, next: Ref, p: Ref, listing: Listing, h: Heap, next': Ref,
      k: Ref)
    requires Ran(h0, root, next, p, listing, h, next') && Distinct(EntryNames(listing))
    requires k in h && h[k].pNode == Some(p) && k != p
    ensures var j := LastIndex(listing, h[k].data.fileName); j >= 0 && h[k].data == listing[j]
  {
    if k in h0 {
      assert Kept(h0, p, listing, 0, h, k);
      assert LinkOk(h0, k);
      var j := LastIndex(listing, h0[k].data.fileName);
      assert h[k].data == listing[j];
    } else {
      EntryOfNew(listing, NamesOf(h0, Stay(h0, p, listing)), k - next);
    }
  }

  lemma {:induction false} SecondRunNode(h0: Heap, root: Ref, next: Ref, p: Ref, listing: Listing, h: Heap,
      next': Ref, h': Heap, next'': Ref, m: Ref)
    requires Ran(h0, root, next, p, listing, h, next') && Ran(h, root, next', p, listing, h', next'')
    requires Distinct(EntryNames(listing)) && m in h && m in h' && m != p && Kids(h', p) == Kids(h, p)
    ensures h'[m] == h[m]
  {
    assert Kept(h, p, listing, 0, h', m);
    if h[m].pNode == Some(p) {
      RowHasEntry(h0, root, next, p, listing, h, next', m);
      assert LinkOk(h, m);
      var r: int := h[m].onRow;
      assert Kids(h, p)[r] == m == Kids(h', p)[r] == h'[p].childNodes[r];
    }
  }

  lemma {:induction false} SameKids(kids: map<int, Ref>, kids': map<int, Ref>)
    requires Dense(kids) && Dense(kids') && KidSeq(kids) == KidSeq(kids')
    ensures kids == kids'
  {
    assert |kids| == |KidSeq(kids)| == |KidSeq(kids')| == |kids'|;
    assert forall r :: r in kids <==> r in kids';
    forall r | r in kids
      ensures kids[r] == kids'[r]
    {
      assert kids[r] == KidSeq(kids)[r];
    }
  }

  lemma {:induction false} SecondRunParent(h0: Heap, root: Ref, next: Ref, p: Ref, listing: Listing, h: Heap,
      next': Ref, h': Heap, next'': Ref)
    requires Ran(h0, root, next, p, listing, h, next') && Ran(h, root, next', p, listing, h', next'')
    requires Kids(h', p) == Kids(h, p)
    ensures h'[p] == h[p].(data := h[p].data.(prevFlag := POP_NEWEST))
  {
    SameKids(h[p].childNodes, h'[p].childNodes);
  }

  lemma {:induction false} OneNodeDiffers(h: Heap, h': Heap, p: Ref)
    requires p in h && h'.Keys == h.Keys && forall m :: m in h && m != p ==> h'[m] == h[m]
    ensures h' == h[p := h'[p]]
  {
  }

  lemma {:induction false} SecondRunSame(h0: Heap, root: Ref, next: Ref, p: Ref, listing: Listing, h: Heap,
      next': Ref, h': Heap, next'': Ref)
    requires Ran(h0, root, next, p, listing, h, next') && Ran(h, root, next', p, listing, h', next'')
    requires Distinct(EntryNames(listing)) && h'.Keys == h.Keys && Kids(h', p) == Kids(h, p)
    ensures h' == h[p := h[p].(data := h[p].data.(prevFlag := POP_NEWEST))]
  {
    forall m | m in h && m != p
      ensures h'[m] == h[m]
    {
      SecondRunNode(h0, root, next, p, listing, h, next', h', next'', m);
    }
    SecondRunParent(h0, root, next, p, listing, h, next', h', next'');
    OneNodeDiffers(h, h', p);
  }

  /** Reconciling the same listing again changes no row and nothing below the rows; if the listing repeats
      no name it changes nothing at all but the previous flag of `p`. */
  lemma {:induction false} ReconcileTwice(h0: Heap, root: Ref, next: Ref, p: Ref, listing: Listing, h: Heap,
      next': Ref, h': Heap, next'': Ref)
    requires Ran(h0, root, next, p, listing, h, next')
    requires Ran(h, root, next', p, listing, h', next'')
    ensures h'.Keys == h.Keys && Kids(h', p) == Kids(h, p)
    ensures forall m :: m in h && m != p && h[m].pNode != Some(p) ==> h'[m] == h[m]
    ensures Distinct(EntryNames(listing)) ==> h' == h[p := h[p].(data := h[p].data.(prevFlag := POP_NEWEST))]
  {
    NothingLeftToDo(h0, root, next, p, listing, h, next');
    assert Kids(h, p) + Range(next', 0) == Kids(h, p);
    forall m | m in h && m != p && h[m].pNode != Some(p)
      ensures h'[m] == h[m]
    {
      assert Kept(h, p, listing, 0, h', m);
    }
    if Distinct(EntryNames(listing)) {
      SecondRunSame(h0, root, next, p, listing, h, next', h', next'');
    }
  }

  lemma {:induction false} IsNewRow(h0: Heap, next: Ref, p: Ref, listing: Listing, h: Heap, k: Ref)
    requires p in h0 && NodeOk(h0, p) && Reconciled(h0, next, p, listing, h) && k in h && k !in h0
    ensures next <= k < next + |Added(h0, p, listing)| && h[k].data == Added(h0, p, listing)[k - next]
    ensures h[k].childNodes == map[] && h[k].pNode == Some(p)
  {
  }

  lemma {:induction false} FirstEntryOf(h0: Heap, next: Ref, p: Ref, listing: Listing, h: Heap, k: Ref) returns (i: nat)
    requires p in h0 && NodeOk(h0, p) && Reconciled(h0, next, p, listing, h) && k in h && k !in h0
    ensures i < |listing| && h[k].data == listing[i] && h[k].childNodes == map[] && h[k].pNode == Some(p)
    ensures forall j :: 0 <= j < i ==> listing[j].fileName != listing[i].fileName
  {
    IsNewRow(h0, next, p, listing, h, k);
    i := NewEntryFrom(listing, NamesOf(h0, Stay(h0, p, listing)), k - next);
  }

  /** A new row carries the first entry listed under its name, has no children, and its name is new. */
  lemma {:induction false} NewRowHasFirstEntry(h0: Heap, root: Ref, next: Ref, p: Ref, listing: Listing, h: Heap,
      next': Ref, k: Ref) returns (i: nat)
    requires Ran(h0, root, next, p, listing, h, next') && k in h && k !in h0
    ensures i < |listing| && h[k].data == listing[i] && h[k].childNodes == map[] && h[k].pNode == Some(p)
    ensures forall j :: 0 <= j < i ==> listing[j].fileName != listing[i].fileName
  {
    i := FirstEntryOf(h0, next, p, listing, h, k);
  }

  // ----- What is left alone -----

  lemma {:induction false} NotVanished(h0: Heap, p: Ref, listing: Listing, q: int, m: Ref)
    requires Shape(h0) && p in h0 && NodeOk(h0, p) && q in h0[p].childNodes
    requires Listed(listing, h0[h0[p].childNodes[q]].data.fileName) && Under(h0, h0[p].childNodes[q], m)
    ensures m !in Vanished(h0, Kids(h0, p), listing)
  {
    forall k | k in Kids(h0, p) && k in h0 && !Listed(listing, h0[k].data.fileName)
      ensures !Under(h0, k, m)
    {
      var q' := KidRow(h0, p, k);
      SiblingsDisjoint(h0, p, h0[p].childNodes[q], k, m);
    }
  }

  lemma {:induction false} DescendantKept(h0: Heap, root: Ref, next: Ref, p: Ref, listing: Listing, h: Heap,
      next': Ref, k: Ref, m: Ref)
    requires Ran(h0, root, next, p, listing, h, next')
    requires k in Kids(h0, p) && k in h0 && Listed(listing, h0[k].data.fileName) && Under(h0, k, m)
    ensures m in h && h[m].pNode == h0[m].pNode && (m != k ==> h[m] == h0[m])
  {
    var q := KidRow(h0, p, k);
    UnderIsYounger(h0, k, m);
    if Under(h0, k, p) { UnderIsYounger(h0, k, p); }
    NotVanished(h0, p, listing, q, m);
    assert Kept(h0, p, listing, 0, h, m);
  }

  lemma {:induction false} SameAncestry(h0: Heap, root: Ref, next: Ref, p: Ref, listing: Listing, h: Heap, next': Ref,
      k: Ref, m: Ref)
    requires Ran(h0, root, next, p, listing, h, next')
    requires k in h0 && h0[k].pNode == Some(p) && p < k
    requires forall n :: n in Subtree(h0, k) ==> n in h && h[n].pNode == h0[n].pNode
    ensures Under(h, k, m) <==> Under(h0, k, m)
    decreases m
  {
    assert m in h ==> LinkOk(h, m);
    assert m in h0 ==> LinkOk(h0, m);
    if Under(h0, k, p) { UnderIsYounger(h0, k, p); }
    if m in h0 {
      assert Under(h0, k, m) ==> m in Subtree(h0, k);
      if m in h {
        assert m != p ==> Kept(h0, p, listing, 0, h, m);
        if h[m].pNode.Some? {
          SameAncestry(h0, root, next, p, listing, h, next', k, h[m].pNode.value);
        }
      }
    } else if m in h {
      SameAncestry(h0, root, next, p, listing, h, next', k, p);
    }
  }

  /** A surviving child keeps its identity and its whole subtree; its data is the last listed entry. */
  lemma {:induction false} SurvivorKeepsSubtree(h0: Heap, root: Ref, next: Ref, p: Ref, listing: Listing, h: Heap,
      next': Ref, k: Ref)
    requires Ran(h0, root, next, p, listing, h, next')
    requires k in Kids(h0, p) && k in h0 && Listed(listing, h0[k].data.fileName)
    ensures k in h && h[k].pNode == Some(p) && h[k].data == listing[LastIndex(listing, h0[k].data.fileName)]
    ensures Subtree(h, k) == Subtree(h0, k)
    ensures forall m :: m in Subtree(h0, k) && m != k ==> h[m] == h0[m]
  {
    forall m | m in Subtree(h0, k)
      ensures m in h && h[m].pNode == h0[m].pNode && (m != k ==> h[m] == h0[m])
    {
      DescendantKept(h0, root, next, p, listing, h, next', k, m);
    }
    var q := KidRow(h0, p, k);
    forall m | m in h || m in h0
      ensures Under(h, k, m) <==> Under(h0, k, m)
    {
      SameAncestry(h0, root, next, p, listing, h, next', k, m);
    }
    assert Under(h0, k, k);
    assert Kept(h0, p, listing, 0, h, k);
  }

  // ----- The result is a tree again -----

  lemma {:induction false} SurvivorIff(h: Heap, s: seq<Ref>, listing: Listing, k: Ref)
    ensures k in Survivors(h, s, listing) <==> k in s && k in h && Listed(listing, h[k].data.fileName)
    decreases |s|
  {
    if s != [] {
      SurvivorIff(h, s[1..], listing, k);
      assert k in s <==> k == s[0] || k in s[1..];
    }
  }

  /** A node's parent is gone only if the node is. */
  lemma {:induction false} ParentSurvives(h0: Heap, p: Ref, listing: Listing, n: Ref)
    requires Shape(h0) && p in h0 && NodeOk(h0, p) && n in h0 && h0[n].pNode.Some?
    requires n !in Vanished(h0, Kids(h0, p), listing)
    ensures h0[n].pNode.value in h0 && h0[n].pNode.value !in Vanished(h0, Kids(h0, p), listing)
  {
    assert LinkOk(h0, n);
    forall k | k in Kids(h0, p) && k in h0 && !Listed(listing, h0[k].data.fileName)
      ensures !Under(h0, k, h0[n].pNode.value)
    {
      assert Under(h0, k, h0[n].pNode.value) ==> Under(h0, k, n);
    }
  }

  /** A child is gone only if its parent is, unless it is an unlisted row of the reconciled node. */
  lemma {:induction false} ChildSurvives(h0: Heap, p: Ref, listing: Listing, n: Ref, k: Ref)
    requires Shape(h0) && p in h0 && NodeOk(h0, p) && k in h0 && h0[k].pNode == Some(n)
    requires n !in Vanished(h0, Kids(h0, p), listing)
    requires n == p ==> Listed(listing, h0[k].data.fileName)
    ensures k !in Vanished(h0, Kids(h0, p), listing)
  {
    assert LinkOk(h0, k);
    forall x | x in Kids(h0, p) && x in h0 && !Listed(listing, h0[x].data.fileName)
      ensures !Under(h0, x, k)
    {
      var r := KidRow(h0, p, x);
      assert Under(h0, x, k) && x != k ==> Under(h0, x, n);
    }
  }

  lemma {:induction false} TopSurvives(h0: Heap, p: Ref, listing: Listing, n: Ref)
    requires Shape(h0) && p in h0 && NodeOk(h0, p) && n <= p
    ensures n !in Vanished(h0, Kids(h0, p), listing)
  {
    forall k | k in Kids(h0, p)
      ensures !Under(h0, k, n)
    {
      var r := KidRow(h0, p, k);
      if Under(h0, k, n) {
        UnderIsYounger(h0, k, n);
      }
    }
  }

  lemma {:induction false} RowClaimed(h: Heap, p: Ref, s: seq<Ref>, r: nat)
    requires p in h && Holding(h, p) && RowsNumbered(h, p) && |h[p].childNodes| <= ROW_LIMIT
    requires KidSeq(h[p].childNodes) == s && r < |s|
    ensures s[r] in h && h[s[r]].onRow == r && r in h[p].childNodes && h[p].childNodes[r] == s[r]
  {
    assert KidSeq(h[p].childNodes)[r] == h[p].childNodes[r];
  }

  lemma {:induction false} AppendedLink(h0: Heap, next: Ref, p: Ref, listing: Listing, h: Heap, n: Ref)
    requires p in h0 && p < next && NodeOk(h0, p) && Reconciled(h0, next, p, listing, h)
    requires |h[p].childNodes| <= ROW_LIMIT
    requires n in h && n !in h0
    ensures LinkOk(h, n) && h[n].pNode == Some(p)
  {
    var stay, added := Stay(h0, p, listing), Added(h0, p, listing);
    var r := |stay| + (n - next);
    assert (stay + Range(next, |added|))[r] == n;
    RowClaimed(h, p, stay + Range(next, |added|), r);
  }

  lemma {:induction false} SurvivorLink(h0: Heap, next: Ref, p: Ref, listing: Listing, h: Heap, n: Ref)
    requires Shape(h0) && p in h0 && NodeOk(h0, p) && Reconciled(h0, next, p, listing, h)
    requires |h[p].childNodes| <= ROW_LIMIT
    requires n in h && n in h0 && n != p && h0[n].pNode == Some(p)
    requires n !in Vanished(h0, Kids(h0, p), listing)
    ensures LinkOk(h, n)
  {
    assert LinkOk(h0, n) && Kept(h0, p, listing, 0, h, n);
    var s := Kids(h0, p);
    assert s[h0[n].onRow] == n;
    assert n in s && Under(h0, n, n);
    SurvivorIff(h0, s, listing, n);
    var stay := Stay(h0, p, listing);
    var r :| 0 <= r < |stay| && stay[r] == n;
    var rows := stay + Range(next, |Added(h0, p, listing)|);
    assert rows[r] == n;
    RowClaimed(h, p, rows, r);
  }

  lemma {:induction false} ReconciledLink(h0: Heap, root: Ref, next: Ref, p: Ref, listing: Listing, h: Heap, n: Ref)
    requires Tree(h0, root, next) && p in h0 && NodeOk(h0, p)
    requires Reconciled(h0, next, p, listing, h) && |h[p].childNodes| <= ROW_LIMIT && n in h
    ensures LinkOk(h, n) && (n != root ==> h[n].pNode.Some?)
  {
    if n !in h0 {
      AppendedLink(h0, next, p, listing, h, n);
    } else {
      assert LinkOk(h0, n);
      assert n != p ==> Kept(h0, p, listing, 0, h, n);
      if h0[n].pNode == Some(p) {
        SurvivorLink(h0, next, p, listing, h, n);
      } else if h0[n].pNode.Some? {
        var q := h0[n].pNode.value;
        ParentSurvives(h0, p, listing, n);
        assert Kept(h0, p, listing, 0, h, q);
      }
    }
  }

  lemma {:induction false} ReconciledElsewhere(h0: Heap, next: Ref, p: Ref, listing: Listing, h: Heap, n: Ref)
    requires Shape(h0) && p in h0 && NodeOk(h0, p) && Reconciled(h0, next, p, listing, h)
    requires n in h && n in h0 && n != p && (forall m :: m in h0 ==> m < next)
    ensures NodeOk(h, n)
  {
    assert NodeOk(h0, n) && Kept(h0, p, listing, 0, h, n);
    forall r | r in h[n].childNodes
      ensures var k := h[n].childNodes[r]; k in h && n < k && h[k].pNode == Some(n) && h[k].onRow == r
    {
      var k := h0[n].childNodes[r];
      ChildSurvives(h0, p, listing, n, k);
      assert k != p ==> Kept(h0, p, listing, 0, h, k);
    }
  }

  lemma {:induction false} ReconciledKid(h0: Heap, root: Ref, next: Ref, p: Ref, listing: Listing, h: Heap, r: int)
    requires Tree(h0, root, next) && p in h0 && NodeOk(h0, p)
    requires Reconciled(h0, next, p, listing, h) && |h[p].childNodes| <= ROW_LIMIT && r in h[p].childNodes
    ensures var k := h[p].childNodes[r]; k in h && p < k && h[k].pNode == Some(p)
  {
    var stay, added := Stay(h0, p, listing), Added(h0, p, listing);
    var k := h[p].childNodes[r];
    assert k == KidSeq(h[p].childNodes)[r] == (stay + Range(next, |added|))[r];
    if r < |stay| {
      assert k in stay;
      SurvivorIff(h0, Kids(h0, p), listing, k);
      var q := KidRow(h0, p, k);
      TopSurvives(h0, p, listing, p);
      ChildSurvives(h0, p, listing, p, k);
      assert Kept(h0, p, listing, 0, h, k);
    }
  }

  lemma {:induction false} ReconciledParent(h0: Heap, root: Ref, next: Ref, p: Ref, listing: Listing, h: Heap)
    requires Tree(h0, root, next) && p in h0 && NodeOk(h0, p)
    requires Reconciled(h0, next, p, listing, h)
    requires |h[p].childNodes| <= ROW_LIMIT
    ensures NodeOk(h, p)
  {
    forall r | r in h[p].childNodes
      ensures var k := h[p].childNodes[r]; k in h && p < k && h[k].pNode == Some(p) && h[k].onRow == r
    {
      ReconciledKid(h0, root, next, p, listing, h, r);
      FitsShort(r);
    }
  }

  lemma {:induction false} ReconciledNode(h0: Heap, root: Ref, next: Ref, p: Ref, listing: Listing, h: Heap, n: Ref)
    requires Tree(h0, root, next) && p in h0 && NodeOk(h0, p)
    requires Reconciled(h0, next, p, listing, h) && |h[p].childNodes| <= ROW_LIMIT && n in h
    ensures NodeOk(h, n)
  {
    if n == p {
      ReconciledParent(h0, root, next, p, listing, h);
    } else if n in h0 {
      ReconciledElsewhere(h0, next, p, listing, h, n);
    }
  }

  lemma {:induction false} ReconciledRoot(h0: Heap, root: Ref, next: Ref, p: Ref, listing: Listing, h: Heap)
    requires Tree(h0, root, next) && p in h0 && NodeOk(h0, p) && Reconciled(h0, next, p, listing, h)
    ensures root in h && h[root].pNode == None && h[root].onRow == 0
    ensures forall n :: n in h ==> n < next + |Added(h0, p, listing)|
  {
    AllUnderRoot(h0, root, next, p);
    UnderIsYounger(h0, root, p);
    TopSurvives(h0, p, listing, root);
    assert root != p ==> Kept(h0, p, listing, 0, h, root);
  }

  lemma {:induction false} ReconciledCount(h0: Heap, next: Ref, p: Ref, listing: Listing, h: Heap)
    requires p in h0 && NodeOk(h0, p) && Reconciled(h0, next, p, listing, h)
    ensures |h[p].childNodes| == RowsAfter(h0, p, listing)
  {
    assert |KidSeq(h[p].childNodes)| == |h[p].childNodes|;
  }

  lemma {:induction false} ReconciledFits(h0: Heap, root: Ref, next: Ref, p: Ref, listing: Listing, h: Heap)
    requires Tree(h0, root, next) && p in h0 && NodeOk(h0, p)
    requires Reconciled(h0, next, p, listing, h) && RowsAfter(h0, p, listing) <= ROW_LIMIT
    ensures Tree(h, root, next + |Added(h0, p, listing)|)
  {
    ReconciledCount(h0, next, p, listing, h);
    ReconciledRoot(h0, root, next, p, listing, h);
    forall n | n in h
      ensures NodeOk(h, n) && LinkOk(h, n) && (n != root ==> h[n].pNode.Some?)
    {
      ReconciledNode(h0, root, next, p, listing, h, n);
      ReconciledLink(h0, root, next, p, listing, h, n);
    }
  }

  /** Reconciling keeps the tree exactly as long as the rows it results in fit a short. */
  lemma {:induction false} ReconciledIsTreeIff(h0: Heap, root: Ref, next: Ref, p: Ref, listing: Listing, h: Heap)
    requires Tree(h0, root, next) && p in h0 && NodeOk(h0, p) && Reconciled(h0, next, p, listing, h)
    ensures Tree(h, root, next + |Added(h0, p, listing)|) <==> RowsAfter(h0, p, listing) <= 32768
  {
    if RowsAfter(h0, p, listing) <= ROW_LIMIT {
      ReconciledFits(h0, root, next, p, listing, h);
    } else {
      ReconciledCount(h0, next, p, listing, h);
      assert ROW_LIMIT in h[p].childNodes;
      assert !NodeOk(h, p);
    }
  }
}
