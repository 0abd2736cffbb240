// Reconciling a server listing into the children of one node: what the two passes of
// slot_remote_dir_node_retrived compute, stated on heaps before and after.

module Reconciling {
  import opened Options
  import opened NodeHeap

  // A listing in server order; each entry is what the retriever filled in for one name.
  type Listing = seq<NodeData>

  // ----- Reading a listing -----

  ghost predicate Listed(listing: Listing, name: string) {
    exists j :: 0 <= j < |listing| && listing[j].fileName == name
  }

  /** The last entry with the given name, or -1. */
  function LastIndex(listing: Listing, name: string): (j: int)
    ensures -1 <= j < |listing|
    ensures j >= 0 ==> listing[j].fileName == name
    ensures Listed(listing, name) <==> j >= 0
    ensures forall k :: j < k < |listing| ==> listing[k].fileName != name
  {
    if listing == [] then -1
    else if listing[|listing| - 1].fileName == name then |listing| - 1
    else LastIndex(listing[..|listing| - 1], name)
  }

  function NamesOf(h: Heap, s: seq<Ref>): (names: seq<string>)
    ensures |names| == |s| && forall i :: 0 <= i < |s| && s[i] in h ==> names[i] == h[s[i]].data.fileName
  {
    seq(|s|, i requires 0 <= i < |s| => if s[i] in h then h[s[i]].data.fileName else "")
  }

  function EntryNames(entries: Listing): (names: seq<string>)
    ensures |names| == |entries| && forall i :: 0 <= i < |entries| ==> names[i] == entries[i].fileName
  {
    seq(|entries|, i requires 0 <= i < |entries| => entries[i].fileName)
  }

  /** The entries that get a row of their own: first occurrences of names not in `have`, in order. */
  function NewEntries(listing: Listing, have: seq<string>): (added: Listing) {
    if listing == [] then []
    else
      var added, e := NewEntries(listing[..|listing| - 1], have), listing[|listing| - 1];
      if e.fileName in have || e.fileName in EntryNames(added) then added else added + [e]
  }

  /** The rows of `s` whose name is still listed, in their old order. */
  ghost function Survivors(h: Heap, s: seq<Ref>, listing: Listing): (t: seq<Ref>)
    ensures forall k :: k in t ==> k in s && k in h
  {
    if s == [] then []
    else
      var rest := Survivors(h, s[1..], listing);
      if s[0] in h && Listed(listing, h[s[0]].data.fileName) then [s[0]] + rest else rest
  }

  /** Everything at or below a row of `s` that is no longer listed. */
  ghost function Vanished(h: Heap, s: seq<Ref>, listing: Listing): set<Ref> {
    set m | m in h && exists k :: k in s && k in h && !Listed(listing, h[k].data.fileName) && Under(h, k, m)
  }

  function Range(from: Ref, count: nat): (s: seq<Ref>)
    ensures |s| == count && forall j :: 0 <= j < count ==> s[j] == from + j
  {
    seq(count, j requires 0 <= j => from + j)
  }

  // ----- First pass: delete what vanished, refresh what stayed -----

  ghost predicate Kept(h0: Heap, p: Ref, listing: Listing, i: int, h: Heap, m: Ref)
    requires m in h0 && m in h
  {
    if h0[m].pNode == Some(p) && h0[m].onRow >= i then
      var j := LastIndex(listing, h0[m].data.fileName);
      j >= 0 && h[m] == h0[m].(data := listing[j], onRow := h[m].onRow)
    else h[m] == h0[m]
  }

  /** The heap when rows `i` and above of `p` have been dealt with. */
  ghost predicate Pruned(h0: Heap, p: Ref, listing: Listing, i: int, h: Heap)
    requires p in h0 && NodeOk(h0, p) && 0 <= i <= |h0[p].childNodes|
  {
    var s := Kids(h0, p);
    && h.Keys == h0.Keys - Vanished(h0, s[i..], listing)
    && (forall m {:trigger Kept(h0, p, listing, i, h, m)} :: m in h && m != p ==> Kept(h0, p, listing, i, h, m))
    && p in h && NodeOk(h, p)
    && h[p] == h0[p].(childNodes := h[p].childNodes)
    && Kids(h, p) == s[..i] + Survivors(h0, s[i..], listing)
  }

  lemma {:induction false} PrunedStart(h0: Heap, p: Ref, listing: Listing)
    requires Shape(h0) && p in h0 && NodeOk(h0, p)
    ensures Pruned(h0, p, listing, |h0[p].childNodes|, h0)
  {
    var s := Kids(h0, p);
    assert s[..|s|] + [] == s;
    forall m | m in h0 && m != p
      ensures Kept(h0, p, listing, |s|, h0, m)
    {
      assert LinkOk(h0, m);
    }
  }

  /** Row `i` still is what it was when the pass began. */
  lemma {:induction false} RowUntouched(h0: Heap, p: Ref, listing: Listing, i: int, h: Heap)
    requires Shape(h0) && Shape(h) && p in h0 && NodeOk(h0, p) && 0 <= i < |h0[p].childNodes|
    requires Pruned(h0, p, listing, i + 1, h)
    ensures i in h[p].childNodes && h[p].childNodes[i] == h0[p].childNodes[i]
    ensures var k := h0[p].childNodes[i]; k in h && k != p && h[k] == h0[k]
  {
    var k := h0[p].childNodes[i];
    assert Kids(h, p)[i] == Kids(h0, p)[i];
    assert h[p].childNodes[i] == k;
    assert Kept(h0, p, listing, i + 1, h, k);
  }

  lemma {:induction false} ParentsKept(h0: Heap, p: Ref, listing: Listing, i: int, h: Heap, m: Ref)
    requires p in h0 && NodeOk(h0, p) && 0 <= i <= |h0[p].childNodes|
    requires Pruned(h0, p, listing, i, h) && m in h
    ensures h[m].pNode == h0[m].pNode && (m != p ==> h[m].childNodes == h0[m].childNodes)
  {
    assert m != p ==> Kept(h0, p, listing, i, h, m);
  }

  /** The subtree about to be deleted is the one the node had from the start. */
  lemma {:induction false} SameSubtree(h0: Heap, p: Ref, listing: Listing, i: int, h: Heap)
    requires Shape(h0) && Shape(h) && p in h0 && NodeOk(h0, p) && 0 <= i < |h0[p].childNodes|
    requires Pruned(h0, p, listing, i + 1, h)
    ensures Subtree(h, h0[p].childNodes[i]) == Subtree(h0, h0[p].childNodes[i])
  {
    var k, s := h0[p].childNodes[i], Kids(h0, p);
    forall m | m in h ensures h[m].pNode == h0[m].pNode {
      ParentsKept(h0, p, listing, i + 1, h, m);
    }
    forall m | m in h0
      ensures m in Subtree(h, k) <==> m in Subtree(h0, k)
    {
      if m in h {
        UnderFrame(h0, h, k, m);
      } else {
        var k' :| k' in s[i + 1..] && k' in h0 && Under(h0, k', m);
        var r :| i + 1 <= r < |s| && s[r] == k';
        SiblingsDisjoint(h0, p, k, k', m);
      }
    }
  }

  lemma {:induction false} VanishedStep(h0: Heap, s: seq<Ref>, listing: Listing, i: int)
    requires 0 <= i < |s| && s[i] in h0
    ensures Vanished(h0, s[i..], listing)
         == Vanished(h0, s[i + 1..], listing)
          + (if Listed(listing, h0[s[i]].data.fileName) then {} else Subtree(h0, s[i]))
    ensures Survivors(h0, s[i..], listing)
         == (if Listed(listing, h0[s[i]].data.fileName) then [s[i]] else []) + Survivors(h0, s[i + 1..], listing)
  {
    assert s[i..] == [s[i]] + s[i + 1..];
    assert s[i..][1..] == s[i + 1..];
    assert forall k :: k in s[i..] <==> k == s[i] || k in s[i + 1..];
  }

  lemma {:induction false} RowSplit(s: seq<Ref>, i: int, rest: seq<Ref>)
    requires 0 <= i < |s|
    ensures s[..i + 1] + rest == s[..i] + ([s[i]] + rest)
    ensures WithoutRow(s[..i + 1] + rest, i) == s[..i] + rest
  {
  }

  lemma {:induction false} KeptAfterRemoving(h0: Heap, p: Ref, listing: Listing, i: int, h: Heap, h': Heap, m: Ref)
    requires Shape(h0) && Shape(h) && p in h0 && NodeOk(h0, p) && 0 <= i < |h0[p].childNodes|
    requires Pruned(h0, p, listing, i + 1, h)
    requires i < |h[p].childNodes| && RowRemoved(h, p, i, h') && m in h' && m != p
    ensures Kept(h0, p, listing, i, h', m)
  {
    RowUntouched(h0, p, listing, i, h);
    assert Kept(h0, p, listing, i + 1, h, m);
    assert h'[m] == Unhooked(h, p, i, m);
    assert LinkOk(h0, m);
    var k := h0[p].childNodes[i];
    assert Under(h, k, k);
    assert m != k;
  }

  lemma {:induction false} PruneByRemoving(h0: Heap, p: Ref, listing: Listing, i: int, h: Heap, h': Heap)
    requires Shape(h0) && Shape(h) && p in h0 && NodeOk(h0, p) && 0 <= i < |h0[p].childNodes|
    requires Pruned(h0, p, listing, i + 1, h)
    requires !Listed(listing, h0[h0[p].childNodes[i]].data.fileName)
    requires i < |h[p].childNodes| && RowRemoved(h, p, i, h')
    requires p in h' && NodeOk(h', p) && Kids(h', p) == WithoutRow(Kids(h, p), i)
    ensures Pruned(h0, p, listing, i, h')
  {
    var s := Kids(h0, p);
    RowUntouched(h0, p, listing, i, h);
    SameSubtree(h0, p, listing, i, h);
    VanishedStep(h0, s, listing, i);
    RowSplit(s, i, Survivors(h0, s[i + 1..], listing));
    assert h'[p] == Unhooked(h, p, i, p);
    forall m | m in h' && m != p
      ensures Kept(h0, p, listing, i, h', m)
    {
      KeptAfterRemoving(h0, p, listing, i, h, h', m);
    }
  }

  lemma {:induction false} PruneByUpdating(h0: Heap, p: Ref, listing: Listing, i: int, h: Heap, h': Heap)
    requires Shape(h0) && Shape(h) && p in h0 && NodeOk(h0, p) && 0 <= i < |h0[p].childNodes|
    requires Pruned(h0, p, listing, i + 1, h)
    requires Listed(listing, h0[h0[p].childNodes[i]].data.fileName)
    requires var k := h0[p].childNodes[i];
      k in h && h' == h[k := h[k].(data := listing[LastIndex(listing, h0[k].data.fileName)])]
    ensures Pruned(h0, p, listing, i, h')
  {
    var s := Kids(h0, p);
    var k := s[i];
    RowUntouched(h0, p, listing, i, h);
    VanishedStep(h0, s, listing, i);
    RowSplit(s, i, Survivors(h0, s[i + 1..], listing));
    assert NodeOk(h', p);
    forall m | m in h' && m != p
      ensures Kept(h0, p, listing, i, h', m)
    {
      assert Kept(h0, p, listing, i + 1, h, m);
      assert LinkOk(h0, m);
    }
  }

  // ----- Second pass: append what is new -----

  /** The children of `p` are alive and in rows without a gap. */
  ghost predicate Holding(h: Heap, p: Ref)
    requires p in h
  {
    Dense(h[p].childNodes) && forall r :: r in h[p].childNodes ==> h[p].childNodes[r] in h
  }

  /** Every child of `p` claims the row it is held in, as far as a short can say it. */
  ghost predicate RowsNumbered(h: Heap, p: Ref)
    requires p in h && Holding(h, p)
  {
    forall r :: r in h[p].childNodes ==> h[h[p].childNodes[r]].onRow == ToShort(r)
  }

  /** The heap after one new node per entry of `added` was appended to the rows of `p`. */
  ghost predicate Grown(h1: Heap, next: Ref, p: Ref, added: Listing, h: Heap)
    requires p in h1 && NodeOk(h1, p)
  {
    var s := Kids(h1, p);
    && (forall k :: k in h <==> k in h1 || next <= k < next + |added|)
    && (forall m {:trigger h[m]} :: m in h1 && m != p ==> h[m] == h1[m])
    && h[p] == h1[p].(childNodes := h[p].childNodes)
    && Dense(h[p].childNodes) && KidSeq(h[p].childNodes) == s + Range(next, |added|)
    && forall k {:trigger h[k]} :: next <= k < next + |added| ==>
         h[k] == NetDirNode(added[k - next], map[], Some(p), ToShort(|s| + (k - next)))
  }

  /** The heap when the first `i` entries of the listing have been looked at. */
  ghost predicate Extended(h1: Heap, next: Ref, p: Ref, listing: Listing, i: int, h: Heap)
    requires p in h1 && NodeOk(h1, p) && 0 <= i <= |listing|
  {
    Grown(h1, next, p, NewEntries(listing[..i], NamesOf(h1, Kids(h1, p))), h)
  }

  lemma {:induction false} ExtendedStart(h1: Heap, next: Ref, p: Ref, listing: Listing)
    requires p in h1 && NodeOk(h1, p)
    ensures Extended(h1, next, p, listing, 0, h1)
  {
    assert Kids(h1, p) + Range(next, 0) == Kids(h1, p);
  }

  lemma {:induction false} ExtendedHolding(h1: Heap, next: Ref, p: Ref, listing: Listing, i: int, h: Heap)
    requires p in h1 && NodeOk(h1, p) && 0 <= i <= |listing|
    requires (forall n :: n in h1 ==> n < next) && Extended(h1, next, p, listing, i, h)
    ensures p in h && Holding(h, p) && RowsNumbered(h, p)
  {
    var s := Kids(h1, p);
    var added := NewEntries(listing[..i], NamesOf(h1, s));
    forall r | r in h[p].childNodes
      ensures var k := h[p].childNodes[r]; k in h && h[k].onRow == ToShort(r)
    {
      assert h[p].childNodes[r] == KidSeq(h[p].childNodes)[r] == (s + Range(next, |added|))[r];
      assert r < |s| ==> h1[p].childNodes[r] == s[r];
    }
  }

  lemma {:induction false} RowNameTaken(h1: Heap, next: Ref, p: Ref, listing: Listing, i: int, h: Heap, r: int)
    requires p in h1 && NodeOk(h1, p) && 0 <= i <= |listing|
    requires (forall n :: n in h1 ==> n < next) && Extended(h1, next, p, listing, i, h) && Holding(h, p)
    requires r in h[p].childNodes
    ensures var have := NamesOf(h1, Kids(h1, p));
      var name := h[h[p].childNodes[r]].data.fileName;
      name in have || name in EntryNames(NewEntries(listing[..i], have))
  {
    var s := Kids(h1, p);
    var added := NewEntries(listing[..i], NamesOf(h1, s));
    var k := h[p].childNodes[r];
    assert k == KidSeq(h[p].childNodes)[r] == (s + Range(next, |added|))[r];
    if r < |s| {
      assert s[r] == k == h1[p].childNodes[r];
      assert NamesOf(h1, s)[r] == h[k].data.fileName;
    } else {
      assert EntryNames(added)[k - next] == h[k].data.fileName;
    }
  }

  lemma {:induction false} TakenNameHasRow(h1: Heap, next: Ref, p: Ref, listing: Listing, i: int, h: Heap,
      name: string) returns (r: int)
    requires p in h1 && NodeOk(h1, p) && 0 <= i <= |listing|
    requires (forall n :: n in h1 ==> n < next) && Extended(h1, next, p, listing, i, h) && Holding(h, p)
    requires var have := NamesOf(h1, Kids(h1, p));
      name in have || name in EntryNames(NewEntries(listing[..i], have))
    ensures r in h[p].childNodes && h[h[p].childNodes[r]].data.fileName == name
  {
    var s := Kids(h1, p);
    var have := NamesOf(h1, s);
    var added := NewEntries(listing[..i], have);
    if name in have {
      r :| 0 <= r < |s| && have[r] == name;
      assert h1[p].childNodes[r] == s[r];
      assert h[p].childNodes[r] == KidSeq(h[p].childNodes)[r] == (s + Range(next, |added|))[r] == s[r];
    } else {
      var j :| 0 <= j < |added| && EntryNames(added)[j] == name;
      r := |s| + j;
      assert h[p].childNodes[r] == KidSeq(h[p].childNodes)[r] == (s + Range(next, |added|))[r] == next + j;
    }
  }

  lemma {:induction false} ExtendBySkipping(h1: Heap, next: Ref, p: Ref, listing: Listing, i: int, h: Heap)
    requires p in h1 && NodeOk(h1, p) && 0 <= i < |listing|
    requires Extended(h1, next, p, listing, i, h)
    requires var have := NamesOf(h1, Kids(h1, p));
      listing[i].fileName in have || listing[i].fileName in EntryNames(NewEntries(listing[..i], have))
    ensures Extended(h1, next, p, listing, i + 1, h)
  {
    assert listing[..i + 1][..i] == listing[..i];
  }

  lemma {:induction false} OneMoreEntry(listing: Listing, have: seq<string>, i: int)
    requires 0 <= i < |listing|
    requires listing[i].fileName !in have && listing[i].fileName !in EntryNames(NewEntries(listing[..i], have))
    ensures NewEntries(listing[..i + 1], have) == NewEntries(listing[..i], have) + [listing[i]]
  {
    assert listing[..i + 1][..i] == listing[..i];
  }

  lemma {:induction false} RangeMore(s: seq<Ref>, next: Ref, n: nat)
    ensures s + Range(next, n + 1) == s + Range(next, n) + [next + n]
  {
  }

  lemma {:induction false} GrownNode(h1: Heap, next: Ref, p: Ref, added: Listing, e: NodeData, h: Heap, m: Ref)
    requires p in h1 && NodeOk(h1, p) && p < next && p in h && Grown(h1, next, p, added, h)
    requires next <= m <= next + |added|
    ensures AppendedNode(h, p, next + |added|, e)[m]
         == NetDirNode((added + [e])[m - next], map[], Some(p), ToShort(|Kids(h1, p)| + (m - next)))
  {
    assert |h[p].childNodes| == |KidSeq(h[p].childNodes)| == |Kids(h1, p)| + |added|;
  }

  lemma {:induction false} GrowOne(h1: Heap, next: Ref, p: Ref, added: Listing, e: NodeData, h: Heap, h': Heap)
    requires p in h1 && NodeOk(h1, p) && (forall n :: n in h1 ==> n < next) && Grown(h1, next, p, added, h)
    requires var k := next + |added|;
      && h' == AppendedNode(h, p, k, e) && p in h'
      && Dense(h'[p].childNodes) && KidSeq(h'[p].childNodes) == KidSeq(h[p].childNodes) + [k]
    ensures Grown(h1, next, p, added + [e], h')
  {
    RangeMore(Kids(h1, p), next, |added|);
    forall m | next <= m < next + |added + [e]|
      ensures h'[m] == NetDirNode((added + [e])[m - next], map[], Some(p), ToShort(|Kids(h1, p)| + (m - next)))
    {
      GrownNode(h1, next, p, added, e, h, m);
    }
  }

  lemma {:induction false} ExtendByAppending(h1: Heap, next: Ref, p: Ref, listing: Listing, i: int, h: Heap, h': Heap)
    requires p in h1 && NodeOk(h1, p) && 0 <= i < |listing|
    requires (forall n :: n in h1 ==> n < next) && Extended(h1, next, p, listing, i, h)
    requires var have := NamesOf(h1, Kids(h1, p));
      var added := NewEntries(listing[..i], have);
      && listing[i].fileName !in have && listing[i].fileName !in EntryNames(added)
      && var k := next + |added|;
         && h' == AppendedNode(h, p, k, listing[i]) && p in h'
         && Dense(h'[p].childNodes) && KidSeq(h'[p].childNodes) == KidSeq(h[p].childNodes) + [k]
    ensures Extended(h1, next, p, listing, i + 1, h')
  {
    var have := NamesOf(h1, Kids(h1, p));
    OneMoreEntry(listing, have, i);
    GrowOne(h1, next, p, NewEntries(listing[..i], have), listing[i], h, h');
  }

  // ----- Both passes together -----

  /** `h` is `h0` after the listing of `p` was reconciled into it, new nodes numbered from `next`. */
  ghost predicate Reconciled(h0: Heap, next: Ref, p: Ref, listing: Listing, h: Heap)
    requires p in h0 && NodeOk(h0, p)
  {
    var s := Kids(h0, p);
    var stay := Survivors(h0, s, listing);
    var added := NewEntries(listing, NamesOf(h0, stay));
    && (forall k :: k in h <==> (k in h0 && k !in Vanished(h0, s, listing)) || next <= k < next + |added|)
    && (forall m {:trigger Kept(h0, p, listing, 0, h, m)} :: m in h0 && m in h && m != p ==>
         Kept(h0, p, listing, 0, h, m))
    && p in h && p in h0
    && h[p] == h0[p].(childNodes := h[p].childNodes,
                      data := h0[p].data.(prevFlag := h0[p].data.retrFlag, retrFlag := POP_NEWEST))
    && Dense(h[p].childNodes) && KidSeq(h[p].childNodes) == stay + Range(next, |added|)
    && (forall k {:trigger h[k]} :: next <= k < next + |added| ==>
         h[k].data == added[k - next] && h[k].childNodes == map[] && h[k].pNode == Some(p))
    && Holding(h, p) && RowsNumbered(h, p)
  }

  ghost function RowsAfter(h0: Heap, p: Ref, listing: Listing): nat
    requires p in h0 && NodeOk(h0, p)
  {
    var stay := Survivors(h0, Kids(h0, p), listing);
    |stay| + |NewEntries(listing, NamesOf(h0, stay))|
  }

  lemma {:induction false} PrunedKids(h0: Heap, p: Ref, listing: Listing, h1: Heap)
    requires p in h0 && NodeOk(h0, p) && Pruned(h0, p, listing, 0, h1)
    ensures Kids(h1, p) == Survivors(h0, Kids(h0, p), listing)
  {
    var s := Kids(h0, p);
    assert s[0..] == s && s[..0] == [];
  }

  lemma {:induction false} PrunedName(h0: Heap, p: Ref, listing: Listing, h1: Heap, r: nat)
    requires p in h0 && NodeOk(h0, p) && Pruned(h0, p, listing, 0, h1)
    requires r < |Survivors(h0, Kids(h0, p), listing)|
    ensures var k := Survivors(h0, Kids(h0, p), listing)[r];
      k in h0 && k in h1 && h1[k].data.fileName == h0[k].data.fileName
  {
    PrunedKids(h0, p, listing, h1);
    var k := Survivors(h0, Kids(h0, p), listing)[r];
    assert h1[p].childNodes[r] == Kids(h1, p)[r] == k;
    assert k != p;
    assert Kept(h0, p, listing, 0, h1, k);
  }

  lemma {:induction false} PrunedNames(h0: Heap, root: Ref, next: Ref, p: Ref, listing: Listing, h1: Heap)
    requires Tree(h0, root, next) && p in h0 && NodeOk(h0, p)
    requires Pruned(h0, p, listing, 0, h1)
    ensures var stay := Survivors(h0, Kids(h0, p), listing);
      Kids(h1, p) == stay && NamesOf(h1, stay) == NamesOf(h0, stay)
  {
    PrunedKids(h0, p, listing, h1);
    var stay := Survivors(h0, Kids(h0, p), listing);
    forall r: nat | r < |stay|
      ensures NamesOf(h1, stay)[r] == NamesOf(h0, stay)[r]
    {
      PrunedName(h0, p, listing, h1, r);
    }
  }

  lemma {:induction false} KeptThroughBoth(h0: Heap, root: Ref, next: Ref, p: Ref, listing: Listing, h1: Heap,
      h: Heap, m: Ref)
    requires Tree(h0, root, next) && p in h0 && NodeOk(h0, p) && Pruned(h0, p, listing, 0, h1)
    requires m in h0 && m in h && m != p && (m in h1 ==> h[m] == h1[m]) && (m in h ==> m in h1 || next <= m)
    ensures Kept(h0, p, listing, 0, h, m)
  {
    assert m in h1;
    assert Kept(h0, p, listing, 0, h1, m);
  }

  lemma {:induction false} SameRows(h: Heap, p: Ref, h': Heap)
    requires p in h && Holding(h, p) && RowsNumbered(h, p) && h'.Keys == h.Keys && h'[p].childNodes == h[p].childNodes
    requires forall k :: k in h ==> h'[k].onRow == h[k].onRow
    ensures Holding(h', p) && RowsNumbered(h', p)
  {
  }

  lemma {:induction false} PassesReconcile(h0: Heap, root: Ref, next: Ref, p: Ref, listing: Listing, h1: Heap,
      h2: Heap, h: Heap)
    requires Tree(h0, root, next) && p in h0 && NodeOk(h0, p)
    requires Pruned(h0, p, listing, 0, h1) && Extended(h1, next, p, listing, |listing|, h2)
    requires p in h2
    requires h == h2[p := h2[p].(data := h2[p].data.(prevFlag := h2[p].data.retrFlag, retrFlag := POP_NEWEST))]
    ensures Reconciled(h0, next, p, listing, h)
  {
    var s := Kids(h0, p);
    PrunedNames(h0, root, next, p, listing, h1);
    ExtendedHolding(h1, next, p, listing, |listing|, h2);
    assert s[0..] == s && listing[..|listing|] == listing;
    forall m | m in h0 && m in h && m != p
      ensures Kept(h0, p, listing, 0, h, m)
    {
      KeptThroughBoth(h0, root, next, p, listing, h1, h, m);
    }
    SameRows(h2, p, h);
  }
}
