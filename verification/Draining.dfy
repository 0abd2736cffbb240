// Why the conversation between the two threads comes to rest when the user leaves it alone.

module Draining {
  import opened Options
  import opened NodeHeap
  import opened Reconciling
  import opened FetchProtocol
  import opened ProtocolFacts

  // ----- What is left to do -----

  /** What a READDIR of `n` can come to, counted in steps over the tree `h` of nodes below `next`: its own,
      and what its listing can cause by resetting the flags of its children. */
  function Cost(h: Heap, next: Ref, n: Ref): nat
    decreases if n < next then next - n else 0, next + 1
  {
    5 + KidCost(h, next, n, next)
  }

  /** The part of the children of `n` below `m`. */
  function KidCost(h: Heap, next: Ref, n: Ref, m: Ref): nat
    requires m <= next
    decreases if n < next then next - n else 0, m
  {
    if m <= n + 1 then 0
    else KidCost(h, next, n, m - 1) + if m - 1 in h && h[m - 1].pNode == Some(n) then Cost(h, next, m - 1) else 0
  }

  predicate Wants(h: Heap, n: Ref) {
    n in h && WantsFetch(h[n].data.retrFlag)
  }

  /** What the raised flags of `h` can still come to. */
  function FlagCost(h0: Heap, next: Ref, h: Heap, m: Ref): nat {
    if m == 0 then 0 else FlagCost(h0, next, h, m - 1) + if Wants(h, m - 1) then Cost(h0, next, m - 1) else 0
  }

  function CmdCost(h0: Heap, next: Ref, c: Cmd): nat {
    if c.kind == ReadDir then Cost(h0, next, c.node)
    else if Mutating(c.kind) then Cost(h0, next, c.node) + 4
    else 4
  }

  function QueueCost(h0: Heap, next: Ref, q: seq<Cmd>): nat {
    if q == [] then 0 else CmdCost(h0, next, q[0]) + QueueCost(h0, next, q[1..])
  }

  function SignalCost(h0: Heap, next: Ref, sig: Signal): nat {
    if sig.Retrieved? then KidCost(h0, next, sig.node, next) + 1 else 1
  }

  function SignalsCost(h0: Heap, next: Ref, sigs: seq<Signal>): nat {
    if sigs == [] then 0 else SignalCost(h0, next, sigs[0]) + SignalsCost(h0, next, sigs[1..])
  }

  function PhaseCost(p: Phase): nat {
    match p case Ready => 0 case Executed(_) => 3 case Notified => 1
  }

  /** The work left in `s`, measured on the tree `h0` in which the user left things. */
  function Work(h0: Heap, next: Ref, s: Sys): nat {
    QueueCost(h0, next, Waiting(s)) + SignalsCost(h0, next, s.signals) + PhaseCost(s.phase)
    + FlagCost(h0, next, s.heap, next)
  }

  // ----- Sums -----

  lemma {:induction false} QueueCostAppend(h0: Heap, next: Ref, q: seq<Cmd>, c: Cmd)
    ensures QueueCost(h0, next, q + [c]) == QueueCost(h0, next, q) + CmdCost(h0, next, c)
    decreases |q|
  {
    if q == [] {
      assert [c][1..] == [];
    } else {
      QueueCostAppend(h0, next, q[1..], c);
      assert (q + [c])[1..] == q[1..] + [c];
    }
  }

  lemma {:induction false} SignalsCostAppend(h0: Heap, next: Ref, sigs: seq<Signal>, sig: Signal)
    ensures SignalsCost(h0, next, sigs + [sig]) == SignalsCost(h0, next, sigs) + SignalCost(h0, next, sig)
    decreases |sigs|
  {
    if sigs == [] {
      assert [sig][1..] == [];
    } else {
      SignalsCostAppend(h0, next, sigs[1..], sig);
      assert (sigs + [sig])[1..] == sigs[1..] + [sig];
    }
  }

  lemma {:induction false} FlagsLower(h0: Heap, next: Ref, h: Heap, h': Heap, m: Ref)
    requires forall k: Ref :: k < m && Wants(h', k) ==> Wants(h, k)
    ensures FlagCost(h0, next, h', m) <= FlagCost(h0, next, h, m)
    decreases m
  {
    if m > 0 {
      FlagsLower(h0, next, h, h', m - 1);
    }
  }

  /** A flag taken back pays for the READDIR it asked for. */
  lemma {:induction false} FlagDrops(h0: Heap, next: Ref, h: Heap, h': Heap, n: Ref, m: Ref)
    requires n < m && Wants(h, n) && !Wants(h', n)
    requires forall k: Ref :: k < m && Wants(h', k) ==> Wants(h, k)
    ensures FlagCost(h0, next, h', m) + Cost(h0, next, n) <= FlagCost(h0, next, h, m)
    decreases m
  {
    if n == m - 1 {
      FlagsLower(h0, next, h, h', m - 1);
    } else {
      FlagDrops(h0, next, h, h', n, m - 1);
    }
  }

  /** Raising flags of children of `n` only costs what the children of `n` cost. */
  lemma {:induction false} KidFlagsRise(h0: Heap, next: Ref, h: Heap, h': Heap, n: Ref, m: Ref)
    requires m <= next
    requires forall k: Ref :: k < m && Wants(h', k) ==> Wants(h, k) || (n < k && k in h0 && h0[k].pNode == Some(n))
    ensures FlagCost(h0, next, h', m) <= FlagCost(h0, next, h, m) + KidCost(h0, next, n, m)
    decreases m
  {
    if m > 0 {
      KidFlagsRise(h0, next, h, h', n, m - 1);
    }
  }

  // ----- The drain -----

  /** A delivery or a step of the retriever: nobody clicks, and no view asks. */
  ghost predicate DrainStep(s: Sys, s': Sys) {
    RetrieverStep(s, s') || DeliverListing(s, s') || DeliverFinished(s, s')
  }

  /** Everything queued or under way concerns a node allocated before `next`. */
  ghost predicate TargetsBelow(s: Sys, next: Ref) {
    && (s.phase.Ready? || s.queue != [])
    && (forall i :: 0 <= i < |s.queue| ==> s.queue[i].node < next)
    && (forall i :: 0 <= i < |s.signals| ==> s.signals[i].node < next)
  }

  /** The old nodes still in `h` have the parents they had in `h0`. */
  ghost predicate Inherits(h0: Heap, next: Ref, h: Heap) {
    forall n :: n in h && n < next ==> n in h0 && h0[n].pNode == h[n].pNode
  }

  ghost predicate Since(h0: Heap, next: Ref, s: Sys) {
    Tree(s.heap, s.root, s.next) && next <= s.next && Inherits(h0, next, s.heap) && TargetsBelow(s, next)
  }

  lemma {:induction false} AddNodeWork(h0: Heap, next: Ref, s: Sys, n: Ref, token: Token)
    requires (s.phase.Ready? || s.queue != []) && n in s.heap && n < next
    ensures var s' := AddNode(s, n, token);
      Work(h0, next, s') <= Work(h0, next, s) + if Wants(s.heap, n) then 0 else Cost(h0, next, n)
  {
    var s' := AddNode(s, n, token);
    assert Waiting(s') == Waiting(s) + [Cmd(n, token, ReadDir)];
    QueueCostAppend(h0, next, Waiting(s), Cmd(n, token, ReadDir));
    if Wants(s.heap, n) {
      FlagDrops(h0, next, s.heap, s'.heap, n, next);
    } else {
      FlagsLower(h0, next, s.heap, s'.heap, next);
    }
  }

  lemma {:induction false} ExecWork(h0: Heap, next: Ref, s: Sys, s': Sys, listing: Listing, ok: bool)
    requires ExecStep(s, s', listing, ok) && TargetsBelow(s, next)
    ensures Work(h0, next, s') < Work(h0, next, s)
  {
    var c := s.queue[0];
    if c.kind == ReadDir {
      SignalsCostAppend(h0, next, s.signals, Retrieved(c.node, c.token, listing));
    } else if Mutating(c.kind) {
      assert Waiting(s') == s.queue[1..] + [Cmd(c.node, c.token, ReadDir)];
      QueueCostAppend(h0, next, s.queue[1..], Cmd(c.node, c.token, ReadDir));
      FlagsLower(h0, next, s.heap, s'.heap, next);
    }
  }

  lemma {:induction false} RetrieverWork(h0: Heap, next: Ref, s: Sys, s': Sys)
    requires RetrieverStep(s, s') && TargetsBelow(s, next)
    ensures Work(h0, next, s') < Work(h0, next, s)
  {
    if listing, ok :| ExecStep(s, s', listing, ok) {
      ExecWork(h0, next, s, s', listing, ok);
    } else if NotifyStep(s, s') {
      var c := s.queue[0];
      SignalsCostAppend(h0, next, s.signals, Finished(c.node, c.token, c.kind, s.phase.ok));
    }
  }

  lemma {:induction false} FinishedWork(h0: Heap, next: Ref, s: Sys, s': Sys)
    requires DeliverFinished(s, s') && TargetsBelow(s, next)
    ensures Work(h0, next, s') < Work(h0, next, s)
  {
    var sig := s.signals[0];
    var rest := s.(signals := s.signals[1..]);
    assert Work(h0, next, rest) + 1 == Work(h0, next, s);
    if sig.kind == RealPath {
      var n := sig.node;
      var d := s.heap[n].data;
      var linked := rest.(heap := WithData(s.heap, n, d.(linkToDir := true)));
      FlagsLower(h0, next, s.heap, linked.heap, next);
      FlagsLower(h0, next, s.heap, WithData(s.heap, n, SetFlags(d, POP_NEWEST, d.retrFlag)), next);
      AddNodeWork(h0, next, linked, n, sig.token);
    }
  }

  /** Whatever a listing raises belongs to a child of the node it was read for. */
  lemma {:induction false} RaisedIsChild(h0: Heap, next: Ref, a: Heap, root: Ref, now: Ref, n: Ref, listing: Listing,
      h: Heap, k: Ref)
    requires Tree(a, root, now) && next <= now && Inherits(h0, next, a) && n in a && NodeOk(a, n)
    requires Reconciled(a, now, n, listing, h) && k < next && Wants(h, k)
    ensures Wants(a, k) || (n < k && k in h0 && h0[k].pNode == Some(n))
  {
    if k != n {
      assert Kept(a, n, listing, 0, h, k);
      assert LinkOk(a, k);
    }
  }

  /** The state between the two halves of a delivery: the view has been asked for the number of rows. */
  function AskedFirst(s: Sys, n: Ref): Sys
    requires n in s.heap
  {
    if Wants(s.heap, n) then AddNode(s, n, s.nextToken).(nextToken := s.nextToken + 1) else s
  }

  lemma {:induction false} AskedWork(h0: Heap, next: Ref, s: Sys, n: Ref)
    requires (s.phase.Ready? || s.queue != []) && n in s.heap && n < next
    ensures Work(h0, next, AskedFirst(s, n)) <= Work(h0, next, s)
  {
    AddNodeWork(h0, next, s, n, s.nextToken);
  }

  lemma {:induction false} ListingFlags(h0: Heap, next: Ref, s: Sys, s': Sys)
    requires DeliverListing(s, s') && Since(h0, next, s)
    ensures var n := s.signals[0].node;
      FlagCost(h0, next, s'.heap, next) <= FlagCost(h0, next, AskedFirst(s, n).heap, next) + KidCost(h0, next, n, next)
  {
    var n := s.signals[0].node;
    var a := AskedFirst(s, n).heap;
    DataIsTree(s.heap, s.root, s.next, n, Updating(s.heap[n].data));
    forall k: Ref | k < next && Wants(s'.heap, k)
      ensures Wants(a, k) || (n < k && k in h0 && h0[k].pNode == Some(n))
    {
      RaisedIsChild(h0, next, a, s.root, s.next, n, s.signals[0].listing, s'.heap, k);
    }
    KidFlagsRise(h0, next, a, s'.heap, n, next);
  }

  lemma {:induction false} ListingQueue(s: Sys, s': Sys)
    requires DeliverListing(s, s')
    ensures var asked := AskedFirst(s, s.signals[0].node);
      && Waiting(s') == Waiting(asked) && s'.phase == asked.phase
      && s'.signals == s.signals[1..] && asked.signals == s.signals
  {
  }

  lemma {:induction false} ListingWork(h0: Heap, next: Ref, s: Sys, s': Sys)
    requires DeliverListing(s, s') && Since(h0, next, s)
    ensures Work(h0, next, s') < Work(h0, next, s)
  {
    AskedWork(h0, next, s, s.signals[0].node);
    ListingFlags(h0, next, s, s');
    ListingQueue(s, s');
  }

  /** Every delivery and every step of the retriever leaves less to do. */
  lemma {:induction false} DrainProgress(h0: Heap, next: Ref, s: Sys, s': Sys)
    requires DrainStep(s, s') && Since(h0, next, s)
    ensures Work(h0, next, s') < Work(h0, next, s)
  {
    if RetrieverStep(s, s') {
      RetrieverWork(h0, next, s, s');
    } else if DeliverListing(s, s') {
      ListingWork(h0, next, s, s');
    } else {
      FinishedWork(h0, next, s, s');
    }
  }

  // ----- What the drain keeps -----

  lemma {:induction false} DrainInherits(h0: Heap, next: Ref, s: Sys, s': Sys)
    requires DrainStep(s, s') && Tree(s.heap, s.root, s.next) && next <= s.next && Inherits(h0, next, s.heap)
    ensures Inherits(h0, next, s'.heap) && next <= s'.next
  {
    if DeliverListing(s, s') {
      var n := s.signals[0].node;
      var a := Asked(s.heap, n);
      forall m | m in s'.heap && m < next
        ensures m in h0 && h0[m].pNode == s'.heap[m].pNode
      {
        assert m != n ==> Kept(a, n, s.signals[0].listing, 0, s'.heap, m);
      }
    } else {
      var n, d := ChangedData(s, s');
    }
  }

  lemma {:induction false} RetrieverTargetsBelow(s: Sys, s': Sys, next: Ref)
    requires RetrieverStep(s, s') && TargetsBelow(s, next)
    ensures TargetsBelow(s', next)
  {
    var c := s.queue[0];
    if listing, ok :| ExecStep(s, s', listing, ok) {
      assert s'.signals == s.signals || s'.signals == s.signals + [Retrieved(c.node, c.token, listing)];
    } else if NotifyStep(s, s') {
      assert s'.signals == s.signals + [Finished(c.node, c.token, c.kind, s.phase.ok)];
    }
  }

  lemma {:induction false} DeliveryTargetsBelow(s: Sys, s': Sys, next: Ref)
    requires (DeliverListing(s, s') || DeliverFinished(s, s')) && TargetsBelow(s, next)
    ensures TargetsBelow(s', next)
  {
    GuiGrowsQueue(s, s');
    var n := s.signals[0].node;
    assert s'.signals == s.signals[1..];
    assert s'.queue != s.queue ==> s'.queue[|s.queue|].node == n;
  }

  lemma {:induction false} DrainKeepsSince(h0: Heap, next: Ref, s: Sys, s': Sys)
    requires DrainStep(s, s') && Since(h0, next, s)
    ensures Since(h0, next, s')
  {
    StepKeepsTree(s, s');
    DrainInherits(h0, next, s, s');
    if RetrieverStep(s, s') {
      RetrieverTargetsBelow(s, s', next);
    } else {
      DeliveryTargetsBelow(s, s', next);
    }
  }

  ghost predicate Drains(drain: seq<Sys>) {
    forall i {:trigger DrainStep(drain[i - 1], drain[i])} :: 0 < i < |drain| ==> DrainStep(drain[i - 1], drain[i])
  }

  lemma {:induction false} DrainFront(drain: seq<Sys>)
    requires |drain| > 1 && Drains(drain)
    ensures Drains(drain[..|drain| - 1]) && DrainStep(drain[|drain| - 2], drain[|drain| - 1])
  {
    var n := |drain| - 1;
    assert DrainStep(drain[n - 1], drain[n]);
    var front := drain[..n];
    forall i | 0 < i < |front|
      ensures DrainStep(front[i - 1], front[i])
    {
      assert DrainStep(drain[i - 1], drain[i]);
    }
  }

  lemma {:induction false} DrainMore(h0: Heap, next: Ref, s: Sys, s': Sys)
    requires DrainStep(s, s') && Since(h0, next, s)
    ensures Since(h0, next, s') && Work(h0, next, s') < Work(h0, next, s)
  {
    DrainKeepsSince(h0, next, s, s');
    DrainProgress(h0, next, s, s');
  }

  lemma {:induction false} DrainBounded(h0: Heap, next: Ref, drain: seq<Sys>)
    requires drain != [] && Since(h0, next, drain[0]) && Drains(drain)
    ensures Since(h0, next, drain[|drain| - 1])
    ensures |drain| - 1 + Work(h0, next, drain[|drain| - 1]) <= Work(h0, next, drain[0])
    decreases |drain|
  {
    if |drain| > 1 {
      DrainFront(drain);
      DrainBounded(h0, next, drain[..|drain| - 1]);
      DrainMore(h0, next, drain[|drain| - 2], drain[|drain| - 1]);
    }
  }

  // ----- From any state of any run -----

  lemma {:induction false} RequestTargetsBelow(s: Sys, s': Sys)
    requires Tree(s.heap, s.root, s.next) && TargetsBelow(s, s.next)
    requires !DeliverListing(s, s') && !DeliverFinished(s, s')
    requires QuietGuiStep(s, s') || exists m, name :: RenameStep(s, s', m, name)
    ensures TargetsBelow(s', s.next) && s'.next == s.next
  {
    GuiGrowsQueue(s, s');
    if s'.queue != s.queue {
      assert s'.queue[|s.queue|].node in s.heap;
    }
  }

  lemma {:induction false} StepTargetsBelow(s: Sys, s': Sys)
    requires Tree(s.heap, s.root, s.next) && TargetsBelow(s, s.next) && Next(s, s')
    ensures TargetsBelow(s', s'.next)
  {
    if RetrieverStep(s, s') {
      RetrieverTargetsBelow(s, s', s.next);
    } else if DeliverListing(s, s') {
      DeliveryTargetsBelow(s, s', s.next);
      DeliveredQueue(s, s');
    } else if DeliverFinished(s, s') {
      DeliveryTargetsBelow(s, s', s.next);
    } else {
      RequestTargetsBelow(s, s');
    }
  }

  lemma {:induction false} RunStep(states: seq<Sys>, i: nat)
    requires Run(states) && 0 < i < |states|
    ensures Next(states[i - 1], states[i]) && Tree(states[i - 1].heap, states[i - 1].root, states[i - 1].next)
  {
    RunIsJustified(states, i - 1);
  }

  lemma {:induction false} RunTargetsBelow(states: seq<Sys>, i: nat)
    requires Run(states) && i < |states|
    ensures TargetsBelow(states[i], states[i].next)
  {
    if i > 0 {
      RunTargetsBelow(states, i - 1);
      RunStep(states, i);
      StepTargetsBelow(states[i - 1], states[i]);
    }
  }

  /** From any state of any run, deliveries and retriever steps alone come to an end, within a bound given
      by that state. */
  lemma {:induction false} RunDrains(states: seq<Sys>, i: nat, drain: seq<Sys>)
    requires Run(states) && i < |states| && drain != [] && drain[0] == states[i] && Drains(drain)
    ensures |drain| - 1 <= Work(states[i].heap, states[i].next, states[i])
  {
    RunIsJustified(states, i);
    RunTargetsBelow(states, i);
    DrainBounded(states[i].heap, states[i].next, drain);
  }
}
