// More about every run of the fetch protocol: ownership of index tokens, follow-up reads,
// progress of the retriever, stored paths, and the one way a command can outlive its node.

module ProtocolFacts {
  import opened Options
  import opened NodeHeap
  import opened Reconciling
  import opened ReconcileFacts
  import opened PathLookup
  import opened Paths
  import opened ListSpec
  import opened FetchProtocol
  import opened HomePath

  // ----- Tokens are freed at most once and never used afterwards -----

  function CmdCount(q: seq<Cmd>, t: Token): nat {
    if q == [] then 0 else (if q[0].token == t then 1 else 0) + CmdCount(q[1..], t)
  }

  lemma {:induction false} CmdCountAppend(q: seq<Cmd>, c: Cmd, t: Token)
    ensures CmdCount(q + [c], t) == CmdCount(q, t) + if c.token == t then 1 else 0
    decreases |q|
  {
    if q == [] {
      assert [c][1..] == [];
    } else {
      CmdCountAppend(q[1..], c, t);
      assert (q + [c])[1..] == q[1..] + [c];
    }
  }

  /** The deliveries that read the token they carry. */
  predicate Reads(sig: Signal) {
    sig.Retrieved? || sig.kind == RealPath
  }

  function SignalCount(sigs: seq<Signal>, t: Token): nat {
    if sigs == [] then 0 else (if Reads(sigs[0]) && sigs[0].token == t then 1 else 0) + SignalCount(sigs[1..], t)
  }

  lemma {:induction false} SignalCountAppend(sigs: seq<Signal>, sig: Signal, t: Token)
    ensures SignalCount(sigs + [sig], t) == SignalCount(sigs, t) + if Reads(sig) && sig.token == t then 1 else 0
    decreases |sigs|
  {
    if sigs == [] {
      assert ([sig])[1..] == [];
    } else {
      SignalCountAppend(sigs[1..], sig, t);
      assert (sigs + [sig])[1..] == sigs[1..] + [sig];
    }
  }

  function TokenCount(freed: seq<Token>, t: Token): nat {
    if freed == [] then 0 else TokenCount(freed[..|freed| - 1], t) + if freed[|freed| - 1] == t then 1 else 0
  }

  lemma {:induction false} TokenCountOnce(freed: seq<Token>, a: int)
    requires 0 <= a < |freed|
    ensures TokenCount(freed, freed[a]) >= 1
    decreases |freed|
  {
    if a < |freed| - 1 {
      TokenCountOnce(freed[..|freed| - 1], a);
    }
  }

  lemma {:induction false} TokenCountTwice(freed: seq<Token>, a: int, b: int)
    requires 0 <= a < b < |freed| && freed[a] == freed[b]
    ensures TokenCount(freed, freed[a]) >= 2
    decreases |freed|
  {
    var front := freed[..|freed| - 1];
    if b == |freed| - 1 {
      TokenCountOnce(front, a);
    } else {
      TokenCountTwice(front, a, b);
    }
  }

  /** A REALPATH under way still owns its token. */
  function HeadCount(s: Sys, t: Token): nat {
    if s.phase.Executed? && s.queue != [] && s.queue[0].kind == RealPath && s.queue[0].token == t then 1 else 0
  }

  /** How often `t` will still be read, plus how often it was freed. */
  function Account(s: Sys, t: Token): nat {
    CmdCount(Waiting(s), t) + SignalCount(s.signals, t) + HeadCount(s, t) + TokenCount(s.freed, t)
  }

  ghost predicate TokensOk(s: Sys) {
    && (s.phase.Ready? || s.queue != [])
    && forall t: Token :: Account(s, t) <= 1 && (Account(s, t) > 0 ==> t < s.nextToken)
  }

  /** The queue is as before or one command longer. */
  ghost predicate Grows(s: Sys, s': Sys) {
    && s'.phase == s.phase && s'.log == s.log && s'.nextToken >= s.nextToken
    && (s'.queue == s.queue || (|s'.queue| == |s.queue| + 1 && s'.queue == s.queue + [s'.queue[|s.queue|]]))
  }

  ghost predicate TakesFreshToken(s: Sys, s': Sys) {
    Grows(s, s') && (s'.queue != s.queue ==> s'.queue[|s.queue|].token == s.nextToken && s'.nextToken > s.nextToken)
  }

  lemma {:induction false} ListingGrowsQueue(s: Sys, s': Sys)
    requires DeliverListing(s, s')
    ensures TakesFreshToken(s, s')
  {
  }

  lemma {:induction false} FinishedGrowsQueue(s: Sys, s': Sys)
    requires DeliverFinished(s, s')
    ensures Grows(s, s')
  {
  }

  lemma {:induction false} FetchGrowsQueue(s: Sys, s': Sys, n: Ref)
    requires RowCountStep(s, s', n) || ClickStep(s, s', n) || RefreshStep(s, s', n)
    ensures TakesFreshToken(s, s') && s'.signals == s.signals && s'.freed == s.freed
  {
  }

  lemma {:induction false} GuiGrowsQueue(s: Sys, s': Sys)
    requires QuietGuiStep(s, s') || exists m, name :: RenameStep(s, s', m, name)
    ensures Grows(s, s')
    ensures DeliverListing(s, s') || DeliverFinished(s, s') || (s'.signals == s.signals && s'.freed == s.freed)
    ensures !DeliverFinished(s, s') ==> TakesFreshToken(s, s')
  {
    if DeliverListing(s, s') {
      ListingGrowsQueue(s, s');
    } else if DeliverFinished(s, s') {
      FinishedGrowsQueue(s, s');
    } else if n :| RowCountStep(s, s', n) || ClickStep(s, s', n) || RefreshStep(s, s', n) {
      FetchGrowsQueue(s, s', n);
    }
  }

  lemma {:induction false} PushCount(s: Sys, s': Sys, t: Token)
    requires (s.phase.Ready? || s.queue != []) && Grows(s, s')
    ensures HeadCount(s', t) == HeadCount(s, t) && (s'.phase.Ready? || s'.queue != [])
    ensures CmdCount(Waiting(s'), t) == CmdCount(Waiting(s), t) +
              if s'.queue != s.queue && s'.queue[|s.queue|].token == t then 1 else 0
  {
    if s'.queue != s.queue {
      assert Waiting(s') == Waiting(s) + [s'.queue[|s.queue|]];
      CmdCountAppend(Waiting(s), s'.queue[|s.queue|], t);
    }
  }

  function FreshCount(s: Sys, s': Sys, t: Token): nat {
    if s'.nextToken > s.nextToken && t == s.nextToken then 1 else 0
  }

  lemma {:induction false} ListingAccount(s: Sys, s': Sys, t: Token)
    requires (s.phase.Ready? || s.queue != []) && DeliverListing(s, s')
    ensures Account(s', t) <= Account(s, t) + FreshCount(s, s', t)
  {
    ListingGrowsQueue(s, s');
    PushCount(s, s', t);
    assert s'.freed[..|s'.freed| - 1] == s.freed;
  }

  lemma {:induction false} FinishedHandsOver(s: Sys, s': Sys)
    requires DeliverFinished(s, s')
    ensures s'.freed == s.freed && s'.signals == s.signals[1..] && s'.nextToken == s.nextToken
    ensures s'.queue != s.queue ==>
      Reads(s.signals[0]) && s'.queue == s.queue + [Cmd(s.signals[0].node, s.signals[0].token, ReadDir)]
  {
  }

  lemma {:induction false} FinishedAccount(s: Sys, s': Sys, t: Token)
    requires (s.phase.Ready? || s.queue != []) && DeliverFinished(s, s')
    ensures Account(s', t) <= Account(s, t)
  {
    FinishedGrowsQueue(s, s');
    PushCount(s, s', t);
    FinishedHandsOver(s, s');
  }

  /** A GUI step takes at most one token, freshly allocated, into account. */
  lemma {:induction false} GuiAccount(s: Sys, s': Sys, t: Token)
    requires s.phase.Ready? || s.queue != []
    requires QuietGuiStep(s, s') || exists m, name :: RenameStep(s, s', m, name)
    ensures s'.nextToken >= s.nextToken && (s'.phase.Ready? || s'.queue != [])
    ensures Account(s', t) <= Account(s, t) + FreshCount(s, s', t)
  {
    GuiGrowsQueue(s, s');
    PushCount(s, s', t);
    if DeliverListing(s, s') {
      ListingAccount(s, s', t);
    } else if DeliverFinished(s, s') {
      FinishedAccount(s, s', t);
    }
  }

  /** The retriever only passes tokens on. */
  lemma {:induction false} ExecAccount(s: Sys, s': Sys, listing: Listing, ok: bool, t: Token)
    requires ExecStep(s, s', listing, ok)
    ensures s'.nextToken == s.nextToken && s'.queue != [] && Account(s', t) == Account(s, t)
  {
    var c := s.queue[0];
    if c.kind == ReadDir {
      SignalCountAppend(s.signals, Retrieved(c.node, c.token, listing), t);
    } else if Mutating(c.kind) {
      CmdCountAppend(s.queue[1..], Cmd(c.node, c.token, ReadDir), t);
      assert Waiting(s') == s.queue[1..] + [Cmd(c.node, c.token, ReadDir)];
    }
  }

  lemma {:induction false} RetrieverAccount(s: Sys, s': Sys, t: Token)
    requires RetrieverStep(s, s')
    ensures s'.nextToken == s.nextToken && (s'.phase.Ready? || s'.queue != [])
    ensures Account(s', t) == Account(s, t)
  {
    if listing, ok :| ExecStep(s, s', listing, ok) {
      ExecAccount(s, s', listing, ok, t);
    } else if NotifyStep(s, s') {
      var c := s.queue[0];
      SignalCountAppend(s.signals, Finished(c.node, c.token, c.kind, s.phase.ok), t);
    }
  }

  lemma {:induction false} RunKeepsTokensOk(states: seq<Sys>, i: nat)
    requires Run(states) && i < |states|
    ensures TokensOk(states[i])
  {
    if i > 0 {
      RunKeepsTokensOk(states, i - 1);
      var s, s' := states[i - 1], states[i];
      assert Next(s, s');
      forall t: Token
        ensures Account(s', t) <= 1 && (Account(s', t) > 0 ==> t < s'.nextToken) && (s'.phase.Ready? || s'.queue != [])
      {
        assert Account(s, t) <= 1;
        if RetrieverStep(s, s') {
          RetrieverAccount(s, s', t);
        } else {
          GuiAccount(s, s', t);
        }
      }
      assert Account(s', 0) <= 1;
    }
  }

  /** In every run each token is freed at most once, and a delivery never reads a freed one. */
  lemma {:induction false} TokenSafety(states: seq<Sys>, i: nat)
    requires Run(states) && i < |states|
    ensures Distinct(states[i].freed)
    ensures states[i].signals != [] ==>
      var sig := states[i].signals[0];
      sig.Retrieved? || sig.kind == RealPath ==> sig.token !in states[i].freed
  {
    RunKeepsTokensOk(states, i);
    var s := states[i];
    forall a, b | 0 <= a < b < |s.freed|
      ensures s.freed[a] != s.freed[b]
    {
      assert Account(s, s.freed[a]) <= 1;
      if s.freed[a] == s.freed[b] {
        TokenCountTwice(s.freed, a, b);
      }
    }
    if s.signals != [] && Reads(s.signals[0]) {
      var t := s.signals[0].token;
      assert Account(s, t) <= 1;
      if t in s.freed {
        var a :| 0 <= a < |s.freed| && s.freed[a] == t;
        TokenCountOnce(s.freed, a);
      }
    }
  }

  // ----- Every change is followed by a fresh read -----

  ghost predicate ReadIn(q: seq<Cmd>, n: Ref) {
    exists j :: 0 <= j < |q| && q[j].kind == ReadDir && q[j].node == n
  }

  ghost predicate FollowedUp(s: Sys) {
    && (s.phase.Ready? || s.queue != [])
    && (!s.phase.Ready? && Mutating(s.queue[0].kind) ==> ReadIn(s.queue[1..], s.queue[0].node))
    && forall i :: 0 <= i < |s.log| && Mutating(s.log[i].kind) ==> ReadIn(s.log[i + 1..] + s.queue, s.log[i].node)
  }

  lemma {:induction false} ReadInMore(q: seq<Cmd>, q': seq<Cmd>, n: Ref)
    requires ReadIn(q, n) && q <= q'
    ensures ReadIn(q', n)
  {
    var j :| 0 <= j < |q| && q[j].kind == ReadDir && q[j].node == n;
    assert q'[j] == q[j];
  }

  /** No step of the GUI, and no execution, disturbs the follow-ups: the queue only grows. */
  lemma {:induction false} GrowingKeepsFollowedUp(s: Sys, s': Sys)
    requires FollowedUp(s) && s.queue <= s'.queue && s'.log == s.log && s'.phase == s.phase
    ensures FollowedUp(s')
  {
    if !s.phase.Ready? && Mutating(s.queue[0].kind) {
      assert s.queue[1..] <= s'.queue[1..];
      ReadInMore(s.queue[1..], s'.queue[1..], s.queue[0].node);
    }
    forall i | 0 <= i < |s.log| && Mutating(s.log[i].kind)
      ensures ReadIn(s'.log[i + 1..] + s'.queue, s'.log[i].node)
    {
      ReadInMore(s.log[i + 1..] + s.queue, s'.log[i + 1..] + s'.queue, s.log[i].node);
    }
  }

  lemma {:induction false} RetrieverKeepsFollowedUp(s: Sys, s': Sys)
    requires FollowedUp(s) && RetrieverStep(s, s')
    ensures FollowedUp(s')
  {
    if listing, ok :| ExecStep(s, s', listing, ok) {
      var c := s.queue[0];
      var a := s'.(phase := Ready);
      GrowingKeepsFollowedUp(s, a);
      if Mutating(c.kind) {
        assert s'.queue[1..] == s.queue[1..] + [Cmd(c.node, c.token, ReadDir)];
        assert s'.queue[1..][|s.queue| - 1] == Cmd(c.node, c.token, ReadDir);
      }
    } else if PopStep(s, s') {
      var c := s.queue[0];
      forall i | 0 <= i < |s'.log| && Mutating(s'.log[i].kind)
        ensures ReadIn(s'.log[i + 1..] + s'.queue, s'.log[i].node)
      {
        if i < |s.log| {
          assert s.log[i + 1..] + s.queue == s'.log[i + 1..] + s'.queue;
        } else {
          assert s'.log[i + 1..] + s'.queue == s.queue[1..];
        }
      }
    }
  }

  lemma {:induction false} RunKeepsFollowedUp(states: seq<Sys>, i: nat)
    requires Run(states) && i < |states|
    ensures FollowedUp(states[i])
  {
    if i > 0 {
      RunKeepsFollowedUp(states, i - 1);
      var s, s' := states[i - 1], states[i];
      assert Next(s, s');
      if RetrieverStep(s, s') {
        RetrieverKeepsFollowedUp(s, s');
      } else {
        GuiGrowsQueue(s, s');
        GrowingKeepsFollowedUp(s, s');
      }
    }
  }

  /** When the loop of run() ends, each change it made was followed by a READDIR of the same node. */
  lemma {:induction false} ChangeThenRead(states: seq<Sys>, i: nat, k: nat) returns (j: nat)
    requires Run(states) && i < |states| && states[i].queue == []
    requires k < |states[i].log|
    requires states[i].log[k].kind in {MkDir, RmDir, Remove, Rename}
    ensures k < j < |states[i].log|
    ensures states[i].log[j].kind == ReadDir && states[i].log[j].node == states[i].log[k].node
  {
    RunKeepsFollowedUp(states, i);
    var log := states[i].log;
    assert log[k + 1..] + [] == log[k + 1..];
    var d :| 0 <= d < |log[k + 1..]| && log[k + 1..][d].kind == ReadDir && log[k + 1..][d].node == log[k].node;
    j := k + 1 + d;
  }

  // ----- The loop of run() ends -----

  function Weight(q: seq<Cmd>): nat {
    if q == [] then 0 else (if Mutating(q[0].kind) then 2 else 1) + Weight(q[1..])
  }

  lemma {:induction false} WeightAppend(q: seq<Cmd>, c: Cmd)
    ensures Weight(q + [c]) == Weight(q) + if Mutating(c.kind) then 2 else 1
    decreases |q|
  {
    if q == [] {
      assert [c][1..] == [];
    } else {
      WeightAppend(q[1..], c);
      assert (q + [c])[1..] == q[1..] + [c];
    }
  }

  function Effort(s: Sys): nat {
    3 * Weight(Waiting(s)) + match s.phase case Ready => 0 case Executed(_) => 2 case Notified => 1
  }

  lemma {:induction false} RetrieverProgress(s: Sys, s': Sys)
    requires RetrieverStep(s, s')
    ensures Effort(s') < Effort(s)
  {
    if listing, ok :| ExecStep(s, s', listing, ok) {
      var c := s.queue[0];
      if Mutating(c.kind) {
        WeightAppend(s.queue[1..], Cmd(c.node, c.token, ReadDir));
        assert Waiting(s') == s.queue[1..] + [Cmd(c.node, c.token, ReadDir)];
      }
    }
  }

  /** Left alone, the retriever stops after at most three steps per unit of queued work. */
  lemma {:induction false} RetrieverTerminates(states: seq<Sys>)
    requires states != [] && forall i :: 0 < i < |states| ==> RetrieverStep(states[i - 1], states[i])
    ensures |states| - 1 + Effort(states[|states| - 1]) <= Effort(states[0])
    decreases |states|
  {
    if |states| > 1 {
      var front := states[..|states| - 1];
      RetrieverTerminates(front);
      RetrieverProgress(states[|states| - 2], states[|states| - 1]);
    }
  }

  // ----- Stored paths in every run without rename -----

  /** Any step but a rename. */
  ghost predicate QuietStep(s: Sys, s': Sys) {
    QuietGuiStep(s, s') || RetrieverStep(s, s')
  }

  ghost predicate QuietRun(states: seq<Sys>) {
    && states != [] && Init(states[0])
    && PathsOk(states[0].heap, states[0].root) && NamesUnique(states[0].heap)
    && forall i {:trigger QuietStep(states[i - 1], states[i])} ::
         0 < i < |states| ==> QuietStep(states[i - 1], states[i])
  }

  /** The state in which a session starts: the tree planted for its home path, and nothing asked for yet. */
  function Opened(home: string, base: Ref, h: Heap): Sys {
    Sys(h, base, base + ChainLength(Split(home), 1), [], Ready, [], 0, [], [])
  }

  /** What setting the home path leaves behind can start a run. */
  lemma {:induction false} HomeStartsRun(home: string, base: Ref, h: Heap)
    requires home != "" && home[0] == '/'
    requires HomeChain(home, Split(home), base, ChainLength(Split(home), 1), h)
    ensures QuietRun([Opened(home, base, h)]) && Run([Opened(home, base, h)])
  {
    var parts := Split(home);
    var m := ChainLength(parts, 1);
    ChainIsTree(home, parts, base, m, h);
    ChainPathsOk(home, parts, base, m, h);
    forall n | n in h
      ensures h[n].data.retrFlag != POP_UPDATING
    {
      assert h[n] == HomeNode(home, parts, base, m, n);
    }
  }

  /** Stored paths and names are right, and every listing under way was read at its node's path. */
  ghost predicate PathsRight(s: Sys) {
    && Tree(s.heap, s.root, s.next) && PathsOk(s.heap, s.root) && NamesUnique(s.heap)
    && (forall i :: 0 <= i < |s.queue| ==> s.queue[i].node < s.next)
    && forall i :: 0 <= i < |s.signals| ==>
         && s.signals[i].node < s.next
         && (s.signals[i].Retrieved? && s.signals[i].node in s.heap ==>
               EntriesOf(s.signals[i].listing, s.heap[s.signals[i].node].data.fullPath))
  }

  /** Overwriting flags, or anything but name and path, leaves both invariants alone. */
  lemma {:induction false} FlagsKeepPaths(h: Heap, root: Ref, next: Ref, n: Ref, d: NodeData)
    requires Tree(h, root, next) && PathsOk(h, root) && NamesUnique(h) && n in h
    requires d.fullPath == h[n].data.fullPath && d.fileName == h[n].data.fileName
    ensures var h' := WithData(h, n, d); Tree(h', root, next) && PathsOk(h', root) && NamesUnique(h')
  {
    var h' := WithData(h, n, d);
    DataIsTree(h, root, next, n, d);
    forall m | m in h'
      ensures PathOk(h', m)
    {
      assert PathOk(h, m);
    }
    forall m | m in h' && NodeOk(h', m)
      ensures Distinct(Shown(h', m))
    {
      assert NodeOk(h, m);
      assert Shown(h', m) == Shown(h, m);
    }
  }

  lemma {:induction false} QuietChange(s: Sys, s': Sys) returns (n: Ref, d: NodeData)
    requires QuietGuiStep(s, s') || RetrieverStep(s, s')
    requires !DeliverListing(s, s')
    ensures s'.root == s.root && s'.next == s.next
    ensures s'.heap == s.heap ||
            (n in s.heap && s'.heap == WithData(s.heap, n, d)
             && d.fullPath == s.heap[n].data.fullPath && d.fileName == s.heap[n].data.fileName)
  {
    n, d := 0, FRESH_DATA;
    if k :| RowCountStep(s, s', k) {
      n, d := k, s'.heap[k].data;
    } else if k :| ClickStep(s, s', k) {
      n, d := k, s'.heap[k].data;
    } else if k :| RefreshStep(s, s', k) {
      n, d := k, s'.heap[k].data;
    } else if k, kind :| ExecuteStep(s, s', k, kind) {
    } else if DeliverFinished(s, s') {
      n := s.signals[0].node;
      d := if n in s'.heap then s'.heap[n].data else FRESH_DATA;
    } else if listing, ok :| ExecStep(s, s', listing, ok) {
      n := s.queue[0].node;
      d := s'.heap[n].data;
    }
  }

  ghost predicate SignalRight(s: Sys, sig: Signal) {
    && sig.node < s.next
    && (sig.Retrieved? && sig.node in s.heap ==> EntriesOf(sig.listing, s.heap[sig.node].data.fullPath))
  }

  lemma {:induction false} RetrieverTargets(s: Sys, s': Sys)
    requires PathsRight(s) && RetrieverStep(s, s')
    ensures forall i :: 0 <= i < |s'.queue| ==> s'.queue[i].node < s.next
    ensures forall i :: 0 <= i < |s'.signals| ==> SignalRight(s, s'.signals[i])
  {
    var c := s.queue[0];
    if listing, ok :| ExecStep(s, s', listing, ok) {
      assert s'.signals == s.signals || s'.signals == s.signals + [Retrieved(c.node, c.token, listing)];
    } else if NotifyStep(s, s') {
      assert s'.signals == s.signals + [Finished(c.node, c.token, c.kind, s.phase.ok)];
    }
  }

  lemma {:induction false} NewTargetAlive(s: Sys, s': Sys)
    requires QuietGuiStep(s, s') && s'.queue != s.queue
    ensures |s'.queue| > |s.queue| && s'.queue[|s.queue|].node in s.heap
  {
  }

  lemma {:induction false} GuiTargets(s: Sys, s': Sys)
    requires PathsRight(s) && QuietGuiStep(s, s') && !DeliverListing(s, s')
    ensures forall i :: 0 <= i < |s'.queue| ==> s'.queue[i].node < s.next
    ensures forall i :: 0 <= i < |s'.signals| ==> SignalRight(s, s'.signals[i])
  {
    GuiGrowsQueue(s, s');
    if s'.queue != s.queue {
      NewTargetAlive(s, s');
    }
    if DeliverFinished(s, s') {
      FinishedHandsOver(s, s');
    }
  }

  lemma {:induction false} DeliveredQueue(s: Sys, s': Sys)
    requires DeliverListing(s, s')
    ensures s'.signals == s.signals[1..] && s'.next >= s.next && s'.root == s.root
    ensures s'.queue == s.queue || s'.queue == s.queue + [Cmd(s.signals[0].node, s.nextToken, ReadDir)]
    ensures forall n :: n in s'.heap ==> n in s.heap || n >= s.next
  {
  }

  lemma {:induction false} StillRight(s: Sys, s': Sys, i: nat)
    requires PathsRight(s) && s.signals != [] && s'.signals == s.signals[1..] && i < |s'.signals| && s'.next >= s.next
    requires forall n :: n in s'.heap ==> n in s.heap || n >= s.next
    requires forall n :: n in s.heap && n in s'.heap ==> s'.heap[n].data.fullPath == s.heap[n].data.fullPath
    ensures SignalRight(s', s'.signals[i])
  {
    assert s'.signals[i] == s.signals[i + 1];
  }

  lemma {:induction false} AllStillRight(s: Sys, s': Sys)
    requires PathsRight(s) && s.signals != [] && s'.signals == s.signals[1..]
    requires s'.next >= s.next && s.signals[0].node < s.next
    requires s'.queue == s.queue || s'.queue == s.queue + [Cmd(s.signals[0].node, s.nextToken, ReadDir)]
    requires Tree(s'.heap, s'.root, s'.next) && PathsOk(s'.heap, s'.root) && NamesUnique(s'.heap)
    requires forall n :: n in s'.heap ==> n in s.heap || n >= s.next
    requires forall n :: n in s.heap && n in s'.heap ==> s'.heap[n].data.fullPath == s.heap[n].data.fullPath
    ensures PathsRight(s')
  {
    forall i | 0 <= i < |s'.signals|
      ensures SignalRight(s', s'.signals[i])
    {
      StillRight(s, s', i);
    }
    assert forall i :: 0 <= i < |s'.signals| ==> SignalRight(s', s'.signals[i]);
  }

  lemma {:induction false} DeliveredPaths(s: Sys, s': Sys)
    requires PathsRight(s) && DeliverListing(s, s') && Tree(s'.heap, s.root, s'.next)
    ensures PathsOk(s'.heap, s'.root) && NamesUnique(s'.heap)
    ensures forall n :: n in s.heap && n in s'.heap ==> s'.heap[n].data.fullPath == s.heap[n].data.fullPath
  {
    var sig := s.signals[0];
    var n := sig.node;
    var a := if WantsFetch(s.heap[n].data.retrFlag) then WithData(s.heap, n, Updating(s.heap[n].data)) else s.heap;
    FlagsKeepPaths(s.heap, s.root, s.next, n, Updating(s.heap[n].data));
    assert NodeOk(s'.heap, n);
    assert Ran(a, s.root, s.next, n, sig.listing, s'.heap, s'.next);
    ReconcileKeepsPaths(a, s.root, s.next, n, sig.listing, s'.heap, s'.next);
    ReconcileKeepsUnique(a, s.root, s.next, n, sig.listing, s'.heap, s'.next);
  }

  lemma {:induction false} ListingKeepsPaths(s: Sys, s': Sys)
    requires PathsRight(s) && DeliverListing(s, s')
    ensures PathsRight(s')
  {
    ListingKeepsTree(s, s');
    DeliveredPaths(s, s');
    DeliveredQueue(s, s');
    AllStillRight(s, s');
  }

  lemma {:induction false} QuietStepKeepsPaths(s: Sys, s': Sys)
    requires PathsRight(s) && (QuietGuiStep(s, s') || RetrieverStep(s, s'))
    ensures PathsRight(s')
  {
    if DeliverListing(s, s') {
      ListingKeepsPaths(s, s');
    } else {
      var n, d := QuietChange(s, s');
      if s'.heap != s.heap {
        FlagsKeepPaths(s.heap, s.root, s.next, n, d);
      }
      if RetrieverStep(s, s') {
        RetrieverTargets(s, s');
      } else {
        GuiTargets(s, s');
      }
      assert forall i :: 0 <= i < |s'.signals| ==> SignalRight(s, s'.signals[i]);
    }
  }

  /** In every run without rename, each node's stored path leads back to the node. */
  lemma {:induction false} QuietRunKeepsPaths(states: seq<Sys>, i: nat)
    requires QuietRun(states) && i < |states|
    ensures PathsRight(states[i])
    ensures forall n :: n in states[i].heap ==>
      IndexOfPath(states[i].heap, states[i].root, states[i].heap[n].data.fullPath)
      == (states[i].heap[n].onRow as int, n)
  {
    if i > 0 {
      QuietRunKeepsPaths(states, i - 1);
      assert QuietStep(states[i - 1], states[i]);
      QuietStepKeepsPaths(states[i - 1], states[i]);
    }
    var s := states[i];
    forall n | n in s.heap
      ensures IndexOfPath(s.heap, s.root, s.heap[n].data.fullPath) == (s.heap[n].onRow as int, n)
    {
      OwnPathFindsNode(s.heap, s.root, s.next, n);
    }
  }

  // ----- When a command outlives its node -----

  ghost predicate CmdTarget(q: seq<Cmd>, n: Ref) {
    exists i :: 0 <= i < |q| && q[i].node == n
  }

  ghost predicate SignalTarget(sigs: seq<Signal>, n: Ref) {
    exists i :: 0 <= i < |sigs| && Reads(sigs[i]) && sigs[i].node == n
  }

  /** `n` will still be dereferenced by a waiting command, a REALPATH under way or one of `sigs`. */
  ghost predicate Target(s: Sys, sigs: seq<Signal>, n: Ref) {
    || CmdTarget(Waiting(s), n)
    || SignalTarget(sigs, n)
    || (s.phase.Executed? && s.queue != [] && s.queue[0].kind == RealPath && s.queue[0].node == n)
  }

  ghost predicate TargetsAlive(s: Sys) {
    forall n :: Target(s, s.signals, n) ==> n in s.heap
  }

  /** The listing about to be delivered deletes nothing that other pending work refers to. */
  ghost predicate Spares(s: Sys)
    requires s.signals != [] && s.signals[0].Retrieved? && s.signals[0].node in s.heap
    requires NodeOk(Asked(s.heap, s.signals[0].node), s.signals[0].node)
  {
    var n := s.signals[0].node;
    var a := Asked(s.heap, n);
    forall m :: Target(s, s.signals[1..], m) ==> m !in Vanished(a, Kids(a, n), s.signals[0].listing)
  }

  lemma {:induction false} CmdTargetAppend(q: seq<Cmd>, c: Cmd, n: Ref)
    ensures CmdTarget(q + [c], n) <==> CmdTarget(q, n) || c.node == n
  {
    if CmdTarget(q, n) {
      var i :| 0 <= i < |q| && q[i].node == n;
      assert (q + [c])[i] == q[i];
    }
    assert (q + [c])[|q|] == c;
  }

  lemma {:induction false} TailTargets(sigs: seq<Signal>, n: Ref)
    requires sigs != [] && SignalTarget(sigs[1..], n)
    ensures SignalTarget(sigs, n)
  {
    var i :| 0 <= i < |sigs[1..]| && Reads(sigs[1..][i]) && sigs[1..][i].node == n;
    assert sigs[i + 1] == sigs[1..][i];
  }

  lemma {:induction false} DeliveryAsks(s: Sys, s': Sys)
    requires (s.phase.Ready? || s.queue != []) && DeliverListing(s, s')
    ensures Waiting(s') == if s'.queue == s.queue then Waiting(s)
                           else Waiting(s) + [Cmd(s.signals[0].node, s.nextToken, ReadDir)]
    ensures s'.signals == s.signals[1..]
  {
    assert s'.queue == s.queue || s'.queue == s.queue + [Cmd(s.signals[0].node, s.nextToken, ReadDir)];
  }

  lemma {:induction false} DeliveryTargets(s: Sys, s': Sys)
    requires (s.phase.Ready? || s.queue != []) && DeliverListing(s, s')
    ensures forall m: Ref ::
      Target(s', s'.signals, m) <==> Target(s, s.signals[1..], m) || (m == s.signals[0].node && s'.queue != s.queue)
  {
    var n := s.signals[0].node;
    DeliveryAsks(s, s');
    forall m: Ref
      ensures Target(s', s'.signals, m) <==> Target(s, s.signals[1..], m) || (m == n && s'.queue != s.queue)
    {
      CmdTargetAppend(Waiting(s), Cmd(n, s.nextToken, ReadDir), m);
    }
  }

  /** Delivering a listing keeps all pending targets alive exactly when it spares them. */
  lemma {:induction false} DeliveryKeepsTargetsIff(s: Sys, s': Sys)
    requires Tree(s.heap, s.root, s.next) && (s.phase.Ready? || s.queue != [])
    requires TargetsAlive(s) && DeliverListing(s, s')
    requires NodeOk(Asked(s.heap, s.signals[0].node), s.signals[0].node)
    ensures TargetsAlive(s') <==> Spares(s)
  {
    var n := s.signals[0].node;
    DeliveryTargets(s, s');
    forall m: Ref | Target(s, s.signals[1..], m)
      ensures m in s'.heap <==> m !in Vanished(Asked(s.heap, n), Kids(Asked(s.heap, n), n), s.signals[0].listing)
    {
      if SignalTarget(s.signals[1..], m) {
        TailTargets(s.signals, m);
      }
      assert Target(s, s.signals, m);
      assert m in Asked(s.heap, n) && m < s.next;
    }
  }

  lemma {:induction false} GuiTargetAlive(s: Sys, s': Sys, n: Ref)
    requires (s.phase.Ready? || s.queue != []) && TargetsAlive(s) && !DeliverListing(s, s')
    requires QuietGuiStep(s, s') || exists m, name :: RenameStep(s, s', m, name)
    requires Target(s', s'.signals, n)
    ensures n in s.heap
  {
    GuiGrowsQueue(s, s');
    if s'.queue != s.queue {
      var c := s'.queue[|s.queue|];
      assert Waiting(s') == Waiting(s) + [c];
      CmdTargetAppend(Waiting(s), c, n);
      assert c.node in s.heap;
    }
    if DeliverFinished(s, s') {
      FinishedHandsOver(s, s');
      if SignalTarget(s'.signals, n) {
        TailTargets(s.signals, n);
      }
    }
    assert Target(s, s.signals, n) || n in s.heap;
  }

  lemma {:induction false} SignalTargetAppend(sigs: seq<Signal>, sig: Signal, n: Ref)
    ensures SignalTarget(sigs + [sig], n) <==> SignalTarget(sigs, n) || (Reads(sig) && sig.node == n)
  {
    if SignalTarget(sigs, n) {
      var i :| 0 <= i < |sigs| && Reads(sigs[i]) && sigs[i].node == n;
      assert (sigs + [sig])[i] == sigs[i];
    }
    assert (sigs + [sig])[|sigs|] == sig;
  }

  lemma {:induction false} ExecTargetAlive(s: Sys, s': Sys, listing: Listing, ok: bool, n: Ref)
    requires ExecStep(s, s', listing, ok) && TargetsAlive(s) && Target(s', s'.signals, n)
    ensures n in s.heap
  {
    var c := s.queue[0];
    SignalTargetAppend(s.signals, Retrieved(c.node, c.token, listing), n);
    CmdTargetAppend(s.queue[1..], Cmd(c.node, c.token, ReadDir), n);
    assert s'.queue[1..] == s.queue[1..] || s'.queue[1..] == s.queue[1..] + [Cmd(c.node, c.token, ReadDir)];
    if CmdTarget(s.queue[1..], n) {
      var i :| 0 <= i < |s.queue[1..]| && s.queue[1..][i].node == n;
      assert Waiting(s)[i + 1].node == n;
    }
    assert n == c.node || Target(s, s.signals, n);
  }

  lemma {:induction false} RetrieverTargetAlive(s: Sys, s': Sys, n: Ref)
    requires RetrieverStep(s, s') && TargetsAlive(s) && Target(s', s'.signals, n)
    ensures n in s.heap
  {
    var c := s.queue[0];
    if listing, ok :| ExecStep(s, s', listing, ok) {
      ExecTargetAlive(s, s', listing, ok, n);
    } else if NotifyStep(s, s') {
      SignalTargetAppend(s.signals, Finished(c.node, c.token, c.kind, s.phase.ok), n);
      assert Target(s, s.signals, n);
    } else {
      assert Target(s, s.signals, n);
    }
  }

  /** No other step can lose a target: what it adds is alive, and only deliveries delete nodes. */
  lemma {:induction false} OtherStepsKeepTargets(s: Sys, s': Sys)
    requires (s.phase.Ready? || s.queue != []) && Next(s, s') && !DeliverListing(s, s') && TargetsAlive(s)
    ensures TargetsAlive(s')
  {
    var k, d := ChangedData(s, s');
    forall n: Ref | Target(s', s'.signals, n)
      ensures n in s.heap
    {
      if RetrieverStep(s, s') {
        RetrieverTargetAlive(s, s', n);
      } else {
        GuiTargetAlive(s, s', n);
      }
    }
  }

  /** A run whose deliveries all spare pending work never dereferences a dead node. */
  lemma {:induction false} CarefulRunKeepsTargets(states: seq<Sys>, i: nat)
    requires Run(states) && i < |states|
    requires forall j :: 0 < j < |states| && DeliverListing(states[j - 1], states[j]) ==>
               && NodeOk(Asked(states[j - 1].heap, states[j - 1].signals[0].node), states[j - 1].signals[0].node)
               && Spares(states[j - 1])
    ensures TargetsAlive(states[i])
  {
    if i > 0 {
      CarefulRunKeepsTargets(states, i - 1);
      RunIsJustified(states, i - 1);
      var s, s' := states[i - 1], states[i];
      assert Next(s, s');
      if DeliverListing(s, s') {
        DeliveryKeepsTargetsIff(s, s');
      } else {
        OtherStepsKeepTargets(s, s');
      }
    }
  }

  // A server where the root's only child has just disappeared.
  const DIR_DATA := NodeData("/d", "d", false, POP_NO_NEED_NO_DATA, 0xFF, false, Attrib(16877, 0, 0))
  const ROOT_DATA := NodeData("", "/", false, POP_NO_NEED_NO_DATA, 0xFF, false, Attrib(16877, 0, 0))

  const ROOT_IDLE := NetDirNode(ROOT_DATA, map[0 := 1], None, 0)
  const ROOT_ASKED := ROOT_IDLE.(data := Updating(ROOT_DATA))
  const DIR_IDLE := NetDirNode(DIR_DATA, map[], Some(0), 0)
  const DIR_ASKED := DIR_IDLE.(data := Updating(DIR_DATA))
  const ROOT_ALONE := NetDirNode(SetFlags(ROOT_DATA, POP_NEWEST, POP_UPDATING), map[], None, 0)

  /** The state after `i` of the steps: both directories asked for, the root read, its answer delivered. */
  function Doomed(i: int): Sys {
    var c0, c1 := Cmd(0, 0, ReadDir), Cmd(1, 1, ReadDir);
    if i <= 0 then Sys(map[0 := ROOT_IDLE, 1 := DIR_IDLE], 0, 2, [], Ready, [], 0, [], [])
    else if i == 1 then Sys(map[0 := ROOT_ASKED, 1 := DIR_IDLE], 0, 2, [c0], Ready, [], 1, [], [])
    else if i == 2 then Sys(map[0 := ROOT_ASKED, 1 := DIR_ASKED], 0, 2, [c0, c1], Ready, [], 2, [], [])
    else if i == 3 then
      Sys(map[0 := ROOT_ASKED, 1 := DIR_ASKED], 0, 2, [c0, c1], Executed(true), [Retrieved(0, 0, [])], 2, [], [])
    else Sys(map[0 := ROOT_ALONE], 0, 2, [c0, c1], Executed(true), [], 2, [0], [])
  }

  lemma {:induction false} DoomedAsks()
    ensures RowCountStep(Doomed(0), Doomed(1), 0) && RowCountStep(Doomed(1), Doomed(2), 1)
  {
    assert AddNode(Doomed(0), 0, 0).heap == Doomed(1).heap;
    assert AddNode(Doomed(1), 1, 1).heap == Doomed(2).heap;
  }

  lemma {:induction false} DoomedReads()
    ensures ExecStep(Doomed(2), Doomed(3), [], true)
  {
    assert Doomed(2).signals + [Retrieved(0, 0, [])] == Doomed(3).signals;
  }

  lemma {:induction false} DoomedEnds()
    ensures !TargetsAlive(Doomed(4))
  {
    var last := Doomed(4);
    assert Waiting(last)[0].node == 1;
    assert Target(last, last.signals, 1);
  }

  lemma {:induction false} TwoNodesAreTree(h: Heap)
    requires h.Keys == {0, 1} && h[0].childNodes == map[0 := 1] && h[0].pNode == None && h[0].onRow == 0
    requires h[1].childNodes == map[] && h[1].pNode == Some(0) && h[1].onRow == 0
    ensures Tree(h, 0, 2)
  {
  }

  lemma {:induction false} EmptyListingDelivered(h: Heap, h': Heap)
    requires h.Keys == {0, 1} && h[0].childNodes == map[0 := 1] && h[0].pNode == None && h[0].onRow == 0
    requires h[1].childNodes == map[] && h[1].pNode == Some(0) && h[1].onRow == 0
    requires h' == map[0 := h[0].(childNodes := map[], data := SetFlags(h[0].data, POP_NEWEST, h[0].data.retrFlag))]
    ensures Tree(h', 0, 2) && NodeOk(h, 0) && Added(h, 0, []) == [] && Reconciled(h, 2, 0, [], h')
  {
    TwoNodesAreTree(h);
    assert NodeOk(h, 0);
    var s := Kids(h, 0);
    assert s == [1];
    assert Survivors(h, s[1..], []) == [];
    assert Survivors(h, s, []) == [];
    assert Under(h, 1, 1) && !Under(h, 1, 0);
    assert 1 in s && Vanished(h, s, []) == {1};
    assert KidSeq(h'[0].childNodes) == [] + Range(2, 0);
  }

  lemma {:induction false} DoomedDelivers()
    ensures DeliverListing(Doomed(3), Doomed(4))
  {
    var s, s' := Doomed(3), Doomed(4);
    EmptyListingDelivered(s.heap, s'.heap);
    assert s.signals == [Retrieved(0, 0, [])] && s.signals[1..] == [] && s.freed + [0] == s'.freed;
  }

  lemma {:induction false} DoomedSteps(i: int)
    requires 0 < i < 5
    ensures Next(Doomed(i - 1), Doomed(i))
  {
    if i < 3 {
      DoomedAsks();
      assert RowCountStep(Doomed(i - 1), Doomed(i), i - 1);
      assert QuietGuiStep(Doomed(i - 1), Doomed(i));
    } else {
      DoomedReads();
      DoomedDelivers();
      assert i == 3 ==> RetrieverStep(Doomed(2), Doomed(3));
      assert i == 4 ==> QuietGuiStep(Doomed(3), Doomed(4));
    }
  }

  /** Without that condition the property fails: both directories are being fetched when the
      listing of the root, which no longer names the child, is delivered. */
  lemma {:induction false} CommandOutlivesNode() returns (states: seq<Sys>)
    ensures Run(states) && !TargetsAlive(states[|states| - 1])
  {
    states := [Doomed(0), Doomed(1), Doomed(2), Doomed(3), Doomed(4)];
    assert Init(states[0]) by {
      TwoNodesAreTree(Doomed(0).heap);
    }
    forall i | 0 < i < |states|
      ensures Next(states[i - 1], states[i])
    {
      DoomedSteps(i);
    }
    DoomedEnds();
  }
}
