// The loop of SSHDirRetriver::run, left alone until its queue is empty.

module Retriever {
  import opened NodeHeap
  import opened Reconciling
  import opened FetchProtocol
  import opened ProtocolFacts
  import opened PathLookup

  /** The READDIR each change queues behind everything else, in the order of the changes. */
  function FollowUps(q: seq<Cmd>): (f: seq<Cmd>)
    ensures |f| <= |q|
    ensures forall i :: 0 <= i < |f| ==> f[i].kind == ReadDir
  {
    if q == [] then []
    else
      var front, c := FollowUps(q[..|q| - 1]), q[|q| - 1];
      if Mutating(c.kind) then front + [Cmd(c.node, c.token, ReadDir)] else front
  }

  /** All commands one run executes: what was queued, then the reads that follow the changes. */
  function Schedule(q: seq<Cmd>): seq<Cmd> {
    q + FollowUps(q)
  }

  /** The queue once `i` commands of the schedule are done. */
  function Remaining(q: seq<Cmd>, i: nat): seq<Cmd>
    requires i <= |Schedule(q)|
  {
    if i <= |q| then q[i..] + FollowUps(q[..i]) else Schedule(q)[i..]
  }

  /** What the server shows for a node; a directory that cannot be read shows nothing. */
  function ListingOf(server: map<Ref, Listing>, n: Ref): Listing {
    if n in server then server[n] else []
  }

  /** What the server holds while the `i`-th command is executed. */
  function ServerAt(servers: seq<map<Ref, Listing>>, i: nat): map<Ref, Listing> {
    if i < |servers| then servers[i] else map[]
  }

  /** The queue after one command. */
  function NextQueue(q: seq<Cmd>): seq<Cmd>
    requires q != []
  {
    q[1..] + if Mutating(q[0].kind) then [Cmd(q[0].node, q[0].token, ReadDir)] else []
  }

  /** The signals one command sends out. */
  function Reported(c: Cmd, listing: Listing, outcome: int): seq<Signal> {
    (if c.kind == ReadDir then [Retrieved(c.node, c.token, listing)] else [])
    + [Finished(c.node, c.token, c.kind, c.kind == ReadDir || outcome == 0)]
  }

  function OutcomeAt(outcomes: seq<int>, i: nat): int {
    if i < |outcomes| then outcomes[i] else -1
  }

  /** The signals of a series of commands, the first of which is the `from`-th executed. */
  function Emitted(cmds: seq<Cmd>, servers: seq<map<Ref, Listing>>, outcomes: seq<int>, from: nat): seq<Signal> {
    if cmds == [] then []
    else
      var k, c := |cmds| - 1, cmds[|cmds| - 1];
      Emitted(cmds[..k], servers, outcomes, from)
      + Reported(c, ListingOf(ServerAt(servers, from + k), c.node), OutcomeAt(outcomes, from + k))
  }

  /** A turn of the loop is three steps of the protocol in a row. */
  lemma {:induction false} TurnIsThreeSteps(s: Sys, listing: Listing, outcome: int) returns (s1: Sys, s2: Sys, s3: Sys)
    requires s.phase.Ready? && s.queue != [] && s.queue[0].node in s.heap
    requires FilledIn(listing) && EntriesOf(listing, s.heap[s.queue[0].node].data.fullPath)
    ensures ExecStep(s, s1, listing, outcome == 0) && NotifyStep(s1, s2) && PopStep(s2, s3)
    ensures s3.phase.Ready? && s3.queue == NextQueue(s.queue) && s3.log == s.log + [s.queue[0]]
    ensures s3.signals == s.signals + Reported(s.queue[0], listing, outcome)
  {
    var c := s.queue[0];
    if c.kind == ReadDir {
      s1 := s.(signals := s.signals + [Retrieved(c.node, c.token, listing)], phase := Executed(true));
    } else if Mutating(c.kind) {
      s1 := AddNode(s, c.node, c.token).(phase := Executed(outcome == 0));
    } else {
      s1 := s.(phase := Executed(outcome == 0));
    }
    s2 := s1.(signals := s1.signals + [Finished(c.node, c.token, c.kind, s1.phase.ok)], phase := Notified);
    s3 := s2.(queue := s2.queue[1..], phase := Ready, log := s2.log + [c]);
    assert s1.queue[1..] == NextQueue(s.queue);
  }

  lemma {:induction false} EmittedMore(cmds: seq<Cmd>, i: nat, servers: seq<map<Ref, Listing>>, outcomes: seq<int>,
      from: nat, before: seq<Signal>)
    requires i < |cmds|
    ensures before + Emitted(cmds[..i + 1], servers, outcomes, from)
         == before + Emitted(cmds[..i], servers, outcomes, from)
          + Reported(cmds[i], ListingOf(ServerAt(servers, from + i), cmds[i].node), OutcomeAt(outcomes, from + i))
  {
    assert cmds[..i + 1][..i] == cmds[..i];
  }

  lemma {:induction false} ScheduleStep(q: seq<Cmd>, i: nat)
    requires i < |Schedule(q)|
    ensures Schedule(q)[..i + 1] == Schedule(q)[..i] + [Schedule(q)[i]]
    ensures i >= |q| ==> Schedule(q)[i].kind == ReadDir
  {
  }

  lemma {:induction false} QueuedStep(q: seq<Cmd>, i: nat)
    requires i < |q|
    ensures Remaining(q, i)[0] == q[i]
    ensures Remaining(q, i + 1)
         == Remaining(q, i)[1..] + (if Mutating(q[i].kind) then [Cmd(q[i].node, q[i].token, ReadDir)] else [])
  {
    var f := FollowUps(q[..i]);
    assert q[..i + 1][..i] == q[..i];
    assert (q[i..] + f)[1..] == q[i + 1..] + f;
    if Mutating(q[i].kind) {
      var x := [Cmd(q[i].node, q[i].token, ReadDir)];
      assert FollowUps(q[..i + 1]) == f + x;
      assert q[i + 1..] + (f + x) == (q[i + 1..] + f) + x;
    }
  }

  lemma {:induction false} FollowUpStep(q: seq<Cmd>, i: nat)
    requires |q| <= i < |Schedule(q)|
    ensures Remaining(q, i) != [] && Remaining(q, i)[0] == Schedule(q)[i] && Remaining(q, i + 1) == Remaining(q, i)[1..]
  {
    if i == |q| {
      assert q[..i] == q && q[i..] == [];
      assert Remaining(q, i) == Schedule(q)[i..];
    }
    assert Schedule(q)[i..][1..] == Schedule(q)[i + 1..];
  }

  lemma {:induction false} RemainingStep(q: seq<Cmd>, i: nat)
    requires i <= |Schedule(q)| && Remaining(q, i) != []
    ensures i < |Schedule(q)|
    ensures var c := Remaining(q, i)[0];
      && c == Schedule(q)[i]
      && Remaining(q, i + 1)
         == Remaining(q, i)[1..] + (if Mutating(c.kind) then [Cmd(c.node, c.token, ReadDir)] else [])
      && Schedule(q)[..i + 1] == Schedule(q)[..i] + [c]
  {
    if i < |q| {
      ScheduleStep(q, i);
      QueuedStep(q, i);
    } else {
      if i == |q| {
        assert q[..i] == q && q[i..] == [];
      }
      ScheduleStep(q, i);
      FollowUpStep(q, i);
    }
  }

  lemma {:induction false} RemainingEnd(q: seq<Cmd>, i: nat)
    requires i <= |Schedule(q)| && Remaining(q, i) == []
    ensures Schedule(q)[..i] == Schedule(q)
  {
    if i <= |q| {
      assert q[..i] == q;
    }
  }

  lemma {:induction false} LogMore(log0: seq<Cmd>, cmds: seq<Cmd>, i: nat)
    requires i < |cmds|
    ensures log0 + cmds[..i + 1] == log0 + cmds[..i] + [cmds[i]]
  {
  }

  /** What queue, log and signals are once `i` commands of the schedule are done. */
  ghost predicate Progress(q: seq<Cmd>, i: nat, servers: seq<map<Ref, Listing>>, outcomes: seq<int>, log0: seq<Cmd>,
      signals0: seq<Signal>,
                           queue: seq<Cmd>, log: seq<Cmd>, signals: seq<Signal>) {
    && i <= |Schedule(q)| && queue == Remaining(q, i) && log == log0 + Schedule(q)[..i]
    && signals == signals0 + Emitted(Schedule(q)[..i], servers, outcomes, |log0|)
  }

  lemma {:induction false} ProgressStep(q: seq<Cmd>, i: nat, servers: seq<map<Ref, Listing>>, outcomes: seq<int>,
      log0: seq<Cmd>, signals0: seq<Signal>,
                                        queue: seq<Cmd>, log: seq<Cmd>, signals: seq<Signal>)
    requires Progress(q, i, servers, outcomes, log0, signals0, queue, log, signals) && queue != []
    ensures var c := queue[0];
      Progress(q, i + 1, servers, outcomes, log0, signals0, NextQueue(queue), log + [c],
               signals + Reported(c, ListingOf(ServerAt(servers, |log|), c.node), OutcomeAt(outcomes, |log|)))
  {
    RemainingStep(q, i);
    EmittedMore(Schedule(q), i, servers, outcomes, |log0|, signals0);
    LogMore(log0, Schedule(q), i);
  }

  /** The `k`-th command executed is reported: with what the server held at that time, if it was a READDIR. */
  ghost predicate ReportedAt(signals: seq<Signal>, servers: seq<map<Ref, Listing>>, outcomes: seq<int>, k: nat,
      c: Cmd) {
    && (c.kind == ReadDir ==>
          && Finished(c.node, c.token, ReadDir, true) in signals
          && (if k < |servers| && c.node in servers[k] then Retrieved(c.node, c.token, servers[k][c.node]) in signals
              else Retrieved(c.node, c.token, []) in signals))
    && (c.kind != ReadDir ==> Finished(c.node, c.token, c.kind, k < |outcomes| && outcomes[k] == 0) in signals)
  }

  /** The signal is one that the `k`-th command executed sends out. */
  ghost predicate StemsFrom(sig: Signal, servers: seq<map<Ref, Listing>>, outcomes: seq<int>, k: nat, c: Cmd) {
    && sig.node == c.node && sig.token == c.token
    && match sig
       case Retrieved(_, _, listing) =>
         c.kind == ReadDir && listing == if k < |servers| && c.node in servers[k] then servers[k][c.node] else []
       case Finished(_, _, kind, ok) =>
         kind == c.kind && (ok <==> kind == ReadDir || (k < |outcomes| && outcomes[k] == 0))
  }

  lemma {:induction false} EmittedReports(cmds: seq<Cmd>, servers: seq<map<Ref, Listing>>, outcomes: seq<int>,
      from: nat, i: nat)
    requires i < |cmds|
    ensures ReportedAt(Emitted(cmds, servers, outcomes, from), servers, outcomes, from + i, cmds[i])
    decreases |cmds|
  {
    if i < |cmds| - 1 {
      EmittedReports(cmds[..|cmds| - 1], servers, outcomes, from, i);
    }
  }

  lemma {:induction false} EmittedStems(cmds: seq<Cmd>, servers: seq<map<Ref, Listing>>, outcomes: seq<int>, from: nat,
      sig: Signal) returns (i: nat)
    requires sig in Emitted(cmds, servers, outcomes, from)
    ensures i < |cmds| && StemsFrom(sig, servers, outcomes, from + i, cmds[i])
    decreases |cmds|
  {
    var front := cmds[..|cmds| - 1];
    if sig in Emitted(front, servers, outcomes, from) {
      i := EmittedStems(front, servers, outcomes, from, sig);
    } else {
      i := |cmds| - 1;
    }
  }

  lemma {:induction false} RunReports(cmds: seq<Cmd>, servers: seq<map<Ref, Listing>>, outcomes: seq<int>,
      log0: seq<Cmd>, log: seq<Cmd>, sent: seq<Signal>)
    requires log == log0 + cmds && sent == Emitted(cmds, servers, outcomes, |log0|)
    ensures forall k :: |log0| <= k < |log| ==> ReportedAt(sent, servers, outcomes, k, log[k])
    ensures forall sig :: sig in sent ==>
      exists k :: |log0| <= k < |log| && StemsFrom(sig, servers, outcomes, k, log[k])
  {
    forall k | |log0| <= k < |log|
      ensures ReportedAt(sent, servers, outcomes, k, log[k])
    {
      EmittedReports(cmds, servers, outcomes, |log0|, k - |log0|);
    }
    forall sig | sig in sent
      ensures exists k :: |log0| <= k < |log| && StemsFrom(sig, servers, outcomes, k, log[k])
    {
      var i := EmittedStems(cmds, servers, outcomes, |log0|, sig);
      assert log[|log0| + i] == cmds[i];
    }
  }

  /** A change is followed up by a READDIR of the same node, behind the follow-ups of all earlier changes. */
  lemma {:induction false} FollowUpAt(q: seq<Cmd>, i: nat)
    requires i < |q|
    ensures var r := |FollowUps(q[..i])|;
      q[i].kind in {MkDir, RmDir, Remove, Rename} ==>
        r < |FollowUps(q)| && FollowUps(q)[r] == Cmd(q[i].node, q[i].token, ReadDir)
    ensures |FollowUps(q[..i + 1])|
         == |FollowUps(q[..i])| + if q[i].kind in {MkDir, RmDir, Remove, Rename} then 1 else 0
    decreases |q|
  {
    assert q[..i + 1][..i] == q[..i];
    if i < |q| - 1 {
      var front := q[..|q| - 1];
      assert front[..i] == q[..i] && front[i] == q[i] && front[..i + 1] == q[..i + 1];
      FollowUpAt(front, i);
    } else {
      assert q[..i + 1] == q;
    }
  }

  class SSHDirRetriver {
    var commandQueue: seq<Cmd>
    var processQueue: map<Ref, Token>
    var signals: seq<Signal>
    var log: seq<Cmd>  // commands erased from the queue, oldest first

    constructor (queue: seq<Cmd>)
      ensures commandQueue == queue && processQueue == map[] && signals == [] && log == []
    {
      commandQueue, processQueue, signals, log := queue, map[], [], [];
    }

    /** Lists the directories in the process queue: on entry just the one of the current command. */
    method RetriveDir(server: map<Ref, Listing>, ghost n: Ref, ghost t: Token) returns (ret: int)
      requires processQueue == map[n := t]
      modifies this`processQueue, this`signals
      ensures processQueue == map[] && ret == 0
      ensures signals == old(signals) + [Retrieved(n, t, if n in server then server[n] else [])]
    {
      ret := -1;
      while |processQueue| > 0
        invariant processQueue == if ret == 0 then map[] else map[n := t]
        invariant signals == old(signals) +
          if ret == 0 then [Retrieved(n, t, ListingOf(server, n))] else []
        decreases |processQueue|
      {
        var parentItem :| parentItem in processQueue;
        var token := processQueue[parentItem];
        var newNodes := ListingOf(server, parentItem);
        processQueue := processQueue - {parentItem};
        signals := signals + [Retrieved(parentItem, token, newNodes)];
        ret := 0;
      }
    }

    /** One command: execute, report, erase. */
    method Turn(server: map<Ref, Listing>, outcome: int)
      requires commandQueue != [] && processQueue == map[]
      modifies this
      ensures processQueue == map[] && log == old(log) + [old(commandQueue)[0]]
      ensures commandQueue == NextQueue(old(commandQueue))
      ensures var c := old(commandQueue)[0];
        && signals == old(signals) + Reported(c, ListingOf(server, c.node), outcome)
        && (c.kind == ReadDir ==>
              signals == old(signals) + [Retrieved(c.node, c.token, if c.node in server then server[c.node] else []),
                                         Finished(c.node, c.token, ReadDir, true)])
        && (c.kind != ReadDir ==> signals == old(signals) + [Finished(c.node, c.token, c.kind, outcome == 0)])
      ensures Weight(commandQueue) < old(Weight(commandQueue))
    {
      var c := commandQueue[0];
      var ret := outcome;
      if c.kind == ReadDir {
        processQueue := processQueue[c.node := c.token];
        ret := RetriveDir(server, c.node, c.token);
      } else if Mutating(c.kind) {
        commandQueue := commandQueue + [Cmd(c.node, c.token, ReadDir)];
        WeightAppend(old(commandQueue)[1..], Cmd(c.node, c.token, ReadDir));
        assert commandQueue[1..] == old(commandQueue)[1..] + [Cmd(c.node, c.token, ReadDir)];
      }
      signals := signals + [Finished(c.node, c.token, c.kind, ret == 0)];
      commandQueue := commandQueue[1..];
      log := log + [c];
    }

    /** run(): terminates, and has then executed exactly the schedule of the queue it found. */
    method Run(servers: seq<map<Ref, Listing>>, outcomes: seq<int>)
      requires processQueue == map[]
      modifies this
      ensures commandQueue == [] && processQueue == map[]
      ensures log == old(log) + Schedule(old(commandQueue))
      ensures signals == old(signals) + Emitted(Schedule(old(commandQueue)), servers, outcomes, |old(log)|)
      ensures forall k :: |old(log)| <= k < |log| ==>
        ReportedAt(signals[|old(signals)|..], servers, outcomes, k, log[k])
      ensures forall sig :: sig in signals[|old(signals)|..] ==>
        exists k :: |old(log)| <= k < |log| && StemsFrom(sig, servers, outcomes, k, log[k])
    {
      ghost var q, i: nat := commandQueue, 0;
      assert q[0..] + FollowUps(q[..0]) == q && log + [] == log && signals + [] == signals;
      while |commandQueue| > 0
        invariant processQueue == map[]
        invariant Progress(q, i, servers, outcomes, old(log), old(signals), commandQueue, log, signals)
        decreases Weight(commandQueue)
      {
        ProgressStep(q, i, servers, outcomes, old(log), old(signals), commandQueue, log, signals);
        Turn(ServerAt(servers, |log|), OutcomeAt(outcomes, |log|));
        i := i + 1;
      }
      RemainingEnd(q, i);
      RunReports(Schedule(q), servers, outcomes, old(log), log, signals[|old(signals)|..]);
    }
  }
}
