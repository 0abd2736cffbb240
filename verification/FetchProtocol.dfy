// The conversation between the GUI thread and the retriever thread, as atomic steps over the
// node tree, the command queue and the signals on their way to the GUI.

module FetchProtocol {
  import opened NodeHeap
  import opened Reconciling
  import opened ReconcileFacts
  import opened PathLookup

  type Token = nat  // a QPersistentModelIndex allocated with new

  datatype Kind = ReadDir | MkDir | RmDir | Remove | Rename | RealPath

  predicate Mutating(k: Kind) {
    k == MkDir || k == RmDir || k == Remove || k == Rename
  }

  datatype Cmd = Cmd(node: Ref, token: Token, kind: Kind)

  datatype Signal =
    | Retrieved(node: Ref, token: Token, listing: Listing)
    | Finished(node: Ref, token: Token, kind: Kind, ok: bool)

  // How far run() has got with the command at the head of the queue.
  datatype Phase = Ready | Executed(ok: bool) | Notified

  datatype Sys = Sys(
    heap: Heap, root: Ref, next: Ref,
    queue: seq<Cmd>, phase: Phase, signals: seq<Signal>,
    nextToken: Token, freed: seq<Token>, log: seq<Cmd>)

  /** The commands run() has not begun yet. */
  function Waiting(s: Sys): seq<Cmd> {
    if s.phase.Ready? || s.queue == [] then s.queue else s.queue[1..]
  }

  function SetFlags(d: NodeData, retr: int, prev: int): NodeData {
    d.(retrFlag := retr, prevFlag := prev)
  }

  function WithData(h: Heap, n: Ref, d: NodeData): Heap
    requires n in h
  {
    h[n := h[n].(data := d)]
  }

  /** add_node: mark the node as updating and queue a READDIR for it. */
  function AddNode(s: Sys, n: Ref, token: Token): Sys
    requires n in s.heap
  {
    s.(heap := WithData(s.heap, n, Updating(s.heap[n].data)),
       queue := s.queue + [Cmd(n, token, ReadDir)])
  }

  // ----- GUI steps -----

  /** rowCount(n), called by the views whenever they like. */
  ghost predicate RowCountStep(s: Sys, s': Sys, n: Ref) {
    n in s.heap &&
    s' == if WantsFetch(s.heap[n].data.retrFlag)
          then AddNode(s, n, s.nextToken).(nextToken := s.nextToken + 1)
          else s
  }

  /** slot_remote_dir_node_clicked. */
  ghost predicate ClickStep(s: Sys, s': Sys, n: Ref) {
    n in s.heap &&
    s' == if s.heap[n].data.retrFlag == POP_NO_NEED_WITH_DATA
          then AddNode(s, n, s.nextToken).(nextToken := s.nextToken + 1)
          else s.(nextToken := s.nextToken + 1)
  }

  /** A refresh request resets the flags and then clicks. */
  ghost predicate RefreshStep(s: Sys, s': Sys, n: Ref) {
    n in s.heap &&
    ClickStep(s.(heap := WithData(s.heap, n, SetFlags(s.heap[n].data, POP_NO_NEED_WITH_DATA, POP_NEWEST))), s', n)
  }

  /** slot_execute_command for anything the user asks of a node. */
  ghost predicate ExecuteStep(s: Sys, s': Sys, n: Ref, kind: Kind) {
    n in s.heap && kind != ReadDir &&
    s' == s.(queue := s.queue + [Cmd(n, s.nextToken, kind)], nextToken := s.nextToken + 1)
  }

  /** In-place rename of `m`: the tree changes at once, the server is told through its parent. */
  ghost predicate RenameStep(s: Sys, s': Sys, m: Ref, name: string) {
    m in s.heap && s.heap[m].pNode.Some? && s.heap[m].pNode.value in s.heap &&
    s' == s.(heap := Renamed(s.heap, m, name),
             queue := s.queue + [Cmd(s.heap[m].pNode.value, s.nextToken, Rename)], nextToken := s.nextToken + 1)
  }

  /** slot_remote_dir_node_retrived for a node still in the tree. */
  ghost predicate DeliverListing(s: Sys, s': Sys) {
    && s.signals != [] && s.signals[0].Retrieved?
    && var sig := s.signals[0]; var n := sig.node;
    && n in s.heap
    && var asked := if WantsFetch(s.heap[n].data.retrFlag)
                    then AddNode(s, n, s.nextToken).(nextToken := s.nextToken + 1) else s;
    && NodeOk(asked.heap, n) && RowsAfter(asked.heap, n, sig.listing) <= ROW_LIMIT
    && Reconciled(asked.heap, s.next, n, sig.listing, s'.heap)
    && s'.next == s.next + |Added(asked.heap, n, sig.listing)|
    && s' == asked.(heap := s'.heap, next := s'.next, signals := s.signals[1..], freed := s.freed + [sig.token])
  }

  /** execute_command_finished; only REALPATH touches the node and the token. */
  ghost predicate DeliverFinished(s: Sys, s': Sys) {
    && s.signals != [] && s.signals[0].Finished?
    && var sig := s.signals[0]; var n := sig.node; var rest := s.(signals := s.signals[1..]);
    if sig.kind != RealPath then s' == rest
    else
      && n in s.heap
      && var d := s.heap[n].data;
      if !sig.ok then s' == rest.(heap := WithData(s.heap, n, SetFlags(d, POP_NEWEST, d.retrFlag)))
      else
        var linked := rest.(heap := WithData(s.heap, n, d.(linkToDir := true)));
        s' == if d.retrFlag == POP_NO_NEED_NO_DATA then AddNode(linked, n, sig.token) else linked
  }

  // ----- Retriever steps -----

  /** What the retriever fills into the entries of a listing. */
  ghost predicate FilledIn(listing: Listing) {
    forall j :: 0 <= j < |listing| ==>
      listing[j].retrFlag == POP_NO_NEED_NO_DATA || listing[j].retrFlag == POP_NEWEST
  }

  ghost predicate ExecStep(s: Sys, s': Sys, listing: Listing, ok: bool) {
    && s.phase.Ready? && s.queue != [] && s.queue[0].node in s.heap
    && var c := s.queue[0];
    if c.kind == ReadDir then
      && FilledIn(listing) && EntriesOf(listing, s.heap[c.node].data.fullPath)
      && s' == s.(signals := s.signals + [Retrieved(c.node, c.token, listing)], phase := Executed(true))
    else if Mutating(c.kind) then s' == AddNode(s, c.node, c.token).(phase := Executed(ok))
    else s' == s.(phase := Executed(ok))
  }

  ghost predicate NotifyStep(s: Sys, s': Sys) {
    && s.phase.Executed? && s.queue != []
    && var c := s.queue[0];
    s' == s.(signals := s.signals + [Finished(c.node, c.token, c.kind, s.phase.ok)], phase := Notified)
  }

  ghost predicate PopStep(s: Sys, s': Sys) {
    && s.phase.Notified? && s.queue != []
    && s' == s.(queue := s.queue[1..], phase := Ready, log := s.log + [s.queue[0]])
  }

  ghost predicate RetrieverStep(s: Sys, s': Sys) {
    (exists listing, ok :: ExecStep(s, s', listing, ok)) || NotifyStep(s, s') || PopStep(s, s')
  }

  ghost predicate QuietGuiStep(s: Sys, s': Sys) {
    || (exists n :: RowCountStep(s, s', n))
    || (exists n :: ClickStep(s, s', n))
    || (exists n :: RefreshStep(s, s', n))
    || (exists n, kind :: ExecuteStep(s, s', n, kind))
    || DeliverListing(s, s')
    || DeliverFinished(s, s')
  }

  /** Any interleaving of the two threads. */
  ghost predicate Next(s: Sys, s': Sys) {
    || QuietGuiStep(s, s')
    || (exists m, name :: RenameStep(s, s', m, name))
    || RetrieverStep(s, s')
  }

  ghost predicate Init(s: Sys) {
    && Tree(s.heap, s.root, s.next)
    && (forall n :: n in s.heap ==> s.heap[n].data.retrFlag != POP_UPDATING)
    && s.queue == [] && s.phase == Ready && s.signals == [] && s.freed == [] && s.log == []
  }

  ghost predicate Run(states: seq<Sys>) {
    && states != [] && Init(states[0])
    && forall i {:trigger Next(states[i - 1], states[i])} :: 0 < i < |states| ==> Next(states[i - 1], states[i])
  }

  // ----- No node is stuck updating -----

  ghost predicate ReadQueued(s: Sys, n: Ref) {
    exists i :: 0 <= i < |Waiting(s)| && Waiting(s)[i].kind == ReadDir && Waiting(s)[i].node == n
  }

  ghost predicate ResultInFlight(s: Sys, n: Ref) {
    exists i :: 0 <= i < |s.signals| && s.signals[i].Retrieved? && s.signals[i].node == n
  }

  ghost predicate FlagsJustified(s: Sys) {
    && (s.phase.Ready? || s.queue != [])
    && (forall i :: 0 <= i < |s.signals| && s.signals[i].Retrieved? ==> FilledIn(s.signals[i].listing))
    && (forall n :: n in s.heap && s.heap[n].data.retrFlag == POP_UPDATING ==> ReadQueued(s, n) || ResultInFlight(s, n))
  }

  /** A step that only lengthens the queue and the signals loses no justification. */
  lemma {:induction false} StillPending(s: Sys, s': Sys, n: Ref)
    requires Waiting(s) <= Waiting(s') && s.signals <= s'.signals
    requires ReadQueued(s, n) || ResultInFlight(s, n)
    ensures ReadQueued(s', n) || ResultInFlight(s', n)
  {
    if ReadQueued(s, n) {
      var i :| 0 <= i < |Waiting(s)| && Waiting(s)[i].kind == ReadDir && Waiting(s)[i].node == n;
      assert Waiting(s')[i] == Waiting(s)[i];
    } else {
      var i :| 0 <= i < |s.signals| && s.signals[i].Retrieved? && s.signals[i].node == n;
      assert s'.signals[i] == s.signals[i];
    }
  }

  /** add_node from either thread. */
  lemma {:induction false} AddNodeJustified(s: Sys, n: Ref, token: Token)
    requires FlagsJustified(s) && n in s.heap
    ensures FlagsJustified(AddNode(s, n, token))
  {
    var s' := AddNode(s, n, token);
    assert Waiting(s') == Waiting(s) + [Cmd(n, token, ReadDir)];
    assert Waiting(s')[|Waiting(s)|] == Cmd(n, token, ReadDir);
    forall m | m in s'.heap && s'.heap[m].data.retrFlag == POP_UPDATING
      ensures ReadQueued(s', m) || ResultInFlight(s', m)
    {
      if m != n {
        StillPending(s, s', m);
      }
    }
  }

  /** Changing data without raising the updating flag, and anything that only adds work. */
  lemma {:induction false} QuietChangeJustified(s: Sys, s': Sys)
    requires FlagsJustified(s) && Waiting(s) <= Waiting(s') && s.signals <= s'.signals
    requires s'.phase.Ready? || s'.queue != []
    requires forall i :: |s.signals| <= i < |s'.signals| && s'.signals[i].Retrieved? ==> FilledIn(s'.signals[i].listing)
    requires forall n :: n in s'.heap && s'.heap[n].data.retrFlag == POP_UPDATING ==>
               n in s.heap && s.heap[n].data.retrFlag == POP_UPDATING
    ensures FlagsJustified(s')
  {
    forall n | n in s'.heap && s'.heap[n].data.retrFlag == POP_UPDATING
      ensures ReadQueued(s', n) || ResultInFlight(s', n)
    {
      StillPending(s, s', n);
    }
    forall i | 0 <= i < |s'.signals| && s'.signals[i].Retrieved?
      ensures FilledIn(s'.signals[i].listing)
    {
      if i < |s.signals| {
        assert s'.signals[i] == s.signals[i];
      }
    }
  }

  lemma {:induction false} ClickKeepsFlagsJustified(s: Sys, s': Sys, n: Ref)
    requires FlagsJustified(s) && ClickStep(s, s', n)
    ensures FlagsJustified(s')
  {
    AddNodeJustified(s, n, s.nextToken);
    var clicked := s.heap[n].data.retrFlag == POP_NO_NEED_WITH_DATA;
    QuietChangeJustified(if clicked then AddNode(s, n, s.nextToken) else s, s');
  }

  /** Reconciling raises no updating flag and lowers the one of the reconciled node. */
  lemma {:induction false} UpdatingBefore(h0: Heap, next: Ref, p: Ref, listing: Listing, h: Heap, m: Ref)
    requires p in h0 && NodeOk(h0, p) && Reconciled(h0, next, p, listing, h) && FilledIn(listing)
    requires m in h
    ensures h[m].data.retrFlag == POP_UPDATING ==> m != p && m in h0 && h0[m].data.retrFlag == POP_UPDATING
  {
    if m != p {
      if m in h0 {
        assert Kept(h0, p, listing, 0, h, m);
      } else {
        var added := NewEntries(listing, NamesOf(h0, Survivors(h0, Kids(h0, p), listing)));
        NewEntriesListed(listing, NamesOf(h0, Survivors(h0, Kids(h0, p), listing)), m - next);
        var j :| 0 <= j < |listing| && listing[j] == added[m - next];
      }
    }
  }

  lemma {:induction false} ListingKeepsFlagsJustified(s: Sys, s': Sys)
    requires FlagsJustified(s) && Tree(s.heap, s.root, s.next) && DeliverListing(s, s')
    ensures FlagsJustified(s')
  {
    var sig := s.signals[0];
    var n := sig.node;
    var a := if WantsFetch(s.heap[n].data.retrFlag)
             then AddNode(s, n, s.nextToken).(nextToken := s.nextToken + 1) else s;
    AddNodeJustified(s, n, s.nextToken);
    QuietChangeJustified(if WantsFetch(s.heap[n].data.retrFlag) then AddNode(s, n, s.nextToken) else s, a);
    assert FilledIn(sig.listing);
    forall m | m in s'.heap && s'.heap[m].data.retrFlag == POP_UPDATING
      ensures ReadQueued(s', m) || ResultInFlight(s', m)
    {
      UpdatingBefore(a.heap, s.next, n, sig.listing, s'.heap, m);
      assert Waiting(s') == Waiting(a);
      if ReadQueued(a, m) {
        assert ReadQueued(s', m);
      } else {
        var i :| 0 <= i < |s.signals| && s.signals[i].Retrieved? && s.signals[i].node == m;
        assert s'.signals[i - 1] == s.signals[i];
      }
    }
  }

  lemma {:induction false} FinishedKeepsFlagsJustified(s: Sys, s': Sys)
    requires FlagsJustified(s) && DeliverFinished(s, s')
    ensures FlagsJustified(s')
  {
    var sig := s.signals[0];
    var rest := s.(signals := s.signals[1..]);
    forall m | ResultInFlight(s, m)
      ensures ResultInFlight(rest, m)
    {
      var i :| 0 <= i < |s.signals| && s.signals[i].Retrieved? && s.signals[i].node == m;
      assert rest.signals[i - 1] == s.signals[i];
    }
    forall m | ReadQueued(s, m)
      ensures ReadQueued(rest, m)
    {
      var i :| 0 <= i < |Waiting(s)| && Waiting(s)[i].kind == ReadDir && Waiting(s)[i].node == m;
      assert Waiting(rest)[i] == Waiting(s)[i];
    }
    assert FlagsJustified(rest);
    if sig.kind == RealPath {
      var n := sig.node;
      var d := s.heap[n].data;
      var linked := rest.(heap := WithData(s.heap, n, d.(linkToDir := true)));
      QuietChangeJustified(rest, linked);
      AddNodeJustified(linked, n, sig.token);
      QuietChangeJustified(rest, rest.(heap := WithData(s.heap, n, SetFlags(d, POP_NEWEST, d.retrFlag))));
    }
  }

  lemma {:induction false} GuiKeepsFlagsJustified(s: Sys, s': Sys)
    requires FlagsJustified(s) && Tree(s.heap, s.root, s.next)
    requires QuietGuiStep(s, s') || exists m, name :: RenameStep(s, s', m, name)
    ensures FlagsJustified(s')
  {
    if n :| RowCountStep(s, s', n) {
      AddNodeJustified(s, n, s.nextToken);
      QuietChangeJustified(if WantsFetch(s.heap[n].data.retrFlag) then AddNode(s, n, s.nextToken) else s, s');
    } else if n :| ClickStep(s, s', n) {
      ClickKeepsFlagsJustified(s, s', n);
    } else if n :| RefreshStep(s, s', n) {
      var r := s.(heap := WithData(s.heap, n, SetFlags(s.heap[n].data, POP_NO_NEED_WITH_DATA, POP_NEWEST)));
      QuietChangeJustified(s, r);
      ClickKeepsFlagsJustified(r, s', n);
    } else if n, kind :| ExecuteStep(s, s', n, kind) {
      QuietChangeJustified(s, s');
    } else if DeliverListing(s, s') {
      ListingKeepsFlagsJustified(s, s');
    } else if DeliverFinished(s, s') {
      FinishedKeepsFlagsJustified(s, s');
    } else {
      QuietChangeJustified(s, s');
    }
  }

  lemma {:induction false} ExecKeepsFlagsJustified(s: Sys, s': Sys, listing: Listing, ok: bool)
    requires FlagsJustified(s) && ExecStep(s, s', listing, ok)
    ensures FlagsJustified(s')
  {
    var c := s.queue[0];
    var a := if Mutating(c.kind) then AddNode(s, c.node, c.token) else s;
    AddNodeJustified(s, c.node, c.token);
    assert Waiting(s') == Waiting(a)[1..];
    assert Waiting(a)[0] == c;
    forall m | m in s'.heap && s'.heap[m].data.retrFlag == POP_UPDATING
      ensures ReadQueued(s', m) || ResultInFlight(s', m)
    {
      if c.kind == ReadDir && c.node == m {
        assert s'.signals[|s.signals|] == Retrieved(m, c.token, listing);
      } else if ReadQueued(a, m) {
        var i :| 0 <= i < |Waiting(a)| && Waiting(a)[i].kind == ReadDir && Waiting(a)[i].node == m;
        assert Waiting(s')[i - 1] == Waiting(a)[i];
      } else {
        var i :| 0 <= i < |s.signals| && s.signals[i].Retrieved? && s.signals[i].node == m;
        assert s'.signals[i] == s.signals[i];
      }
    }
  }

  lemma {:induction false} RetrieverKeepsFlagsJustified(s: Sys, s': Sys)
    requires FlagsJustified(s) && RetrieverStep(s, s')
    ensures FlagsJustified(s')
  {
    if listing, ok :| ExecStep(s, s', listing, ok) {
      ExecKeepsFlagsJustified(s, s', listing, ok);
    } else {
      assert Waiting(s') == Waiting(s);
      QuietChangeJustified(s, s');
    }
  }

  // ----- The tree over every run -----

  lemma {:induction false} ListingKeepsTree(s: Sys, s': Sys)
    requires Tree(s.heap, s.root, s.next) && DeliverListing(s, s')
    ensures Tree(s'.heap, s.root, s'.next) && s'.root == s.root
  {
    var n := s.signals[0].node;
    DataIsTree(s.heap, s.root, s.next, n, Updating(s.heap[n].data));
    ReconciledFits(Asked(s.heap, n), s.root, s.next, n, s.signals[0].listing, s'.heap);
  }

  /** Apart from a delivered listing, a step changes the data of at most one node. */
  lemma {:induction false} ChangedData(s: Sys, s': Sys) returns (n: Ref, d: NodeData)
    requires Next(s, s') && !DeliverListing(s, s')
    ensures s'.root == s.root && s'.next == s.next
    ensures s'.heap == s.heap || (n in s.heap && s'.heap == s.heap[n := s.heap[n].(data := d)])
  {
    n, d := 0, FRESH_DATA;
    if k :| RowCountStep(s, s', k) {
      n, d := k, s'.heap[k].data;
    } else if k :| ClickStep(s, s', k) {
      n, d := k, s'.heap[k].data;
    } else if k :| RefreshStep(s, s', k) {
      n, d := k, s'.heap[k].data;
    } else if k, kind :| ExecuteStep(s, s', k, kind) {
    } else if DeliverFinished(s, s') {
      n := s.signals[0].node;
      d := if n in s'.heap then s'.heap[n].data else FRESH_DATA;
    } else if m, name :| RenameStep(s, s', m, name) {
      n, d := m, s'.heap[m].data;
    } else if listing, ok :| ExecStep(s, s', listing, ok) {
      n := s.queue[0].node;
      d := s'.heap[n].data;
    }
  }

  lemma {:induction false} StepKeepsTree(s: Sys, s': Sys)
    requires Tree(s.heap, s.root, s.next) && Next(s, s')
    ensures Tree(s'.heap, s'.root, s'.next) && s'.root == s.root
  {
    if DeliverListing(s, s') {
      ListingKeepsTree(s, s');
    } else {
      var n, d := ChangedData(s, s');
      if s'.heap != s.heap {
        DataIsTree(s.heap, s.root, s.next, n, d);
      }
    }
  }

  /** In every reachable state the heap is a tree and each updating node has its answer coming. */
  lemma {:induction false} RunIsJustified(states: seq<Sys>, i: nat)
    requires Run(states) && i < |states|
    ensures Tree(states[i].heap, states[i].root, states[i].next) && FlagsJustified(states[i])
  {
    if i > 0 {
      RunIsJustified(states, i - 1);
      var s, s' := states[i - 1], states[i];
      assert Next(s, s');
      StepKeepsTree(s, s');
      if RetrieverStep(s, s') {
        RetrieverKeepsFlagsJustified(s, s');
      } else {
        GuiKeepsFlagsJustified(s, s');
      }
    }
  }

  /** Once queue and deliveries are drained, nothing is left updating. */
  lemma {:induction false} DrainedMeansSettled(states: seq<Sys>, i: nat, n: Ref)
    requires Run(states) && i < |states|
    requires states[i].queue == [] && states[i].signals == [] && n in states[i].heap
    ensures states[i].heap[n].data.retrFlag != POP_UPDATING
  {
    RunIsJustified(states, i);
  }
}
