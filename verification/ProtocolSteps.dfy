// What single steps of the fetch protocol do for the user, and that nothing asked for is forgotten.

module ProtocolSteps {
  import opened NodeHeap
  import opened Reconciling
  import opened ReconcileFacts
  import opened ListSpec
  import opened FetchProtocol
  import opened ProtocolFacts

  // ----- Asking for a directory -----

  /** `n` was marked as being fetched, its old flag remembered, and a READDIR queued for it; that is all. */
  ghost predicate AsksFor(s: Sys, s': Sys, n: Ref, token: Token)
    requires n in s.heap
  {
    var d := s.heap[n].data;
    && s'.heap == s.heap[n := s.heap[n].(data := d.(prevFlag := d.retrFlag, retrFlag := 0x08))]
    && s'.queue == s.queue + [Cmd(n, token, ReadDir)]
    && s'.signals == s.signals && s'.freed == s.freed && s'.log == s.log && s'.phase == s.phase
  }

  /** Showing a directory asks for it exactly if its flag is 0x01 or 0x04. */
  lemma {:induction false} ShowAsksIff(s: Sys, s': Sys, n: Ref)
    requires RowCountStep(s, s', n)
    ensures if s.heap[n].data.retrFlag == 0x01 || s.heap[n].data.retrFlag == 0x04 then AsksFor(s, s', n, s.nextToken)
            else s' == s
  {
  }

  /** A click asks for a directory exactly if its flag is 0x02, as for those above the home. */
  lemma {:induction false} ClickAsksIff(s: Sys, s': Sys, n: Ref)
    requires ClickStep(s, s', n)
    ensures if s.heap[n].data.retrFlag == 0x02 then AsksFor(s, s', n, s.nextToken)
            else s'.heap == s.heap && s'.queue == s.queue
  {
  }

  /** A refresh asks for the directory whatever its flag was. */
  lemma {:induction false} RefreshAsks(s: Sys, s': Sys, n: Ref)
    requires RefreshStep(s, s', n) && (s.phase.Ready? || s.queue != [])
    ensures n in s.heap && n in s'.heap && s'.heap[n].data.retrFlag == 0x08 && s'.heap[n].data.prevFlag == 0x02
    ensures s'.queue == s.queue + [Cmd(n, s.nextToken, ReadDir)] && ReadQueued(s', n)
    ensures s'.heap.Keys == s.heap.Keys && forall m :: m in s.heap && m != n ==> s'.heap[m] == s.heap[m]
  {
    assert Waiting(s')[|Waiting(s')| - 1] == Cmd(n, s.nextToken, ReadDir);
  }

  /** Success shows a link as leading to a directory and fetches it if it was never fetched, with the token of
      the REALPATH; failure leaves the link a dead end and fetches nothing. */
  lemma {:induction false} RealPathOutcome(s: Sys, s': Sys)
    requires DeliverFinished(s, s') && s.signals[0].kind == RealPath
    ensures s.signals[0].node in s.heap && s.signals[0].node in s'.heap
    ensures var sig, n := s.signals[0], s.signals[0].node;
      var d, d' := s.heap[n].data, s'.heap[n].data;
      if sig.ok then
        && d'.linkToDir
        && (d.retrFlag == 0x01 ==> d'.retrFlag == 0x08 && s'.queue == s.queue + [Cmd(n, sig.token, ReadDir)])
        && (d.retrFlag != 0x01 ==> d'.retrFlag == d.retrFlag && s'.queue == s.queue)
      else d' == d.(prevFlag := d.retrFlag, retrFlag := 0x10) && s'.queue == s.queue
  {
  }

  /** What the user asks of a directory is queued with a token of its own. */
  lemma {:induction false} CommandIsQueued(s: Sys, s': Sys, n: Ref, kind: Kind)
    requires ExecuteStep(s, s', n, kind)
    ensures s'.queue == s.queue + [Cmd(n, s.nextToken, kind)] && s'.nextToken > s.nextToken && s'.heap == s.heap
  {
  }

  /** An in-place rename shows the new name at once and tells the server through the parent. */
  lemma {:induction false} RenameIsQueued(s: Sys, s': Sys, m: Ref, name: string)
    requires RenameStep(s, s', m, name)
    ensures m in s'.heap && s'.heap[m].data.fileName == name && s.heap[m].pNode.Some?
    ensures s'.queue == s.queue + [Cmd(s.heap[m].pNode.value, s.nextToken, Rename)]
    ensures forall k :: k in s.heap && k != m ==> k in s'.heap && s'.heap[k] == s.heap[k]
  {
  }

  // ----- What a delivery shows -----

  lemma {:induction false} SameShown(h: Heap, a: Heap, n: Ref)
    requires n in h && NodeOk(h, n) && a == Asked(h, n) && NodeOk(a, n)
    ensures Shown(a, n) == Shown(h, n)
  {
    forall r | 0 <= r < |Kids(h, n)|
      ensures Shown(a, n)[r] == Shown(h, n)[r]
    {
      assert h[n].childNodes[r] == Kids(h, n)[r] == Kids(a, n)[r];
    }
  }

  /** Once a listing is delivered the directory shows exactly the listed names, each once if it showed each
      once before, and counts as fetched. */
  lemma {:induction false} DeliveryShowsListing(s: Sys, s': Sys)
    requires Tree(s.heap, s.root, s.next) && DeliverListing(s, s')
    ensures var n, listing := s.signals[0].node, s.signals[0].listing;
      && n in s'.heap && NodeOk(s'.heap, n) && s'.heap[n].data.retrFlag == 0x10
      && (forall x :: x in Shown(s'.heap, n) <==> exists j :: 0 <= j < |listing| && listing[j].fileName == x)
      && (NodeOk(s.heap, n) && Distinct(Shown(s.heap, n)) ==> Distinct(Shown(s'.heap, n)))
  {
    var sig := s.signals[0];
    var n := sig.node;
    var a := Asked(s.heap, n);
    DataIsTree(s.heap, s.root, s.next, n, Updating(s.heap[n].data));
    ListingKeepsTree(s, s');
    assert NodeOk(s'.heap, n) && NodeOk(a, n) && NodeOk(s.heap, n);
    ReconcileRefinesList(a, s.root, s.next, n, sig.listing, s'.heap, s'.next);
    AfterShowsListing(Shown(a, n), EntryNames(sig.listing));
    forall x
      ensures x in Shown(s'.heap, n) <==> exists j :: 0 <= j < |sig.listing| && sig.listing[j].fileName == x
    {
      ListedIsEntryName(sig.listing, x);
    }
    SameShown(s.heap, a, n);
  }

  // ----- First in, first out -----

  lemma {:induction false} RetrieverQueues(s: Sys, s': Sys)
    requires RetrieverStep(s, s') && !PopStep(s, s')
    ensures s.queue <= s'.queue && s'.log == s.log
  {
  }

  lemma {:induction false} StepIsFifo(s: Sys, s': Sys)
    requires Next(s, s')
    ensures s.log + s.queue <= s'.log + s'.queue && s.log <= s'.log
  {
    if RetrieverStep(s, s') {
      if PopStep(s, s') {
        assert s'.log + s'.queue == s.log + ([s.queue[0]] + s.queue[1..]);
        assert [s.queue[0]] + s.queue[1..] == s.queue;
      } else {
        RetrieverQueues(s, s');
      }
    } else {
      GuiGrowsQueue(s, s');
    }
  }

  lemma {:induction false} RunStepIsFifo(states: seq<Sys>, j: nat)
    requires Run(states) && 0 < j < |states|
    ensures states[j - 1].log + states[j - 1].queue <= states[j].log + states[j].queue
    ensures states[j - 1].log <= states[j].log
  {
    assert Next(states[j - 1], states[j]);
    StepIsFifo(states[j - 1], states[j]);
  }

  /** In every run commands are executed in the order in which they were queued, and none is lost. */
  lemma {:induction false} RunIsFifo(states: seq<Sys>, i: nat, j: nat)
    requires Run(states) && i <= j < |states|
    ensures states[i].log + states[i].queue <= states[j].log + states[j].queue && states[i].log <= states[j].log
    decreases j
  {
    if i < j {
      RunIsFifo(states, i, j - 1);
      RunStepIsFifo(states, j);
    }
  }

  /** When the queue is empty everything ever queued has been executed, in order. */
  lemma {:induction false} EmptyMeansExecuted(states: seq<Sys>, i: nat, j: nat)
    requires Run(states) && i <= j < |states| && states[j].queue == []
    ensures states[i].log + states[i].queue <= states[j].log
  {
    RunIsFifo(states, i, j);
    assert states[j].log + [] == states[j].log;
  }
}
