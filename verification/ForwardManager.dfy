// Forwarding sessions: the table of connectors, connections, workers and listeners that the manager's
// slots look up by sender.

module ForwardManager {
  import opened Options
  import opened ListSpec

  type Obj = nat  // objects in allocation order

  datatype Entry = Entry(
    connector: Option<Obj>, conn: Option<Obj>, worker: Option<Obj>, lsner: Option<Obj>, wantReconn: bool)

  type Table = map<string, Entry>

  // What repairing a lost listener comes to (slot_listen_channel_error).
  datatype Repair =
    | CancelFailed  // the old listener cannot be cancelled: reconnect when the worker stops
    | StillListening  // cancelled, but the port is still bound: reconnect when the worker stops
    | Denied  // cancelled, and no new one to be had: the session is dropped
    | Relistened  // cancelled, and a new listener replaces it

  // Whether a worker's session is in the table, was dropped by a denied relisten, or ended with finished().
  datatype Fate = Held | Dropped | Ended

  // `links` counts how often finished() is connected to its slot, `pending` its queued deliveries.
  datatype Worker = Worker(running: bool, quitting: bool, links: nat, pending: nat, fate: Fate)

  type Crew = map<Obj, Worker>

  // Listeners given back by a successful cancel, and those of them handed to cancel once more.
  datatype Lsners = Lsners(freed: set<Obj>, misused: set<Obj>)

  // `ok` says whether cancelling the listener succeeds, if there is one to cancel.
  datatype Event =
    | StartClicked(name: string, sess: string, ok: bool)
    | StopClicked(name: string, ok: bool)
    | ConnectFinished(connector: Obj, listening: bool)
    | ThreadEnded(worker: Obj)
    | WorkerFinished(worker: Obj, ok: bool)
    | ListenError(worker: Obj, repair: Repair)

  datatype State = State(
    entries: Table, next: Obj,
    connecting: set<Obj>,  // connectors started whose connect_finished is still to come
    freedConns: seq<Obj>, crew: Crew, lsners: Lsners,
    failed: bool)  // a slot asserted an entry that is not there

  const NO_STATE := State(map[], 0, {}, [], map[], Lsners({}, {}), false)

  predicate HasConnector(t: Table, name: string, c: Obj) {
    name in t && t[name].connector == Some(c)
  }

  predicate HasWorker(t: Table, name: string, w: Obj) {
    name in t && t[name].worker == Some(w)
  }

  // ----- What the slots do -----

  /** libssh2_channel_forward_cancel: refuses a null pointer, otherwise frees the listener if it succeeds. */
  function Cancel(ls: Lsners, l: Option<Obj>, ok: bool): Lsners {
    if l.None? then ls
    else if l.value in ls.freed then ls.(misused := ls.misused + {l.value})
    else if ok then ls.(freed := ls.freed + {l.value})
    else ls
  }

  /** QThread::quit. */
  function Quit(crew: Crew, w: Option<Obj>): Crew {
    if w.Some? && w.value in crew && crew[w.value].running
    then crew[w.value := crew[w.value].(quitting := true)] else crew
  }

  function Stopped(st: State, name: string, ok: bool): State {
    if name in st.entries then
      var e := st.entries[name];
      st.(entries := st.entries[name := e.(lsner := None)], lsners := Cancel(st.lsners, e.lsner, ok),
          crew := Quit(st.crew, e.worker))
    else st
  }

  function Started(st: State, name: string, sess: string, ok: bool): State {
    if name == "" || sess == "" then st
    else if name in st.entries then Stopped(st, name, ok)
    else st.(entries := st.entries[name := Entry(Some(st.next), None, None, None, false)],
             next := st.next + 1, connecting := st.connecting + {st.next})
  }

  /** slot_connect_remote_host_finished for the entry `name`. */
  function Connected(st: State, name: string, c: Obj, listening: bool): State
    requires name in st.entries
  {
    var conn := st.next;
    if !listening then
      st.(entries := st.entries - {name}, next := st.next + 1, connecting := st.connecting - {c},
          freedConns := st.freedConns + [conn])
    else
      var worker, lsner := st.next + 1, st.next + 2;
      var e := Entry(None, Some(conn), Some(worker), Some(lsner), st.entries[name].wantReconn);
      st.(entries := st.entries[name := e],
          next := st.next + 3, connecting := st.connecting - {c},
          crew := st.crew[worker := Worker(true, false, 1, 0, Held)])
  }

  /** A thread that was told to quit ends, and posts finished() once per connection. */
  function Over(x: Worker): Worker {
    x.(running := false, quitting := false, pending := x.pending + x.links)
  }

  /** slot_forward_worker_finished for the entry `name`. */
  function Finished(st: State, name: string, w: Obj, ok: bool): State
    requires name in st.entries && st.entries[name].conn.Some? && w in st.crew && st.crew[w].pending > 0
  {
    var e := st.entries[name];
    st.(entries := st.entries - {name}, freedConns := st.freedConns + [e.conn.value],
        lsners := Cancel(st.lsners, e.lsner, ok),
        crew := st.crew[w := st.crew[w].(pending := st.crew[w].pending - 1, fate := Ended)])
  }

  /** slot_listen_channel_error for the entry `name`. */
  function Repaired(st: State, name: string, w: Obj, repair: Repair): State
    requires name in st.entries && st.entries[name].conn.Some? && w in st.crew
  {
    var e, ls := st.entries[name], Cancel(st.lsners, st.entries[name].lsner, !repair.CancelFailed?);
    match repair
    case CancelFailed =>
      st.(entries := st.entries[name := e.(wantReconn := true)], lsners := ls, crew := Quit(st.crew, Some(w)))
    case StillListening =>
      st.(entries := st.entries[name := e.(wantReconn := true)], lsners := ls, crew := Quit(st.crew, Some(w)))
    case Denied =>
      st.(entries := st.entries - {name}, freedConns := st.freedConns + [e.conn.value], lsners := ls,
          crew := st.crew[w := st.crew[w].(fate := Dropped)])
    case Relistened =>
      st.(entries := st.entries[name := e.(lsner := Some(st.next))], next := st.next + 1, lsners := ls,
          crew := st.crew[w := st.crew[w].(links := st.crew[w].links + 1, running := true)])
  }

  /** One slot call or the end of a thread; a failed assertion ends the program. The sender of a signal is a
      connector under way or a worker once started, and finished() comes only as often as it was posted. */
  ghost predicate Next(st: State, e: Event, st': State) {
    !st.failed &&
    match e
    case StartClicked(name, sess, ok) => st' == Started(st, name, sess, ok)
    case StopClicked(name, ok) => st' == Stopped(st, name, ok)
    case ConnectFinished(c, listening) =>
      c in st.connecting &&
      ((exists n :: HasConnector(st.entries, n, c) && st' == Connected(st, n, c, listening))
       || ((forall n :: !HasConnector(st.entries, n, c)) && st' == st.(failed := true)))
    case ThreadEnded(w) =>
      w in st.crew && st.crew[w].running && st.crew[w].quitting && st' == st.(crew := st.crew[w := Over(st.crew[w])])
    case WorkerFinished(w, ok) =>
      w in st.crew && st.crew[w].pending > 0 &&
      ((exists n :: HasWorker(st.entries, n, w) && st.entries[n].conn.Some? && st' == Finished(st, n, w, ok))
       || ((forall n :: !HasWorker(st.entries, n, w)) && st' == st.(failed := true)))
    case ListenError(w, repair) =>
      w in st.crew &&
      ((exists n :: HasWorker(st.entries, n, w) && st.entries[n].conn.Some?
                    && (st.entries[n].lsner.None? ==> repair.CancelFailed?) && st' == Repaired(st, n, w, repair))
       || ((forall n :: !HasWorker(st.entries, n, w)) && st' == st.(failed := true)))
  }

  // ----- What every reachable table satisfies -----

  ghost predicate Phased(e: Entry) {
    || (e.connector.Some? && e.conn.None? && e.worker.None? && e.lsner.None?)
    || (e.connector.None? && e.conn.Some? && e.worker.Some?)
  }

  ghost predicate Apart(a: Entry, b: Entry) {
    && (a.connector.Some? ==> a.connector != b.connector)
    && (a.conn.Some? ==> a.conn != b.conn)
    && (a.worker.Some? ==> a.worker != b.worker)
    && (a.lsner.Some? ==> a.lsner != b.lsner)
  }

  ghost predicate EntryBelow(e: Entry, next: Obj) {
    && (e.connector.Some? ==> e.connector.value < next)
    && (e.conn.Some? ==> e.conn.value < next)
    && (e.worker.Some? ==> e.worker.value < next)
    && (e.lsner.Some? ==> e.lsner.value < next)
  }

  ghost predicate EntriesOk(t: Table, next: Obj) {
    && (forall n :: n in t ==> Phased(t[n]) && EntryBelow(t[n], next))
    && (forall n, n' :: n in t && n' in t && n != n' ==> Apart(t[n], t[n']))
  }

  ghost predicate ConnectorsOk(t: Table, connecting: set<Obj>) {
    forall c :: c in connecting <==> exists n :: HasConnector(t, n, c)
  }

  /** The workers of the table are those started whose session neither was dropped nor ended. */
  ghost predicate CrewOk(t: Table, crew: Crew) {
    && (forall n, w :: HasWorker(t, n, w) ==> w in crew && crew[w].fate.Held?)
    && (forall w :: w in crew && crew[w].fate.Held? ==> exists n :: HasWorker(t, n, w))
  }

  function RunCount(x: Worker): nat {
    if x.running then 1 else 0
  }

  function EndCount(x: Worker): nat {
    if x.fate.Ended? then 1 else 0
  }

  /** A worker connected once gets finished() at most once; one connected again gets it at least twice,
      after its last run. */
  ghost predicate AccountOk(x: Worker) {
    && x.links >= 1
    && (x.running || x.pending + EndCount(x) >= if x.links > 1 then 2 else 1)
    && (x.links == 1 ==> RunCount(x) + x.pending + EndCount(x) <= 1)
  }

  ghost predicate AccountsOk(crew: Crew, next: Obj) {
    forall w :: w in crew ==> w < next && AccountOk(crew[w])
  }

  ghost predicate ConnsOk(t: Table, freedConns: seq<Obj>, next: Obj) {
    && Distinct(freedConns) && (forall i :: 0 <= i < |freedConns| ==> freedConns[i] < next)
    && (forall n :: n in t && t[n].conn.Some? ==> t[n].conn.value !in freedConns)
  }

  ghost predicate LsnersOk(ls: Lsners, next: Obj) {
    forall l :: l in ls.freed ==> l < next
  }

  /** Every entry is in one phase, entries share nothing, and every object is accounted for. */
  ghost predicate Valid(st: State) {
    && EntriesOk(st.entries, st.next) && ConnectorsOk(st.entries, st.connecting)
    && CrewOk(st.entries, st.crew) && AccountsOk(st.crew, st.next)
    && ConnsOk(st.entries, st.freedConns, st.next) && LsnersOk(st.lsners, st.next)
  }

  // ----- Each part, under each kind of change -----

  lemma {:induction false} EntriesPut(t: Table, next: Obj, name: string, e: Entry, next': Obj)
    requires EntriesOk(t, next) && next <= next' && Phased(e) && EntryBelow(e, next')
    requires forall n :: n in t && n != name ==> Apart(t[n], e) && Apart(e, t[n])
    ensures EntriesOk(t[name := e], next')
  {
  }

  lemma {:induction false} EntriesDrop(t: Table, next: Obj, name: string, next': Obj)
    requires EntriesOk(t, next) && next <= next'
    ensures EntriesOk(t - {name}, next')
  {
  }

  lemma {:induction false} ConnectorsSame(t: Table, t': Table, connecting: set<Obj>)
    requires ConnectorsOk(t, connecting) && forall n, c :: HasConnector(t', n, c) <==> HasConnector(t, n, c)
    ensures ConnectorsOk(t', connecting)
  {
  }

  lemma {:induction false} ConnectorAdded(t: Table, t': Table, connecting: set<Obj>, name: string, c: Obj)
    requires ConnectorsOk(t, connecting)
    requires forall n, x :: HasConnector(t', n, x) <==> HasConnector(t, n, x) || (n == name && x == c)
    ensures ConnectorsOk(t', connecting + {c})
  {
    forall x
      ensures x in connecting + {c} <==> exists n :: HasConnector(t', n, x)
    {
      if n :| HasConnector(t, n, x) {
        assert HasConnector(t', n, x);
      }
      assert x == c ==> HasConnector(t', name, x);
    }
  }

  lemma {:induction false} ConnectorDone(t: Table, t': Table, next: Obj, connecting: set<Obj>, name: string, c: Obj)
    requires EntriesOk(t, next) && ConnectorsOk(t, connecting) && HasConnector(t, name, c)
    requires forall n, x :: HasConnector(t', n, x) <==> HasConnector(t, n, x) && n != name
    ensures ConnectorsOk(t', connecting - {c})
  {
    forall x
      ensures x in connecting - {c} <==> exists n :: HasConnector(t', n, x)
    {
      if n :| HasConnector(t, n, x) {
        assert x != c ==> HasConnector(t', n, x);
      }
      if n :| HasConnector(t', n, x) {
        assert Apart(t[n], t[name]);
      }
    }
  }

  ghost predicate SameFates(crew: Crew, crew': Crew) {
    crew'.Keys == crew.Keys && forall w :: w in crew ==> crew'[w].fate == crew[w].fate
  }

  lemma {:induction false} CrewSame(t: Table, t': Table, crew: Crew, crew': Crew)
    requires CrewOk(t, crew) && SameFates(crew, crew') && forall n, w :: HasWorker(t', n, w) <==> HasWorker(t, n, w)
    ensures CrewOk(t', crew')
  {
  }

  lemma {:induction false} WorkerAdded(t: Table, t': Table, crew: Crew, name: string, w: Obj, x: Worker)
    requires CrewOk(t, crew) && w !in crew && x.fate.Held?
    requires forall n, v :: HasWorker(t', n, v) <==> HasWorker(t, n, v) || (n == name && v == w)
    ensures CrewOk(t', crew[w := x])
  {
    var crew' := crew[w := x];
    forall v | v in crew' && crew'[v].fate.Held?
      ensures exists n :: HasWorker(t', n, v)
    {
      if v == w {
        assert HasWorker(t', name, v);
      } else {
        var n :| HasWorker(t, n, v);
        assert HasWorker(t', n, v);
      }
    }
  }

  lemma {:induction false} WorkerGone(t: Table, t': Table, next: Obj, crew: Crew, name: string, w: Obj, x: Worker)
    requires EntriesOk(t, next) && CrewOk(t, crew) && HasWorker(t, name, w) && !x.fate.Held?
    requires forall n, v :: HasWorker(t', n, v) <==> HasWorker(t, n, v) && n != name
    ensures CrewOk(t', crew[w := x])
  {
    var crew' := crew[w := x];
    forall n, v | HasWorker(t', n, v)
      ensures v in crew' && crew'[v].fate.Held?
    {
      assert Apart(t[n], t[name]);
    }
    forall v | v in crew' && crew'[v].fate.Held?
      ensures exists n :: HasWorker(t', n, v)
    {
      var n :| HasWorker(t, n, v);
      assert HasWorker(t', n, v);
    }
  }

  lemma {:induction false} ConnFreed(t: Table, freedConns: seq<Obj>, next: Obj, name: string, c: Obj, next': Obj)
    requires ConnsOk(t, freedConns, next) && next <= next' && c !in freedConns && c < next'
    requires forall n :: n in t && n != name ==> t[n].conn != Some(c)
    ensures ConnsOk(t - {name}, freedConns + [c], next')
  {
    DistinctMore(freedConns, c);
  }

  lemma {:induction false} ConnNotShared(t: Table, next: Obj, name: string)
    requires EntriesOk(t, next) && name in t && t[name].conn.Some?
    ensures forall n :: n in t && n != name ==> t[n].conn != t[name].conn
  {
    forall n | n in t && n != name
      ensures t[n].conn != t[name].conn
    {
      assert Apart(t[name], t[n]);
    }
  }

  lemma {:induction false} CancelOk(t: Table, next: Obj, name: string, ls: Lsners, ok: bool)
    requires EntriesOk(t, next) && name in t && LsnersOk(ls, next)
    ensures LsnersOk(Cancel(ls, t[name].lsner, ok), next)
  {
    assert EntryBelow(t[name], next);
  }

  lemma {:induction false} QuitOk(crew: Crew, next: Obj, w: Option<Obj>)
    requires AccountsOk(crew, next)
    ensures SameFates(crew, Quit(crew, w)) && AccountsOk(Quit(crew, w), next)
  {
  }

  // ----- Each slot keeps the table in order -----

  /** Changing listener or reconnect wish of one entry. */
  lemma {:induction false} AdjustedValid(st: State, name: string, e: Entry, crew': Crew, ls': Lsners, next': Obj)
    requires Valid(st) && name in st.entries && st.next <= next'
    requires e == st.entries[name].(lsner := e.lsner, wantReconn := e.wantReconn) && Phased(e)
    requires e.lsner.None? || e.lsner == st.entries[name].lsner || (e.lsner == Some(st.next) && st.next < next')
    requires SameFates(st.crew, crew') && AccountsOk(crew', next') && LsnersOk(ls', next')
    ensures Valid(st.(entries := st.entries[name := e], crew := crew', lsners := ls', next := next'))
  {
    var t, t' := st.entries, st.entries[name := e];
    forall n | n in t && n != name
      ensures Apart(t[n], e) && Apart(e, t[n])
    {
      assert Apart(t[n], t[name]) && Apart(t[name], t[n]) && EntryBelow(t[n], st.next);
    }
    assert EntryBelow(t[name], st.next);
    EntriesPut(t, st.next, name, e, next');
    ConnectorsSame(t, t', st.connecting);
    CrewSame(t, t', st.crew, crew');
  }

  lemma {:induction false} StoppedValid(st: State, name: string, ok: bool)
    requires Valid(st)
    ensures Valid(Stopped(st, name, ok))
  {
    if name in st.entries {
      var e := st.entries[name];
      QuitOk(st.crew, st.next, e.worker);
      CancelOk(st.entries, st.next, name, st.lsners, ok);
      AdjustedValid(st, name, e.(lsner := None), Quit(st.crew, e.worker), Cancel(st.lsners, e.lsner, ok), st.next);
    }
  }

  lemma {:induction false} StartedValid(st: State, name: string, sess: string, ok: bool)
    requires Valid(st)
    ensures Valid(Started(st, name, sess, ok))
  {
    var e := Entry(Some(st.next), None, None, None, false);
    if name != "" && sess != "" && name !in st.entries {
      var t' := st.entries[name := e];
      EntriesPut(st.entries, st.next, name, e, st.next + 1);
      ConnectorAdded(st.entries, t', st.connecting, name, st.next);
      CrewSame(st.entries, t', st.crew, st.crew);
    } else {
      StoppedValid(st, name, ok);
    }
  }

  lemma {:induction false} RefusedValid(st: State, name: string, c: Obj)
    requires Valid(st) && HasConnector(st.entries, name, c)
    ensures Valid(Connected(st, name, c, false))
  {
    var t := st.entries;
    assert Phased(t[name]);
    EntriesDrop(t, st.next, name, st.next + 1);
    ConnectorDone(t, t - {name}, st.next, st.connecting, name, c);
    CrewSame(t, t - {name}, st.crew, st.crew);
    ConnFreed(t, st.freedConns, st.next, name, st.next, st.next + 1);
  }

  lemma {:induction false} ListeningValid(st: State, name: string, c: Obj)
    requires Valid(st) && HasConnector(st.entries, name, c)
    ensures Valid(Connected(st, name, c, true))
  {
    var t, t' := st.entries, Connected(st, name, c, true).entries;
    assert Phased(t[name]);
    EntriesPut(t, st.next, name, t'[name], st.next + 3);
    ConnectorDone(t, t', st.next, st.connecting, name, c);
    WorkerAdded(t, t', st.crew, name, st.next + 1, Worker(true, false, 1, 0, Held));
  }

  /** Removing the entry of a worker, whose connection is freed with it. */
  lemma {:induction false} RemovedValid(st: State, name: string, w: Obj, x: Worker, ok: bool)
    requires Valid(st) && HasWorker(st.entries, name, w) && st.entries[name].conn.Some?
    requires !x.fate.Held? && AccountOk(x)
    ensures Valid(st.(entries := st.entries - {name}, freedConns := st.freedConns + [st.entries[name].conn.value],
                      lsners := Cancel(st.lsners, st.entries[name].lsner, ok), crew := st.crew[w := x]))
  {
    var t := st.entries;
    assert Phased(t[name]) && EntryBelow(t[name], st.next);
    EntriesDrop(t, st.next, name, st.next);
    ConnectorsSame(t, t - {name}, st.connecting);
    WorkerGone(t, t - {name}, st.next, st.crew, name, w, x);
    ConnNotShared(t, st.next, name);
    ConnFreed(t, st.freedConns, st.next, name, t[name].conn.value, st.next);
    CancelOk(t, st.next, name, st.lsners, ok);
  }

  lemma {:induction false} FinishedValid(st: State, name: string, w: Obj, ok: bool)
    requires Valid(st) && HasWorker(st.entries, name, w) && st.entries[name].conn.Some?
    requires w in st.crew && st.crew[w].pending > 0
    ensures Valid(Finished(st, name, w, ok))
  {
    var x := st.crew[w];
    assert x.fate.Held? && AccountOk(x);
    RemovedValid(st, name, w, x.(pending := x.pending - 1, fate := Ended), ok);
  }

  lemma {:induction false} RelistenedValid(st: State, name: string, w: Obj)
    requires Valid(st) && HasWorker(st.entries, name, w) && st.entries[name].conn.Some? && w in st.crew
    ensures Valid(Repaired(st, name, w, Relistened))
  {
    var e, x := st.entries[name], st.crew[w];
    assert Phased(e) && AccountOk(x);
    CancelOk(st.entries, st.next, name, st.lsners, true);
    var crew' := st.crew[w := x.(links := x.links + 1, running := true)];
    AdjustedValid(st, name, e.(lsner := Some(st.next)), crew', Cancel(st.lsners, e.lsner, true), st.next + 1);
  }

  lemma {:induction false} RepairedValid(st: State, name: string, w: Obj, repair: Repair)
    requires Valid(st) && HasWorker(st.entries, name, w) && st.entries[name].conn.Some? && w in st.crew
    ensures Valid(Repaired(st, name, w, repair))
  {
    var e, x := st.entries[name], st.crew[w];
    assert Phased(e) && x.fate.Held? && AccountOk(x);
    CancelOk(st.entries, st.next, name, st.lsners, !repair.CancelFailed?);
    QuitOk(st.crew, st.next, Some(w));
    var ls := Cancel(st.lsners, e.lsner, !repair.CancelFailed?);
    match repair
    case CancelFailed => AdjustedValid(st, name, e.(wantReconn := true), Quit(st.crew, Some(w)), ls, st.next);
    case StillListening => AdjustedValid(st, name, e.(wantReconn := true), Quit(st.crew, Some(w)), ls, st.next);
    case Denied => RemovedValid(st, name, w, x.(fate := Dropped), true);
    case Relistened => RelistenedValid(st, name, w);
  }

  lemma {:induction false} ThreadEndedValid(st: State, w: Obj)
    requires Valid(st) && w in st.crew && st.crew[w].running
    ensures Valid(st.(crew := st.crew[w := Over(st.crew[w])]))
  {
    var crew' := st.crew[w := Over(st.crew[w])];
    assert AccountOk(st.crew[w]) && AccountOk(Over(st.crew[w]));
    CrewSame(st.entries, st.entries, st.crew, crew');
  }

  /** The sender of a signal belongs to one entry only. */
  lemma {:induction false} SenderUnique(st: State, n: string, n': string, x: Obj)
    requires Valid(st)
    ensures HasConnector(st.entries, n, x) && HasConnector(st.entries, n', x) ==> n == n'
    ensures HasWorker(st.entries, n, x) && HasWorker(st.entries, n', x) ==> n == n'
  {
    if n in st.entries && n' in st.entries && n != n' {
      assert Apart(st.entries[n], st.entries[n']);
    }
  }

  /** No slot breaks the table, and completing a connection always finds its entry. */
  lemma {:induction false} NextValid(st: State, e: Event, st': State)
    requires Valid(st) && Next(st, e, st')
    ensures Valid(st')
    ensures !e.WorkerFinished? && !e.ListenError? ==> !st'.failed
  {
    match e
    case StartClicked(name, sess, ok) => StartedValid(st, name, sess, ok);
    case StopClicked(name, ok) => StoppedValid(st, name, ok);
    case ConnectFinished(c, listening) =>
      var n :| HasConnector(st.entries, n, c) && st' == Connected(st, n, c, listening);
      if listening {
        ListeningValid(st, n, c);
      } else {
        RefusedValid(st, n, c);
      }
    case ThreadEnded(w) => ThreadEndedValid(st, w);
    case WorkerFinished(w, ok) =>
      if n :| HasWorker(st.entries, n, w) && st.entries[n].conn.Some? && st' == Finished(st, n, w, ok) {
        FinishedValid(st, n, w, ok);
      }
    case ListenError(w, repair) =>
      if n :| HasWorker(st.entries, n, w) && st.entries[n].conn.Some? && st' == Repaired(st, n, w, repair) {
        RepairedValid(st, n, w, repair);
      }
  }

  // ----- Every run -----

  ghost predicate Steps(states: seq<State>, events: seq<Event>) {
    && |states| == |events| + 1
    && forall i {:trigger Next(states[i], events[i], states[i + 1])} ::
         0 <= i < |events| ==> Next(states[i], events[i], states[i + 1])
  }

  ghost predicate Run(states: seq<State>, events: seq<Event>) {
    Steps(states, events) && states[0] == NO_STATE
  }

  lemma {:induction false} StepsNext(states: seq<State>, events: seq<Event>, i: nat)
    requires Steps(states, events) && 0 < i < |states|
    ensures Next(states[i - 1], events[i - 1], states[i])
  {
    var k := i - 1;
    assert Next(states[k], events[k], states[k + 1]);
  }

  lemma {:induction false} StepsValid(states: seq<State>, events: seq<Event>, i: nat)
    requires Steps(states, events) && i < |states| && Valid(states[0])
    ensures Valid(states[i])
  {
    if i > 0 {
      StepsValid(states, events, i - 1);
      StepsNext(states, events, i);
      NextValid(states[i - 1], events[i - 1], states[i]);
    }
  }

  lemma {:induction false} RunValid(states: seq<State>, events: seq<Event>, i: nat)
    requires Run(states, events) && i < |states|
    ensures Valid(states[i])
  {
    StepsValid(states, events, i);
  }

  lemma {:induction false} SignalFound(st: State, e: Event, st': State)
    requires Valid(st) && Next(st, e, st') && (e.WorkerFinished? || e.ListenError?)
    ensures e.worker in st.crew && (!st'.failed <==> st.crew[e.worker].fate.Held?)
  {
    if st.crew[e.worker].fate.Held? {
      var n :| HasWorker(st.entries, n, e.worker);
    }
  }

  /** A worker's signal finds its entry exactly as long as the session was neither dropped by a denied
      relisten nor already ended by an earlier finished(). */
  lemma {:induction false} WorkerSignalFound(states: seq<State>, events: seq<Event>, i: nat)
    requires Run(states, events) && i < |events| && (events[i].WorkerFinished? || events[i].ListenError?)
    ensures events[i].worker in states[i].crew
    ensures !states[i + 1].failed <==> states[i].crew[events[i].worker].fate.Held?
  {
    RunValid(states, events, i);
    assert Next(states[i], events[i], states[i + 1]);
    SignalFound(states[i], events[i], states[i + 1]);
  }

  // ----- finished() may be delivered more than once -----

  function Relistens(events: seq<Event>, w: Obj): nat {
    if events == [] then 0
    else Relistens(events[..|events| - 1], w) + if events[|events| - 1] == ListenError(w, Relistened) then 1 else 0
  }

  function Denials(events: seq<Event>, w: Obj): nat {
    if events == [] then 0
    else Denials(events[..|events| - 1], w) + if events[|events| - 1] == ListenError(w, Denied) then 1 else 0
  }

  /** What the crew list says about `w` is what happened to it. */
  ghost predicate Remembered(st: State, events: seq<Event>, w: Obj) {
    if w in st.crew then
      && st.crew[w].links == 1 + Relistens(events, w)
      && (st.crew[w].fate.Dropped? <==> Denials(events, w) > 0)
    else Relistens(events, w) == 0 && Denials(events, w) == 0
  }

  /** What a step does to the part of a worker's record that is remembered. */
  ghost predicate RemembersStep(crew: Crew, e: Event, crew': Crew, w: Obj) {
    && (e == ListenError(w, Relistened) || e == ListenError(w, Denied) ==> w in crew && crew[w].fate.Held?)
    && (if w in crew then
          && w in crew' && crew'[w].links == crew[w].links + (if e == ListenError(w, Relistened) then 1 else 0)
          && (crew'[w].fate.Dropped? <==> crew[w].fate.Dropped? || e == ListenError(w, Denied))
        else w in crew' ==> crew'[w] == Worker(true, false, 1, 0, Held))
  }

  lemma {:induction false} RepairRemembers(st: State, name: string, v: Obj, repair: Repair, w: Obj)
    requires name in st.entries && st.entries[name].conn.Some? && v in st.crew && st.crew[v].fate.Held?
    ensures RemembersStep(st.crew, ListenError(v, repair), Repaired(st, name, v, repair).crew, w)
  {
  }

  lemma {:induction false} RememberedStep(st: State, e: Event, st': State, w: Obj)
    requires Valid(st) && Next(st, e, st') && !st'.failed
    ensures RemembersStep(st.crew, e, st'.crew, w)
  {
    match e
    case StartClicked(name, sess, ok) =>
    case StopClicked(name, ok) =>
    case ConnectFinished(c, listening) => assert st.next + 1 !in st.crew;
    case ThreadEnded(v) =>
    case WorkerFinished(v, ok) => SignalFound(st, e, st');
    case ListenError(v, repair) =>
      SignalFound(st, e, st');
      var name :| HasWorker(st.entries, name, v) && st.entries[name].conn.Some? && st' == Repaired(st, name, v, repair);
      RepairRemembers(st, name, v, repair, w);
  }

  lemma {:induction false} RunRemembers(states: seq<State>, events: seq<Event>, i: nat, w: Obj)
    requires Run(states, events) && i < |states| && !states[i].failed
    ensures Remembered(states[i], events[..i], w)
  {
    if i > 0 {
      StepsNext(states, events, i);
      RunRemembers(states, events, i - 1, w);
      RunValid(states, events, i - 1);
      RememberedStep(states[i - 1], events[i - 1], states[i], w);
      assert events[..i][..i - 1] == events[..i - 1];
    }
  }

  /** `w` has said its last word: its thread is over and all its deliveries were made, or one of them failed. */
  ghost predicate LastWord(states: seq<State>, events: seq<Event>, w: Obj)
    requires Run(states, events)
  {
    var last := states[|events|];
    if last.failed then events != [] && events[|events| - 1].WorkerFinished? && events[|events| - 1].worker == w
    else w in last.crew && !last.crew[w].running && last.crew[w].pending == 0
  }

  /** The deliveries of finished() all find their entry exactly if the worker was neither relistened, since
      each relisten connects the signal once more, nor dropped. */
  lemma {:induction false} AllDeliveriesFoundIff(states: seq<State>, events: seq<Event>, w: Obj)
    requires Run(states, events) && LastWord(states, events, w)
    ensures !states[|events|].failed <==> Relistens(events, w) == 0 && Denials(events, w) == 0
  {
    var k := |events|;
    assert events[..k] == events;
    if states[k].failed {
      StepsNext(states, events, k);
      RunValid(states, events, k - 1);
      RunRemembers(states, events, k - 1, w);
      SignalFound(states[k - 1], events[k - 1], states[k]);
      assert AccountOk(states[k - 1].crew[w]);
    } else {
      RunValid(states, events, k);
      RunRemembers(states, events, k, w);
      assert AccountOk(states[k].crew[w]);
    }
  }

  function Forwarding(lsner: Option<Obj>, wantReconn: bool): Table {
    map["f" := Entry(None, Some(1), Some(2), lsner, wantReconn)]
  }

  /** The states of a run in which a worker is relistened and then stopped. */
  function RelistenedRun(i: int): State {
    if i <= 0 then NO_STATE
    else if i == 1 then
      State(map["f" := Entry(Some(0), None, None, None, false)], 1, {0}, [], map[], Lsners({}, {}), false)
    else if i == 2 then
      State(Forwarding(Some(3), false), 4, {}, [], map[2 := Worker(true, false, 1, 0, Held)], Lsners({}, {}), false)
    else if i == 3 then
      State(Forwarding(Some(4), false), 5, {}, [], map[2 := Worker(true, false, 2, 0, Held)], Lsners({3}, {}), false)
    else if i == 4 then
      State(Forwarding(None, false), 5, {}, [], map[2 := Worker(true, true, 2, 0, Held)], Lsners({3, 4}, {}), false)
    else if i == 5 then
      State(Forwarding(None, false), 5, {}, [], map[2 := Worker(false, false, 2, 2, Held)], Lsners({3, 4}, {}), false)
    else State(map[], 5, {}, [1], map[2 := Worker(false, false, 2, 1, Ended)], Lsners({3, 4}, {}), i > 6)
  }

  lemma {:induction false} RunBegins()
    ensures Next(RelistenedRun(0), StartClicked("f", "s", true), RelistenedRun(1))
    ensures Next(RelistenedRun(1), ConnectFinished(0, true), RelistenedRun(2))
  {
    assert HasConnector(RelistenedRun(1).entries, "f", 0);
    assert RelistenedRun(2) == Connected(RelistenedRun(1), "f", 0, true);
  }

  lemma {:induction false} RunRelistens()
    ensures Next(RelistenedRun(2), ListenError(2, Relistened), RelistenedRun(3))
    ensures Next(RelistenedRun(3), StopClicked("f", true), RelistenedRun(4))
  {
    assert HasWorker(RelistenedRun(2).entries, "f", 2);
    assert RelistenedRun(3) == Repaired(RelistenedRun(2), "f", 2, Relistened);
  }

  lemma {:induction false} RunStops()
    ensures Next(RelistenedRun(4), ThreadEnded(2), RelistenedRun(5))
    ensures Next(RelistenedRun(5), WorkerFinished(2, true), RelistenedRun(6))
    ensures Next(RelistenedRun(6), WorkerFinished(2, true), RelistenedRun(7))
  {
    assert HasWorker(RelistenedRun(5).entries, "f", 2);
    assert RelistenedRun(6) == Finished(RelistenedRun(5), "f", 2, true);
  }

  function RelistenEvents(): seq<Event> {
    [StartClicked("f", "s", true), ConnectFinished(0, true), ListenError(2, Relistened), StopClicked("f", true),
     ThreadEnded(2), WorkerFinished(2, true), WorkerFinished(2, true)]
  }

  lemma {:induction false} RelistenedStep(i: nat)
    requires i < |RelistenEvents()|
    ensures Next(RelistenedRun(i), RelistenEvents()[i], RelistenedRun(i + 1))
  {
    if i < 2 {
      RunBegins();
    } else if i < 4 {
      RunRelistens();
    } else {
      RunStops();
    }
  }

  /** The smallest such run: one relisten and no denial, and the second delivery finds no entry. */
  lemma {:induction false} RelistenThenFinish() returns (states: seq<State>, events: seq<Event>)
    ensures Run(states, events) && states[|events|].failed && LastWord(states, events, 2)
    ensures ListenError(2, Relistened) in events && ListenError(2, Denied) !in events
  {
    events := RelistenEvents();
    states := seq(|events| + 1, i requires 0 <= i => RelistenedRun(i));
    forall i | 0 <= i < |events|
      ensures Next(states[i], events[i], states[i + 1])
    {
      RelistenedStep(i);
    }
    assert events[2] == ListenError(2, Relistened) && events[6] == WorkerFinished(2, true);
  }

  // ----- Which workers can still be stopped -----

  lemma {:induction false} NotInTable(st: State, w: Obj)
    requires Valid(st) && w in st.crew && !st.crew[w].fate.Held?
    ensures forall n :: n in st.entries ==> st.entries[n].worker != Some(w)
  {
    forall n | n in st.entries
      ensures st.entries[n].worker != Some(w)
    {
      assert !HasWorker(st.entries, n, w);
    }
  }

  /** Nothing reaches a worker that has left the table, unless it was told to quit before. */
  lemma {:induction false} GoneStays(st: State, e: Event, st': State, w: Obj)
    requires Valid(st) && Next(st, e, st') && w in st.crew && !st.crew[w].fate.Held? && !st.crew[w].quitting
    requires st.crew[w].running
    ensures w in st'.crew && st'.crew[w].running && !st'.crew[w].quitting && !st'.crew[w].fate.Held?
  {
    NotInTable(st, w);
    match e
    case StartClicked(name, sess, ok) =>
    case StopClicked(name, ok) =>
    case ConnectFinished(c, listening) => assert st.next + 1 !in st.crew;
    case ThreadEnded(v) =>
    case WorkerFinished(v, ok) => SignalFound(st, e, st');
    case ListenError(v, repair) =>
      if name :| HasWorker(st.entries, name, v) && st.entries[name].conn.Some? && st' == Repaired(st, name, v, repair) {
        assert v != w;
      }
  }

  /** A worker that runs on when its session leaves the table, and that nobody told to quit, runs for ever. */
  lemma {:induction false} GoneRunsOn(states: seq<State>, events: seq<Event>, i: nat, w: Obj)
    requires Steps(states, events) && Valid(states[0]) && i < |states|
    requires w in states[0].crew && !states[0].crew[w].fate.Held?
    requires states[0].crew[w].running && !states[0].crew[w].quitting
    ensures w in states[i].crew && states[i].crew[w].running
      && !states[i].crew[w].quitting && !states[i].crew[w].fate.Held?
  {
    if i > 0 {
      GoneRunsOn(states, events, i - 1, w);
      StepsValid(states, events, i - 1);
      StepsNext(states, events, i);
      GoneStays(states[i - 1], events[i - 1], states[i], w);
    }
  }

  /** A series of steps from `st` after which `w` no longer runs. */
  ghost predicate Stops(st: State, w: Obj, states: seq<State>, events: seq<Event>) {
    && Steps(states, events) && states[0] == st
    && w in states[|events|].crew && !states[|events|].crew[w].running
  }

  lemma {:induction false} QuittingStops(st: State, w: Obj) returns (states: seq<State>, events: seq<Event>)
    requires !st.failed && w in st.crew && st.crew[w].running && st.crew[w].quitting
    ensures Stops(st, w, states, events)
  {
    states := [st, st.(crew := st.crew[w := Over(st.crew[w])])];
    events := [ThreadEnded(w)];
  }

  lemma {:induction false} HeldStops(st: State, w: Obj) returns (states: seq<State>, events: seq<Event>)
    requires Valid(st) && !st.failed && w in st.crew && st.crew[w].running && st.crew[w].fate.Held?
    ensures Stops(st, w, states, events)
  {
    var name :| HasWorker(st.entries, name, w);
    var st1 := Stopped(st, name, true);
    var states1, events1 := QuittingStops(st1, w);
    states, events := [st] + states1, [StopClicked(name, true)] + events1;
    forall i | 0 <= i < |events|
      ensures Next(states[i], events[i], states[i + 1])
    {
      if i > 0 {
        StepsNext(states1, events1, i);
      }
    }
  }

  /** A running worker can still be stopped exactly if its session is in the table or it was told to quit. */
  lemma {:induction false} CanBeStoppedIff(st: State, w: Obj)
    requires Valid(st) && !st.failed && w in st.crew && st.crew[w].running
    ensures (exists states, events :: Stops(st, w, states, events)) <==> st.crew[w].fate.Held? || st.crew[w].quitting
  {
    if st.crew[w].quitting {
      var states, events := QuittingStops(st, w);
    } else if st.crew[w].fate.Held? {
      var states, events := HeldStops(st, w);
    } else {
      forall states, events | Steps(states, events) && states[0] == st
        ensures !Stops(st, w, states, events)
      {
        GoneRunsOn(states, events, |events|, w);
      }
    }
  }

  /** The worker runs, nobody told it to quit, and its session is not in the table. */
  ghost predicate Runaway(st: State, w: Obj) {
    !st.failed && w in st.crew && st.crew[w].running && !st.crew[w].quitting && !st.crew[w].fate.Held?
  }

  /** The smallest run to such a worker: its only relisten is denied. */
  lemma {:induction false} DeniedRunaway() returns (states: seq<State>, events: seq<Event>)
    ensures Run(states, events) && Runaway(states[|events|], 2)
    ensures events == [StartClicked("f", "s", true), ConnectFinished(0, true), ListenError(2, Denied)]
  {
    RunBegins();
    var st := RelistenedRun(2);
    assert HasWorker(st.entries, "f", 2);
    states := [NO_STATE, RelistenedRun(1), st, Repaired(st, "f", 2, Denied)];
    events := [StartClicked("f", "s", true), ConnectFinished(0, true), ListenError(2, Denied)];
  }

  /** The states of a run without a denial: a listener that cannot be cancelled stops the worker, an error
      queued before that relistens and restarts it, and then finished() ends its session. */
  function RestartedRun(i: int): State {
    if i <= 2 then RelistenedRun(i)
    else if i == 3 then
      State(Forwarding(Some(3), true), 4, {}, [], map[2 := Worker(true, true, 1, 0, Held)], Lsners({}, {}), false)
    else if i == 4 then
      State(Forwarding(Some(3), true), 4, {}, [], map[2 := Worker(false, false, 1, 1, Held)], Lsners({}, {}), false)
    else if i == 5 then
      State(Forwarding(Some(4), true), 5, {}, [], map[2 := Worker(true, false, 2, 1, Held)], Lsners({3}, {}), false)
    else State(map[], 5, {}, [1], map[2 := Worker(true, false, 2, 0, Ended)], Lsners({3, 4}, {}), false)
  }

  function RestartEvents(): seq<Event> {
    [StartClicked("f", "s", true), ConnectFinished(0, true), ListenError(2, CancelFailed), ThreadEnded(2),
     ListenError(2, Relistened), WorkerFinished(2, true)]
  }

  lemma {:induction false} RestartStops()
    ensures Next(RestartedRun(2), ListenError(2, CancelFailed), RestartedRun(3))
    ensures Next(RestartedRun(3), ThreadEnded(2), RestartedRun(4))
  {
    assert HasWorker(RestartedRun(2).entries, "f", 2);
    assert RestartedRun(3) == Repaired(RestartedRun(2), "f", 2, CancelFailed);
  }

  lemma {:induction false} RestartEnds()
    ensures Next(RestartedRun(4), ListenError(2, Relistened), RestartedRun(5))
    ensures Next(RestartedRun(5), WorkerFinished(2, true), RestartedRun(6))
  {
    assert HasWorker(RestartedRun(4).entries, "f", 2) && HasWorker(RestartedRun(5).entries, "f", 2);
    assert RestartedRun(5) == Repaired(RestartedRun(4), "f", 2, Relistened);
    assert RestartedRun(6) == Finished(RestartedRun(5), "f", 2, true);
  }

  lemma {:induction false} RestartStep(i: nat)
    requires i < |RestartEvents()|
    ensures Next(RestartedRun(i), RestartEvents()[i], RestartedRun(i + 1))
  {
    RunBegins();
    RestartStops();
    RestartEnds();
  }

  lemma {:induction false} RestartedRunaway() returns (states: seq<State>, events: seq<Event>)
    ensures Run(states, events) && Runaway(states[|events|], 2) && ListenError(2, Denied) !in events
  {
    events := RestartEvents();
    states := seq(|events| + 1, i requires 0 <= i => RestartedRun(i));
    forall i | 0 <= i < |events|
      ensures Next(states[i], events[i], states[i + 1])
    {
      RestartStep(i);
    }
  }

  // ----- No connection is lost -----

  /** The connections handed to the slot in the first `i` steps; each is a new object. */
  ghost function HandedOut(states: seq<State>, events: seq<Event>, i: nat): seq<Obj>
    requires i <= |events| && i <= |states|
  {
    if i == 0 then []
    else HandedOut(states, events, i - 1) + if events[i - 1].ConnectFinished? then [states[i - 1].next] else []
  }

  function Connects(events: seq<Event>): nat {
    if events == [] then 0
    else Connects(events[..|events| - 1]) + if events[|events| - 1].ConnectFinished? then 1 else 0
  }

  predicate HasConn(t: Table, name: string, c: Obj) {
    name in t && t[name].conn == Some(c)
  }

  ghost predicate ConnHeld(t: Table, c: Obj) {
    exists n :: HasConn(t, n, c)
  }

  ghost function Holders(t: Table): set<string> {
    set n | n in t && t[n].conn.Some?
  }

  /** Each of the connections `all` is freed or held by an entry, and nothing else is. */
  ghost predicate Conserved(t: Table, freedConns: seq<Obj>, all: seq<Obj>) {
    && (forall c :: c in all <==> c in freedConns || ConnHeld(t, c))
    && |all| == |freedConns| + |Holders(t)|
  }

  lemma {:induction false} HoldersSame(t: Table, t': Table, freedConns: seq<Obj>, all: seq<Obj>)
    requires Conserved(t, freedConns, all) && forall n, c :: HasConn(t', n, c) <==> HasConn(t, n, c)
    ensures Conserved(t', freedConns, all)
  {
    forall n
      ensures n in Holders(t') <==> n in Holders(t)
    {
      if n in Holders(t) {
        assert HasConn(t, n, t[n].conn.value) && HasConn(t', n, t[n].conn.value);
      }
      if n in Holders(t') {
        assert HasConn(t', n, t'[n].conn.value) && HasConn(t, n, t'[n].conn.value);
      }
    }
    assert Holders(t') == Holders(t);
    forall c
      ensures ConnHeld(t', c) <==> ConnHeld(t, c)
    {
    }
  }

  /** An entry gets a new connection. */
  lemma {:induction false} ConnTaken(t: Table, freedConns: seq<Obj>, all: seq<Obj>, name: string, e: Entry, c: Obj)
    requires Conserved(t, freedConns, all) && name in t && t[name].conn.None? && e.conn == Some(c)
    ensures Conserved(t[name := e], freedConns, all + [c])
  {
    var t' := t[name := e];
    assert Holders(t') == Holders(t) + {name};
    forall x
      ensures ConnHeld(t', x) <==> x == c || ConnHeld(t, x)
    {
      assert HasConn(t', name, c);
      if n :| HasConn(t, n, x) {
        assert HasConn(t', n, x);
      }
      if n :| HasConn(t', n, x) {
        assert n != name ==> HasConn(t, n, x);
      }
    }
  }

  /** An entry without connection goes, and a connection it never held is freed. */
  lemma {:induction false} ConnRefused(t: Table, freedConns: seq<Obj>, all: seq<Obj>, name: string, c: Obj)
    requires Conserved(t, freedConns, all) && name in t && t[name].conn.None?
    ensures Conserved(t - {name}, freedConns + [c], all + [c])
  {
    var t' := t - {name};
    assert Holders(t') == Holders(t);
    forall n, x
      ensures HasConn(t', n, x) <==> HasConn(t, n, x)
    {
    }
    forall x
      ensures ConnHeld(t', x) <==> ConnHeld(t, x)
    {
    }
  }

  /** An entry goes and its connection is freed. */
  lemma {:induction false} ConnGivenBack(t: Table, freedConns: seq<Obj>, all: seq<Obj>, name: string, c: Obj)
    requires Conserved(t, freedConns, all) && HasConn(t, name, c)
    ensures Conserved(t - {name}, freedConns + [c], all)
  {
    var t' := t - {name};
    assert Holders(t) == Holders(t') + {name};
    forall x
      ensures x == c || ConnHeld(t', x) <==> x == c || ConnHeld(t, x)
    {
      if n :| HasConn(t, n, x) {
        assert n != name ==> HasConn(t', n, x);
      }
      if n :| HasConn(t', n, x) {
        assert HasConn(t, n, x);
      }
    }
  }

  lemma {:induction false} StoppedConserves(st: State, name: string, ok: bool, all: seq<Obj>)
    requires Conserved(st.entries, st.freedConns, all)
    ensures Conserved(Stopped(st, name, ok).entries, st.freedConns, all)
  {
    HoldersSame(st.entries, Stopped(st, name, ok).entries, st.freedConns, all);
  }

  lemma {:induction false} StartedConserves(st: State, name: string, sess: string, ok: bool, all: seq<Obj>)
    requires Conserved(st.entries, st.freedConns, all)
    ensures Conserved(Started(st, name, sess, ok).entries, Started(st, name, sess, ok).freedConns, all)
  {
    if name in st.entries {
      StoppedConserves(st, name, ok, all);
    } else {
      HoldersSame(st.entries, Started(st, name, sess, ok).entries, st.freedConns, all);
    }
  }

  lemma {:induction false} ConnectedConserves(st: State, name: string, c: Obj, listening: bool, all: seq<Obj>)
    requires Valid(st) && HasConnector(st.entries, name, c) && Conserved(st.entries, st.freedConns, all)
    ensures var st' := Connected(st, name, c, listening);
      Conserved(st'.entries, st'.freedConns, all + [st.next])
  {
    assert Phased(st.entries[name]);
    if listening {
      var e := Entry(None, Some(st.next), Some(st.next + 1), Some(st.next + 2), st.entries[name].wantReconn);
      ConnTaken(st.entries, st.freedConns, all, name, e, st.next);
    } else {
      ConnRefused(st.entries, st.freedConns, all, name, st.next);
    }
  }

  lemma {:induction false} RepairedConserves(st: State, name: string, w: Obj, repair: Repair, all: seq<Obj>)
    requires name in st.entries && st.entries[name].conn.Some? && w in st.crew
    requires Conserved(st.entries, st.freedConns, all)
    ensures var st' := Repaired(st, name, w, repair); Conserved(st'.entries, st'.freedConns, all)
  {
    if repair.Denied? {
      ConnGivenBack(st.entries, st.freedConns, all, name, st.entries[name].conn.value);
    } else {
      HoldersSame(st.entries, Repaired(st, name, w, repair).entries, st.freedConns, all);
    }
  }

  lemma {:induction false} StepConserves(st: State, e: Event, st': State, all: seq<Obj>)
    requires Valid(st) && Next(st, e, st') && Conserved(st.entries, st.freedConns, all)
    ensures Conserved(st'.entries, st'.freedConns, if e.ConnectFinished? then all + [st.next] else all)
  {
    match e
    case StartClicked(name, sess, ok) => StartedConserves(st, name, sess, ok, all);
    case StopClicked(name, ok) => StoppedConserves(st, name, ok, all);
    case ConnectFinished(c, listening) =>
      var n :| HasConnector(st.entries, n, c) && st' == Connected(st, n, c, listening);
      ConnectedConserves(st, n, c, listening, all);
    case ThreadEnded(w) =>
    case WorkerFinished(w, ok) =>
      if n :| HasWorker(st.entries, n, w) && st.entries[n].conn.Some? && st' == Finished(st, n, w, ok) {
        ConnGivenBack(st.entries, st.freedConns, all, n, st.entries[n].conn.value);
      }
    case ListenError(w, repair) =>
      if n :| HasWorker(st.entries, n, w) && st.entries[n].conn.Some? && st' == Repaired(st, n, w, repair) {
        RepairedConserves(st, n, w, repair, all);
      }
  }

  lemma {:induction false} RunNext(states: seq<State>, events: seq<Event>, i: nat)
    requires Run(states, events) && 0 < i < |states|
    ensures Next(states[i - 1], events[i - 1], states[i]) && Valid(states[i - 1])
  {
    RunValid(states, events, i - 1);
    StepsNext(states, events, i);
  }

  lemma {:induction false} NothingHeld()
    ensures Conserved(map[], [], [])
  {
    assert Holders(map[]) == {} && forall c :: !ConnHeld(map[], c);
  }

  lemma {:induction false} HandedOutMore(states: seq<State>, events: seq<Event>, i: nat)
    requires 0 < i <= |events| && i <= |states|
    ensures var all := HandedOut(states, events, i - 1);
      HandedOut(states, events, i) == if events[i - 1].ConnectFinished? then all + [states[i - 1].next] else all
  {
    var all := HandedOut(states, events, i - 1);
    assert all + [] == all;
  }

  lemma {:induction false} StepConservesAt(states: seq<State>, events: seq<Event>, i: nat, all: seq<Obj>)
    requires Run(states, events) && 0 < i < |states|
    requires Conserved(states[i - 1].entries, states[i - 1].freedConns, all)
    ensures Conserved(states[i].entries, states[i].freedConns,
                      if events[i - 1].ConnectFinished? then all + [states[i - 1].next] else all)
  {
    RunNext(states, events, i);
    StepConserves(states[i - 1], events[i - 1], states[i], all);
  }

  lemma {:induction false} RunConserves(states: seq<State>, events: seq<Event>, i: nat)
    requires Run(states, events) && i < |states|
    ensures Conserved(states[i].entries, states[i].freedConns, HandedOut(states, events, i))
  {
    if i == 0 {
      NothingHeld();
    } else {
      RunConserves(states, events, i - 1);
      StepConservesAt(states, events, i, HandedOut(states, events, i - 1));
      HandedOutMore(states, events, i);
    }
  }

  lemma {:induction false} HandedOutCount(states: seq<State>, events: seq<Event>, i: nat)
    requires i <= |events| && i <= |states|
    ensures |HandedOut(states, events, i)| == Connects(events[..i])
  {
    if i > 0 {
      HandedOutCount(states, events, i - 1);
      assert events[..i][..i - 1] == events[..i - 1];
    }
  }

  lemma {:induction false} HandedOutAt(states: seq<State>, events: seq<Event>, i: nat, j: nat)
    requires j < i <= |events| && i <= |states| && events[j].ConnectFinished?
    ensures states[j].next in HandedOut(states, events, i)
  {
    if j < i - 1 {
      HandedOutAt(states, events, i - 1, j);
    }
  }

  /** In every state of every run, a connection handed over by an earlier connect_finished is held by exactly
      one entry, or was freed, exactly once, but not both. */
  lemma {:induction false} ConnHeldOrFreed(states: seq<State>, events: seq<Event>, i: nat, j: nat)
    requires Run(states, events) && j < i < |states| && events[j].ConnectFinished?
    ensures var c, t, freed := states[j].next, states[i].entries, states[i].freedConns;
      && Distinct(freed)
      && (c in freed <==> !exists n :: HasConn(t, n, c))
      && (forall n, n' :: HasConn(t, n, c) && HasConn(t, n', c) ==> n == n')
  {
    RunConserves(states, events, i);
    RunValid(states, events, i);
    HandedOutAt(states, events, i, j);
    var c, t := states[j].next, states[i].entries;
    forall n, n' | HasConn(t, n, c) && HasConn(t, n', c)
      ensures n == n'
    {
      assert n != n' ==> Apart(t[n], t[n']);
    }
    if n :| HasConn(t, n, c) {
      assert t[n].conn.value !in states[i].freedConns;
    }
  }

  /** Once no entry holds a connection, as many were freed as were handed over. */
  lemma {:induction false} AllConnsFreed(states: seq<State>, events: seq<Event>, i: nat)
    requires Run(states, events) && i < |states|
    requires forall n :: n in states[i].entries ==> states[i].entries[n].conn.None?
    ensures |states[i].freedConns| == Connects(events[..i])
  {
    RunConserves(states, events, i);
    HandedOutCount(states, events, i);
    assert Holders(states[i].entries) == {};
  }

  // ----- Which sessions want to be connected again -----

  predicate Fails(e: Event, w: Obj) {
    e == ListenError(w, CancelFailed) || e == ListenError(w, StillListening)
  }

  function Unrepaired(events: seq<Event>, w: Obj): nat {
    if events == [] then 0
    else Unrepaired(events[..|events| - 1], w)
         + if Fails(events[|events| - 1], w) then 1 else 0
  }

  /** The wish of every entry is that of its worker's history; a connecting entry has none. */
  ghost predicate WishesOk(t: Table, events: seq<Event>) {
    forall n :: n in t ==>
      t[n].wantReconn == (t[n].worker.Some? && Unrepaired(events, t[n].worker.value) > 0)
  }

  lemma {:induction false} CrewGrows(st: State, e: Event, st': State)
    requires Next(st, e, st')
    ensures st.crew.Keys <= st'.crew.Keys && (e.ListenError? ==> e.worker in st.crew)
  {
  }

  lemma {:induction false} StrangerUnrepaired(states: seq<State>, events: seq<Event>, i: nat, w: Obj)
    requires Run(states, events) && i < |states| && w !in states[i].crew
    ensures Unrepaired(events[..i], w) == 0
  {
    if i > 0 {
      StepsNext(states, events, i);
      assert events[..i][..i - 1] == events[..i - 1];
      CrewGrows(states[i - 1], events[i - 1], states[i]);
      StrangerUnrepaired(states, events, i - 1, w);
    }
  }

  lemma {:induction false} WishRepaired(st: State, w: Obj, repair: Repair, st': State, n: string)
    requires Valid(st) && Next(st, ListenError(w, repair), st') && n in st'.entries
    ensures n in st.entries && st'.entries[n].worker == st.entries[n].worker
    ensures st'.entries[n].wantReconn == (st.entries[n].wantReconn
      || (st.entries[n].worker == Some(w) && (repair.CancelFailed? || repair.StillListening?)))
  {
    if name :| HasWorker(st.entries, name, w) && st.entries[name].conn.Some? && st' == Repaired(st, name, w, repair) {
      if n != name {
        assert Apart(st.entries[n], st.entries[name]);
      }
    } else {
      assert !HasWorker(st.entries, n, w);
    }
  }

  /** What a step does to one entry's worker and wish. */
  lemma {:induction false} WishStep(st: State, e: Event, st': State, n: string)
    requires Valid(st) && Next(st, e, st') && n in st'.entries
    ensures var x := st'.entries[n];
      if n in st.entries && x.worker == st.entries[n].worker then
        x.wantReconn == (st.entries[n].wantReconn
          || (x.worker.Some? && Fails(e, x.worker.value)))
      else if n in st.entries then
        && st.entries[n].worker.None? && x.worker == Some(st.next + 1)
        && x.wantReconn == st.entries[n].wantReconn && e.ConnectFinished?
      else x.worker.None? && !x.wantReconn
  {
    match e
    case StartClicked(name, sess, ok) =>
    case StopClicked(name, ok) =>
    case ConnectFinished(c, listening) =>
      var name :| HasConnector(st.entries, name, c) && st' == Connected(st, name, c, listening);
      assert Phased(st.entries[name]);
    case ThreadEnded(w) =>
    case WorkerFinished(w, ok) =>
    case ListenError(w, repair) => WishRepaired(st, w, repair, st', n);
  }

  lemma {:induction false} RunWishes(states: seq<State>, events: seq<Event>, i: nat)
    requires Run(states, events) && i < |states|
    ensures WishesOk(states[i].entries, events[..i])
  {
    if i > 0 {
      RunWishes(states, events, i - 1);
      RunValid(states, events, i - 1);
      var st, e, st' := states[i - 1], events[i - 1], states[i];
      StepsNext(states, events, i);
      assert events[..i][..i - 1] == events[..i - 1];
      forall n | n in st'.entries
        ensures st'.entries[n].wantReconn
             == (st'.entries[n].worker.Some? && Unrepaired(events[..i], st'.entries[n].worker.value) > 0)
      {
        WishStep(st, e, st', n);
        if st.next + 1 !in st.crew {
          StrangerUnrepaired(states, events, i - 1, st.next + 1);
        }
      }
    }
  }

  lemma {:induction false} UnrepairedIff(events: seq<Event>, w: Obj)
    ensures Unrepaired(events, w) > 0 <==> exists j :: 0 <= j < |events| && Fails(events[j], w)
    decreases |events|
  {
    if events != [] {
      var front := events[..|events| - 1];
      UnrepairedIff(front, w);
      assert forall j :: 0 <= j < |front| ==> front[j] == events[j];
    }
  }

  /** A session is started again after its end exactly if a repair of its listener failed in a way that a new
      connection may cure. */
  lemma {:induction false} WantsReconnectIff(states: seq<State>, events: seq<Event>, i: nat, n: string, w: Obj)
    requires Run(states, events) && i < |states| && HasWorker(states[i].entries, n, w)
    ensures states[i].entries[n].wantReconn <==> exists j :: 0 <= j < i && Fails(events[j], w)
  {
    RunWishes(states, events, i);
    UnrepairedIff(events[..i], w);
    assert forall j :: 0 <= j < i ==> events[..i][j] == events[j];
  }

  // ----- Each listener is cancelled once -----

  /** The entry keeps a listener that was freed. */
  ghost predicate Stale(st: State, n: string) {
    n in st.entries && st.entries[n].lsner.Some? && st.entries[n].lsner.value in st.lsners.freed
  }

  ghost predicate Clean(st: State) {
    st.lsners.misused == {} && forall n :: !Stale(st, n)
  }

  ghost predicate KeepsPort(e: Event) {
    e.ListenError? && e.repair.StillListening?
  }

  /** Cancelling the listener of one entry leaves the listeners of the others alone. */
  lemma {:induction false} CancelElsewhere(st: State, name: string, n: string, ok: bool)
    requires Valid(st) && name in st.entries && n in st.entries && n != name && !Stale(st, n)
    ensures var l := st.entries[n].lsner;
      l.Some? ==> l.value !in Cancel(st.lsners, st.entries[name].lsner, ok).freed
  {
    assert Apart(st.entries[n], st.entries[name]);
  }

  lemma {:induction false} CleanTouched(st: State, name: string, n: string, ok: bool)
    requires Valid(st) && Clean(st)
    ensures name in st.entries && n in st.entries && n != name && st.entries[n].lsner.Some? ==>
      st.entries[n].lsner.value !in Cancel(st.lsners, st.entries[name].lsner, ok).freed
  {
    if name in st.entries && n in st.entries && n != name {
      assert !Stale(st, n);
      CancelElsewhere(st, name, n, ok);
    }
  }

  lemma {:induction false} CleanRepaired(st: State, name: string, w: Obj, repair: Repair, n: string)
    requires Valid(st) && Clean(st) && !repair.StillListening?
    requires name in st.entries && st.entries[name].conn.Some? && w in st.crew
    ensures !Stale(Repaired(st, name, w, repair), n)
  {
    assert !Stale(st, n);
    CleanTouched(st, name, n, !repair.CancelFailed?);
    assert EntryBelow(st.entries[name], st.next);
  }

  lemma {:induction false} CleanEntry(st: State, e: Event, st': State, n: string)
    requires Valid(st) && Clean(st) && Next(st, e, st') && !KeepsPort(e)
    ensures !Stale(st', n)
  {
    assert !Stale(st, n);
    match e
    case StartClicked(name, sess, ok) => CleanTouched(st, name, n, ok);
    case StopClicked(name, ok) => CleanTouched(st, name, n, ok);
    case ConnectFinished(c, listening) => assert st.next + 2 !in st.lsners.freed;
    case ThreadEnded(w) =>
    case WorkerFinished(w, ok) =>
      if name :| HasWorker(st.entries, name, w) && st.entries[name].conn.Some? && st' == Finished(st, name, w, ok) {
        CleanTouched(st, name, n, ok);
      }
    case ListenError(w, repair) =>
      if name :| HasWorker(st.entries, name, w) && st.entries[name].conn.Some? && st' == Repaired(st, name, w, repair) {
        CleanRepaired(st, name, w, repair, n);
      }
  }

  /** Without the still-listening outcome of a repair, whatever frees a listener takes it out of its entry. */
  lemma {:induction false} CleanStep(st: State, e: Event, st': State)
    requires Valid(st) && Clean(st) && Next(st, e, st') && !KeepsPort(e)
    ensures Clean(st')
  {
    forall n
      ensures !Stale(st', n)
    {
      CleanEntry(st, e, st', n);
    }
    forall n | n in st.entries
      ensures st.entries[n].lsner.Some? ==> st.entries[n].lsner.value !in st.lsners.freed
    {
      assert !Stale(st, n);
    }
  }

  /** Cancelling at `name`: the stale listener of `n` is misused, or still freed. */
  lemma {:induction false} CancelStale(st: State, name: string, n: string, ok: bool)
    requires name in st.entries && Stale(st, n)
    ensures var ls := Cancel(st.lsners, st.entries[name].lsner, ok);
      if name == n then ls.misused != {} else st.entries[n].lsner.value in ls.freed
  {
  }

  lemma {:induction false} StaleStopped(st: State, name: string, n: string, ok: bool)
    requires Stale(st, n)
    ensures Stale(Stopped(st, name, ok), n) || Stopped(st, name, ok).lsners.misused != {}
  {
    if name in st.entries {
      CancelStale(st, name, n, ok);
    }
  }

  lemma {:induction false} StaleFinished(st: State, name: string, w: Obj, n: string, ok: bool)
    requires Stale(st, n) && name in st.entries && st.entries[name].conn.Some? && w in st.crew && st.crew[w].pending > 0
    ensures Stale(Finished(st, name, w, ok), n) || Finished(st, name, w, ok).lsners.misused != {}
  {
    CancelStale(st, name, n, ok);
  }

  lemma {:induction false} StaleRepaired(st: State, name: string, w: Obj, n: string, repair: Repair)
    requires Stale(st, n) && name in st.entries && st.entries[name].conn.Some? && w in st.crew
    ensures Stale(Repaired(st, name, w, repair), n) || Repaired(st, name, w, repair).lsners.misused != {}
  {
    CancelStale(st, name, n, !repair.CancelFailed?);
  }

  lemma {:induction false} StaleConnected(st: State, name: string, c: Obj, listening: bool, n: string)
    requires Stale(st, n) && HasConnector(st.entries, name, c) && Phased(st.entries[name])
    ensures Stale(Connected(st, name, c, listening), n)
  {
  }

  lemma {:induction false} StaleEntryStep(st: State, e: Event, st': State, n: string)
    requires Valid(st) && Stale(st, n) && Next(st, e, st')
    ensures Stale(st', n) || st'.lsners.misused != {}
  {
    match e
    case StartClicked(name, sess, ok) => StaleStopped(st, name, n, ok);
    case StopClicked(name, ok) => StaleStopped(st, name, n, ok);
    case ConnectFinished(c, listening) =>
      if name :| HasConnector(st.entries, name, c) && st' == Connected(st, name, c, listening) {
        StaleConnected(st, name, c, listening, n);
      }
    case ThreadEnded(w) =>
    case WorkerFinished(w, ok) =>
      if name :| HasWorker(st.entries, name, w) && st.entries[name].conn.Some? && st' == Finished(st, name, w, ok) {
        StaleFinished(st, name, w, n, ok);
      }
    case ListenError(w, repair) =>
      if name :| HasWorker(st.entries, name, w) && st.entries[name].conn.Some? && st' == Repaired(st, name, w, repair) {
        StaleRepaired(st, name, w, n, repair);
      }
  }

  lemma {:induction false} MisusedStays(st: State, e: Event, st': State)
    requires Next(st, e, st')
    ensures st.lsners.misused <= st'.lsners.misused
  {
  }

  /** A stale listener stays in its entry until it is handed to cancel again. */
  lemma {:induction false} StaleStep(st: State, e: Event, st': State)
    requires Valid(st) && !Clean(st) && Next(st, e, st')
    ensures !Clean(st')
  {
    MisusedStays(st, e, st');
    if st.lsners.misused == {} {
      var n :| Stale(st, n);
      StaleEntryStep(st, e, st', n);
    }
  }

  lemma {:induction false} KeptPortStep(st: State, e: Event, st': State)
    requires Next(st, e, st') && KeepsPort(e) && !st'.failed
    ensures !Clean(st')
  {
    var w := e.worker;
    var n :| HasWorker(st.entries, n, w) && st.entries[n].conn.Some? && st.entries[n].lsner.Some?
              && st' == Repaired(st, n, w, StillListening);
    assert Stale(st', n);
  }

  lemma {:induction false} RunCleanIff(states: seq<State>, events: seq<Event>, i: nat)
    requires Run(states, events) && i < |states| && !states[i].failed
    ensures Clean(states[i]) <==> forall j :: 0 <= j < i ==> !KeepsPort(events[j])
  {
    if i > 0 {
      var e := events[i - 1];
      StepsNext(states, events, i);
      RunCleanIff(states, events, i - 1);
      RunValid(states, events, i - 1);
      if !Clean(states[i - 1]) {
        StaleStep(states[i - 1], e, states[i]);
      } else if KeepsPort(e) {
        KeptPortStep(states[i - 1], e, states[i]);
      } else {
        CleanStep(states[i - 1], e, states[i]);
      }
    }
  }

  /** Once all sessions are over, each listener was cancelled at most once exactly if no repair found the
      port still bound: that outcome leaves the freed listener in its entry. */
  lemma {:induction false} ListenersOnceIff(states: seq<State>, events: seq<Event>)
    requires Run(states, events) && !states[|events|].failed && states[|events|].entries == map[]
    ensures states[|events|].lsners.misused == {} <==> forall j :: 0 <= j < |events| ==> !KeepsPort(events[j])
  {
    RunCleanIff(states, events, |events|);
  }

  /** The smallest run in which a listener is cancelled twice. */
  lemma {:induction false} KeepPortThenFinish() returns (states: seq<State>, events: seq<Event>)
    ensures Run(states, events) && !states[|events|].failed && states[|events|].entries == map[]
    ensures states[|events|].lsners.misused == {3}
  {
    var s1 := Started(NO_STATE, "f", "s", true);
    var s2 := Connected(s1, "f", 0, true);
    assert HasConnector(s1.entries, "f", 0) && HasWorker(s2.entries, "f", 2) && s2.crew[2].links == 1;
    var s3 := Repaired(s2, "f", 2, StillListening);
    var s4 := s3.(crew := s3.crew[2 := Over(s3.crew[2])]);
    assert s3.crew[2].quitting && HasWorker(s4.entries, "f", 2) && s4.crew[2].pending == 1;
    var s5 := Finished(s4, "f", 2, true);
    states := [NO_STATE, s1, s2, s3, s4, s5];
    events := [StartClicked("f", "s", true), ConnectFinished(0, true), ListenError(2, StillListening), ThreadEnded(2),
               WorkerFinished(2, true)];
    assert s5.entries == map[];
  }

  // ----- No listener is lost -----

  predicate HasLsner(t: Table, name: string, l: Obj) {
    name in t && t[name].lsner == Some(l)
  }

  /** The listener that a step opens. */
  function Opened(st: State, e: Event): Option<Obj> {
    if e.ConnectFinished? && e.listening then Some(st.next + 2)
    else if e.ListenError? && e.repair.Relistened? then Some(st.next)
    else None
  }

  /** A step in which cancelling, if it is tried, succeeds. */
  predicate Cancels(e: Event) {
    match e
    case StartClicked(_, _, ok) => ok
    case StopClicked(_, ok) => ok
    case WorkerFinished(_, ok) => ok
    case ListenError(_, repair) => !repair.CancelFailed?
    case _ => true
  }

  ghost predicate Kept(st: State, l: Obj) {
    l in st.lsners.freed || exists n :: HasLsner(st.entries, n, l)
  }

  lemma {:induction false} CancelKeeps(st: State, name: string, l: Obj, n: string)
    requires name in st.entries && HasLsner(st.entries, n, l)
    ensures n == name ==> l in Cancel(st.lsners, st.entries[name].lsner, true).freed
  {
  }

  lemma {:induction false} KeptStopped(st: State, name: string, l: Obj)
    requires Kept(st, l)
    ensures Kept(Stopped(st, name, true), l)
  {
    if n :| HasLsner(st.entries, n, l) {
      if name in st.entries {
        CancelKeeps(st, name, l, n);
      }
      assert n != name ==> HasLsner(Stopped(st, name, true).entries, n, l);
    }
  }

  lemma {:induction false} KeptStarted(st: State, name: string, sess: string, l: Obj)
    requires Kept(st, l)
    ensures Kept(Started(st, name, sess, true), l)
  {
    KeptStopped(st, name, l);
    if n :| HasLsner(st.entries, n, l) && name !in st.entries {
      assert HasLsner(Started(st, name, sess, true).entries, n, l);
    }
  }

  lemma {:induction false} KeptConnected(st: State, name: string, c: Obj, listening: bool, l: Obj)
    requires Valid(st) && HasConnector(st.entries, name, c)
    requires Kept(st, l) || (listening && l == st.next + 2)
    ensures Kept(Connected(st, name, c, listening), l)
  {
    var st' := Connected(st, name, c, listening);
    assert Phased(st.entries[name]);
    if listening && l == st.next + 2 {
      assert HasLsner(st'.entries, name, l);
    } else if n :| HasLsner(st.entries, n, l) {
      assert HasLsner(st'.entries, n, l);
    }
  }

  lemma {:induction false} KeptFinished(st: State, name: string, w: Obj, l: Obj)
    requires name in st.entries && st.entries[name].conn.Some? && w in st.crew && st.crew[w].pending > 0 && Kept(st, l)
    ensures Kept(Finished(st, name, w, true), l)
  {
    if n :| HasLsner(st.entries, n, l) {
      CancelKeeps(st, name, l, n);
      assert n != name ==> HasLsner(Finished(st, name, w, true).entries, n, l);
    }
  }

  lemma {:induction false} KeptRepaired(st: State, name: string, w: Obj, repair: Repair, l: Obj)
    requires name in st.entries && st.entries[name].conn.Some? && w in st.crew && !repair.CancelFailed?
    requires Kept(st, l) || (repair.Relistened? && l == st.next)
    ensures Kept(Repaired(st, name, w, repair), l)
  {
    var st' := Repaired(st, name, w, repair);
    if repair.Relistened? && l == st.next {
      assert HasLsner(st'.entries, name, l);
    } else if n :| HasLsner(st.entries, n, l) {
      CancelKeeps(st, name, l, n);
      assert n != name ==> HasLsner(st'.entries, n, l);
    }
  }

  lemma {:induction false} KeptStep(st: State, e: Event, st': State, l: Obj)
    requires Valid(st) && Next(st, e, st') && Cancels(e) && !st'.failed
    requires Kept(st, l) || Opened(st, e) == Some(l)
    ensures Kept(st', l)
  {
    match e
    case StartClicked(name, sess, ok) => KeptStarted(st, name, sess, l);
    case StopClicked(name, ok) => KeptStopped(st, name, l);
    case ConnectFinished(c, listening) =>
      var name :| HasConnector(st.entries, name, c) && st' == Connected(st, name, c, listening);
      KeptConnected(st, name, c, listening, l);
    case ThreadEnded(w) =>
      if n :| HasLsner(st.entries, n, l) {
        assert HasLsner(st'.entries, n, l);
      }
    case WorkerFinished(w, ok) =>
      var name :| HasWorker(st.entries, name, w) && st.entries[name].conn.Some? && st' == Finished(st, name, w, ok);
      KeptFinished(st, name, w, l);
    case ListenError(w, repair) =>
      var name :| HasWorker(st.entries, name, w) && st.entries[name].conn.Some? && st' == Repaired(st, name, w, repair);
      KeptRepaired(st, name, w, repair, l);
  }

  /** As long as cancelling succeeds, every listener ever opened is freed or still in an entry. */
  lemma {:induction false} ListenerKept(states: seq<State>, events: seq<Event>, i: nat, j: nat, l: Obj)
    requires Run(states, events) && j < i < |states| && !states[i].failed && Opened(states[j], events[j]) == Some(l)
    requires forall k :: j <= k < i ==> Cancels(events[k])
    ensures Kept(states[i], l)
  {
    RunNext(states, events, i);
    if j < i - 1 {
      ListenerKept(states, events, i - 1, j, l);
    }
    KeptStep(states[i - 1], events[i - 1], states[i], l);
  }

  // ----- The slots -----

  /** Entry `n` has its connection and a fresh worker and listener, or it went with its connection. */
  ghost predicate Completes(st: State, n: string, listening: bool, st': State) {
    var t, t' := st.entries, st'.entries;
    if listening then
      && n in t' && t' - {n} == t - {n} && st'.freedConns == st.freedConns
      && t'[n].connector.None? && t'[n].conn == Some(st.next) && t'[n].lsner.Some? && t'[n].worker.Some?
      && t'[n].worker.value in st'.crew && st'.crew[t'[n].worker.value] == Worker(true, false, 1, 0, Held)
    else t' == t - {n} && st'.freedConns == st.freedConns + [st.next] && st'.crew == st.crew
  }

  /** The session is to be connected again, and its worker was told to quit. */
  ghost predicate WaitsForReconnect(st: State, n: string, w: Obj, st': State)
    requires n in st.entries && w in st.crew && w in st'.crew
  {
    && st'.entries == st.entries[n := st.entries[n].(wantReconn := true)] && st'.freedConns == st.freedConns
    && (st.crew[w].running ==> st'.crew[w].quitting)
  }

  /** What repairing the listener of entry `n` and worker `w` leaves behind. */
  ghost predicate Repairs(st: State, n: string, w: Obj, repair: Repair, st': State)
    requires n in st.entries && w in st.crew
  {
    var t, t', e := st.entries, st'.entries, st.entries[n];
    && !st'.failed && e.conn.Some? && w in st'.crew
    && (!repair.CancelFailed? && e.lsner.Some? ==> e.lsner.value in st'.lsners.freed)
    && match repair
       case CancelFailed => WaitsForReconnect(st, n, w, st')
       case StillListening => WaitsForReconnect(st, n, w, st')
       case Denied =>
         && t' == t - {n} && st'.freedConns == st.freedConns + [e.conn.value]
         && st'.crew[w].running == st.crew[w].running && st'.crew[w].quitting == st.crew[w].quitting
       case Relistened =>
         && n in t' && t' - {n} == t - {n} && t'[n] == e.(lsner := Some(st.next))
         && st'.crew[w].running && st'.crew[w].links == st.crew[w].links + 1
  }

  lemma {:induction false} RepairedRepairs(st: State, n: string, w: Obj, repair: Repair)
    requires Valid(st) && !st.failed && HasWorker(st.entries, n, w) && st.entries[n].conn.Some? && w in st.crew
    ensures Repairs(st, n, w, repair, Repaired(st, n, w, repair))
    ensures forall n' :: HasWorker(st.entries, n', w) ==> n' == n
  {
    forall n' | HasWorker(st.entries, n', w)
      ensures n' == n
    {
      SenderUnique(st, n, n', w);
    }
  }

  class Manager {
    var mfwdstate: Table
    var next: Obj
    var connecting: set<Obj>
    var freedConns: seq<Obj>
    var crew: Crew
    var lsners: Lsners
    var failed: bool

    ghost function View(): State
      reads this
    {
      State(mfwdstate, next, connecting, freedConns, crew, lsners, failed)
    }

    constructor ()
      ensures View() == NO_STATE && Valid(View())
    {
      mfwdstate, next, connecting, freedConns := map[], 0, {}, [];
      crew, lsners, failed := map[], Lsners({}, {}), false;
    }

    method ForwardCancel(lsner: Option<Obj>, ok: bool)
      modifies this`lsners
      ensures lsners == Cancel(old(lsners), lsner, ok)
    {
      if lsner.Some? {
        if lsner.value in lsners.freed {
          lsners := lsners.(misused := lsners.misused + {lsner.value});
        } else if ok {
          lsners := lsners.(freed := lsners.freed + {lsner.value});
        }
      }
    }

    method QuitWorker(worker: Option<Obj>)
      modifies this`crew
      ensures crew == Quit(old(crew), worker)
    {
      if worker.Some? && worker.value in crew && crew[worker.value].running {
        crew := crew[worker.value := crew[worker.value].(quitting := true)];
      }
    }

    method ForwardConnectStop(name: string, ok: bool)
      requires Valid(View()) && !failed
      modifies this
      ensures Next(old(View()), StopClicked(name, ok), View()) && Valid(View())
      ensures name !in old(mfwdstate) ==> View() == old(View())
      ensures name in old(mfwdstate) ==>
        var e := old(mfwdstate)[name];
        && mfwdstate == old(mfwdstate)[name := e.(lsner := None)] && !failed
        && (e.lsner.Some? && ok ==> e.lsner.value in lsners.freed)
        && (e.worker.Some? && e.worker.value in old(crew) && old(crew)[e.worker.value].running ==>
              e.worker.value in crew && crew[e.worker.value].quitting)
      ensures next == old(next) && connecting == old(connecting) && freedConns == old(freedConns)
    {
      StoppedValid(View(), name, ok);
      if name in mfwdstate {
        var e := mfwdstate[name];
        mfwdstate := mfwdstate[name := e.(lsner := None)];
        ForwardCancel(e.lsner, ok);
        QuitWorker(e.worker);
      }
    }

    method ForwardConnectStart(name: string, sess: string, ok: bool)
      requires Valid(View()) && !failed
      modifies this
      ensures Next(old(View()), StartClicked(name, sess, ok), View()) && Valid(View())
      ensures name == "" || sess == "" ==> View() == old(View())
      ensures name != "" && sess != "" && name !in old(mfwdstate) ==>
        && name in mfwdstate && mfwdstate - {name} == old(mfwdstate)
        && mfwdstate[name].connector.Some? && mfwdstate[name].connector.value !in old(connecting)
        && connecting == old(connecting) + {mfwdstate[name].connector.value}
      ensures name != "" && sess != "" && name in old(mfwdstate) ==>
        mfwdstate == old(mfwdstate)[name := old(mfwdstate)[name].(lsner := None)]
    {
      StartedValid(View(), name, sess, ok);
      if name == "" || sess == "" {
        return;
      }
      if name in mfwdstate {
        ForwardConnectStop(name, ok);
        return;
      }
      var connector := next;
      next := next + 1;
      mfwdstate := mfwdstate[name := Entry(Some(connector), None, None, None, false)];
      connecting := connecting + {connector};
    }

    method FindConnector(c: Obj) returns (name: Option<string>)
      ensures name.Some? ==> HasConnector(mfwdstate, name.value, c)
      ensures name.None? ==> forall n :: !HasConnector(mfwdstate, n, c)
    {
      var todo := mfwdstate.Keys;
      while todo != {}
        invariant todo <= mfwdstate.Keys
        invariant forall n :: n in mfwdstate && n !in todo ==> !HasConnector(mfwdstate, n, c)
        decreases todo
      {
        var it :| it in todo;
        if mfwdstate[it].connector == Some(c) {
          return Some(it);
        }
        todo := todo - {it};
      }
      return None;
    }

    method FindWorker(w: Obj) returns (name: Option<string>)
      ensures name.Some? ==> HasWorker(mfwdstate, name.value, w)
      ensures name.None? ==> forall n :: !HasWorker(mfwdstate, n, w)
    {
      var todo := mfwdstate.Keys;
      while todo != {}
        invariant todo <= mfwdstate.Keys
        invariant forall n :: n in mfwdstate && n !in todo ==> !HasWorker(mfwdstate, n, w)
        decreases todo
      {
        var it :| it in todo;
        if mfwdstate[it].worker == Some(w) {
          return Some(it);
        }
        todo := todo - {it};
      }
      return None;
    }

    /** The assertion on the entry never fails on a valid table. */
    method ConnectRemoteHostFinished(sender: Obj, listening: bool)
      requires !failed && sender in connecting
      modifies this
      ensures Next(old(View()), ConnectFinished(sender, listening), View())
      ensures old(Valid(View())) ==> Valid(View()) && !failed
      ensures old(Valid(View())) ==>
        exists n :: HasConnector(old(mfwdstate), n, sender) && Completes(old(View()), n, listening, View())
    {
      var name := FindConnector(sender);
      if name.Some? {
        Complete(name.value, sender, listening);
      } else {
        failed := true;
      }
      if old(Valid(View())) {
        NextValid(old(View()), ConnectFinished(sender, listening), View());
      }
    }

    method Complete(n: string, sender: Obj, listening: bool)
      requires n in mfwdstate
      modifies this
      ensures View() == Connected(old(View()), n, sender, listening)
    {
      var conn := next;
      var entry := mfwdstate[n].(conn := Some(conn), connector := None);
      connecting := connecting - {sender};
      if !listening {
        next := next + 1;
        freedConns := freedConns + [conn];
        mfwdstate := mfwdstate - {n};
      } else {
        var worker, lsner := next + 1, next + 2;
        next := next + 3;
        entry := entry.(lsner := Some(lsner), worker := Some(worker));
        mfwdstate := mfwdstate[n := entry];
        crew := crew[worker := Worker(true, false, 1, 0, Held)];
      }
    }

    method ForwardWorkerFinished(sender: Obj, ok: bool)
      requires Valid(View()) && !failed && sender in crew && crew[sender].pending > 0
      modifies this
      ensures Next(old(View()), WorkerFinished(sender, ok), View()) && Valid(View())
      ensures forall n :: HasWorker(old(mfwdstate), n, sender) ==>
        var e := old(mfwdstate)[n];
        && !failed && mfwdstate == old(mfwdstate) - {n}
        && e.conn.Some? && freedConns == old(freedConns) + [e.conn.value]
        && (e.lsner.Some? && ok ==> e.lsner.value in lsners.freed)
      ensures (forall n :: !HasWorker(old(mfwdstate), n, sender)) ==> failed
    {
      var name := FindWorker(sender);
      if name.None? {
        failed := true;
        return;
      }
      var n := name.value;
      FinishedValid(View(), n, sender, ok);
      assert Phased(mfwdstate[n]);
      var e := mfwdstate[n];
      mfwdstate := mfwdstate - {n};
      ForwardCancel(e.lsner, ok);
      freedConns := freedConns + [e.conn.value];
      crew := crew[sender := crew[sender].(pending := crew[sender].pending - 1, fate := Ended)];
      assert View() == Finished(old(View()), n, sender, ok);
    }

    /** The entry of a worker whose listener was cancelled, or could not be. */
    method Repair(n: string, sender: Obj, repair: Repair)
      requires n in mfwdstate && mfwdstate[n].conn.Some? && sender in crew
      modifies this
      ensures View() == Repaired(old(View()), n, sender, repair)
    {
      var e := mfwdstate[n];
      ForwardCancel(e.lsner, !repair.CancelFailed?);
      if repair.CancelFailed? || repair.StillListening? {
        mfwdstate := mfwdstate[n := e.(wantReconn := true)];
        QuitWorker(Some(sender));
      } else if repair.Denied? {
        freedConns := freedConns + [e.conn.value];
        mfwdstate := mfwdstate - {n};
        crew := crew[sender := crew[sender].(fate := Dropped)];
      } else {
        mfwdstate := mfwdstate[n := e.(lsner := Some(next))];
        next := next + 1;
        crew := crew[sender := crew[sender].(links := crew[sender].links + 1, running := true)];
      }
    }

    /** Without a listener the cancelling fails. */
    method ListenChannelError(sender: Obj, repair: Repair)
      requires Valid(View()) && !failed && sender in crew
      requires forall n :: HasWorker(mfwdstate, n, sender) && mfwdstate[n].lsner.None? ==> repair.CancelFailed?
      modifies this
      ensures Next(old(View()), ListenError(sender, repair), View()) && Valid(View())
      ensures forall n :: HasWorker(old(mfwdstate), n, sender) ==> Repairs(old(View()), n, sender, repair, View())
      ensures (forall n :: !HasWorker(old(mfwdstate), n, sender)) ==> failed
    {
      var name := FindWorker(sender);
      if name.None? {
        failed := true;
        return;
      }
      var n := name.value;
      RepairedValid(View(), n, sender, repair);
      assert Phased(mfwdstate[n]);
      RepairedRepairs(View(), n, sender, repair);
      Repair(n, sender, repair);
    }
  }
}
