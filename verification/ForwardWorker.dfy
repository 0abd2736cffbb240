// Port forwarding: which socket belongs to which channel, and who frees them.

module ForwardWorker {
  import opened ListSpec

  type Chan = nat  // LIBSSH2_CHANNEL*
  type Sock = nat  // QTcpSocket*

  datatype Pair = Pair(sock: Sock, chan: Chan)

  // What reading one channel reports; the flag is libssh2_channel_eof.
  datatype Read = Data | Again(eof: bool) | OutOfBoundary(eof: bool) | OtherError

  const INV_SLOTS := 100

  datatype State = State(
    pairs: seq<Pair>,
    accepted: seq<Chan>, freed: seq<Chan>,  // channels, in order
    opened_: seq<Sock>, closed: seq<Sock>)  // sockets, in order

  function Chans(pairs: seq<Pair>): (cs: seq<Chan>)
    ensures |cs| == |pairs| && forall i :: 0 <= i < |pairs| ==> cs[i] == pairs[i].chan
  {
    seq(|pairs|, i requires 0 <= i < |pairs| => pairs[i].chan)
  }

  function Socks(pairs: seq<Pair>): (ss: seq<Sock>)
    ensures |ss| == |pairs| && forall i :: 0 <= i < |pairs| ==> ss[i] == pairs[i].sock
  {
    seq(|pairs|, i requires 0 <= i < |pairs| => pairs[i].sock)
  }

  function FindChan(pairs: seq<Pair>, c: Chan): (j: nat)
    ensures j <= |pairs| && (j < |pairs| ==> pairs[j].chan == c)
    ensures forall k :: 0 <= k < j ==> pairs[k].chan != c
  {
    if pairs == [] || pairs[0].chan == c then 0 else 1 + FindChan(pairs[1..], c)
  }

  function FindSock(pairs: seq<Pair>, s: Sock): (j: nat)
    ensures j <= |pairs| && (j < |pairs| ==> pairs[j].sock == s)
    ensures forall k :: 0 <= k < j ==> pairs[k].sock != s
  {
    if pairs == [] || pairs[0].sock == s then 0 else 1 + FindSock(pairs[1..], s)
  }

  /** Erase pair `j`, close and free its channel, close and delete its socket. */
  function Drop(st: State, j: nat): State {
    if j < |st.pairs| then
      st.(pairs := st.pairs[..j] + st.pairs[j + 1..],
          freed := st.freed + [st.pairs[j].chan], closed := st.closed + [st.pairs[j].sock])
    else st
  }

  function RemoveChans(st: State, dead: seq<Chan>): State {
    if dead == [] then st
    else
      var front := RemoveChans(st, dead[..|dead| - 1]);
      Drop(front, FindChan(front.pairs, dead[|dead| - 1]))
  }

  function CloseAll(st: State): State {
    st.(pairs := [], freed := st.freed + Chans(st.pairs), closed := st.closed + Socks(st.pairs))
  }

  function ReadOf(c: Chan, reads_: map<Chan, Read>): Read {
    if c in reads_ then reads_[c] else Data
  }

  predicate Closed(r: Read) {
    (r.Again? || r.OutOfBoundary?) && r.eof
  }

  /** The channels one poll finds closed by the peer; an out-of-boundary error ends the scan. */
  function Scan(pairs: seq<Pair>, reads_: map<Chan, Read>): (dead: seq<Chan>)
    ensures |dead| <= |pairs|
  {
    if pairs == [] then []
    else
      var c := pairs[0].chan;
      match ReadOf(c, reads_)
      case Data => Scan(pairs[1..], reads_)
      case OtherError => Scan(pairs[1..], reads_)
      case Again(eof) => (if eof then [c] else []) + Scan(pairs[1..], reads_)
      case OutOfBoundary(eof) => if eof then [c] else []
  }

  datatype Event =
    | Accepted(sock: Sock, chan: Chan)
    | Polled(reads_: map<Chan, Read>)
    | Disconnected(sock: Sock)
    | NewListener

  function Step(st: State, e: Event): State {
    match e
    case Accepted(s, c) =>
      st.(pairs := st.pairs + [Pair(s, c)], accepted := st.accepted + [c], opened_ := st.opened_ + [s])
    case Polled(r) => RemoveChans(st, Scan(st.pairs, r))
    case Disconnected(s) => Drop(st, FindSock(st.pairs, s))
    case NewListener => CloseAll(st)
  }

  /** accept() and new return addresses not handed out before. */
  predicate Fresh(st: State, e: Event) {
    e.Accepted? ==> e.chan !in st.accepted && e.sock !in st.opened_
  }

  /** Nothing is lost and nothing is freed twice. */
  ghost predicate Accounted(st: State) {
    && Distinct(st.accepted) && Distinct(st.opened_)
    && multiset(st.accepted) == multiset(Chans(st.pairs)) + multiset(st.freed)
    && multiset(st.opened_) == multiset(Socks(st.pairs)) + multiset(st.closed)
  }

  // ----- Every event keeps the account -----

  lemma {:induction false} DropChan(pairs: seq<Pair>, j: nat)
    requires j < |pairs|
    ensures multiset(Chans(pairs)) == multiset(Chans(pairs[..j] + pairs[j + 1..])) + multiset{pairs[j].chan}
  {
    var a, b := Chans(pairs[..j]), Chans(pairs[j + 1..]);
    assert Chans(pairs) == a + [pairs[j].chan] + b;
    assert Chans(pairs[..j] + pairs[j + 1..]) == a + b;
  }

  lemma {:induction false} DropSock(pairs: seq<Pair>, j: nat)
    requires j < |pairs|
    ensures multiset(Socks(pairs)) == multiset(Socks(pairs[..j] + pairs[j + 1..])) + multiset{pairs[j].sock}
  {
    var a, b := Socks(pairs[..j]), Socks(pairs[j + 1..]);
    assert Socks(pairs) == a + [pairs[j].sock] + b;
    assert Socks(pairs[..j] + pairs[j + 1..]) == a + b;
  }

  lemma {:induction false} DropAccounted(st: State, j: nat)
    requires Accounted(st)
    ensures Accounted(Drop(st, j))
  {
    if j < |st.pairs| {
      DropChan(st.pairs, j);
      DropSock(st.pairs, j);
    }
  }

  lemma {:induction false} RemoveChansAccounted(st: State, dead: seq<Chan>)
    requires Accounted(st)
    ensures Accounted(RemoveChans(st, dead))
    decreases |dead|
  {
    if dead != [] {
      RemoveChansAccounted(st, dead[..|dead| - 1]);
      var front := RemoveChans(st, dead[..|dead| - 1]);
      DropAccounted(front, FindChan(front.pairs, dead[|dead| - 1]));
    }
  }

  lemma {:induction false} StepAccounted(st: State, e: Event)
    requires Accounted(st) && Fresh(st, e)
    ensures Accounted(Step(st, e))
  {
    match e
    case Accepted(s, c) =>
      assert Chans(st.pairs + [Pair(s, c)]) == Chans(st.pairs) + [c];
      assert Socks(st.pairs + [Pair(s, c)]) == Socks(st.pairs) + [s];
      DistinctMore(st.accepted, c);
      DistinctMore(st.opened_, s);
    case Polled(r) => RemoveChansAccounted(st, Scan(st.pairs, r));
    case Disconnected(s) => DropAccounted(st, FindSock(st.pairs, s));
    case NewListener => assert Chans([]) == [] && Socks([]) == [];
  }

  function Run(events: seq<Event>): State {
    if events == [] then State([], [], [], [], [])
    else Step(Run(events[..|events| - 1]), events[|events| - 1])
  }

  /** A poll notes at most as many channels as its array has slots. */
  predicate Fits(st: State, e: Event) {
    e.Polled? ==> |Scan(st.pairs, e.reads_)| <= INV_SLOTS
  }

  /** A run with fresh handles in which no poll writes past its array. */
  ghost predicate Legal(events: seq<Event>) {
    forall i :: 0 <= i < |events| ==> Fresh(Run(events[..i]), events[i]) && Fits(Run(events[..i]), events[i])
  }

  lemma {:induction false} RunAccounted(events: seq<Event>)
    requires Legal(events)
    ensures Accounted(Run(events))
    decreases |events|
  {
    if events == [] {
      assert Chans([]) == [] && Socks([]) == [];
    } else {
      var front := events[..|events| - 1];
      forall i | 0 <= i < |front|
        ensures Fresh(Run(front[..i]), front[i]) && Fits(Run(front[..i]), front[i])
      {
        assert front[..i] == events[..i];
      }
      RunAccounted(front);
      assert events[..|events| - 1] == front;
      assert Fresh(Run(events[..|events| - 1]), events[|events| - 1]);
      StepAccounted(Run(front), events[|events| - 1]);
    }
  }

  lemma {:induction false} AtMostOnce(s: seq<nat>, x: nat)
    requires Distinct(s)
    ensures multiset(s)[x] <= 1
    decreases |s|
  {
    if s != [] {
      var front := s[..|s| - 1];
      AtMostOnce(front, x);
      assert s == front + [s[|s| - 1]];
      assert s[|s| - 1] !in front;
    }
  }

  lemma {:induction false} NotTwice(s: seq<nat>)
    requires forall x: nat :: multiset(s)[x] <= 1
    ensures Distinct(s)
  {
    forall i, j | 0 <= i < j < |s|
      ensures s[i] != s[j]
    {
      assert s == s[..j] + s[j..];
      assert s[i] in s[..j] && s[j] in s[j..];
      assert multiset(s)[s[i]] <= 1;
    }
  }

  lemma {:induction false} PartsDistinct(all: seq<nat>, live: seq<nat>, gone: seq<nat>)
    requires Distinct(all) && multiset(all) == multiset(live) + multiset(gone)
    ensures Distinct(live) && Distinct(gone) && forall x :: !(x in live && x in gone)
    ensures |all| == |live| + |gone|
  {
    forall x: nat
      ensures multiset(live)[x] + multiset(gone)[x] <= 1
    {
      AtMostOnce(all, x);
      assert multiset(all)[x] == multiset(live)[x] + multiset(gone)[x];
    }
    NotTwice(live);
    NotTwice(gone);
    forall x: nat
      ensures !(x in live && x in gone)
    {
      assert multiset(live)[x] + multiset(gone)[x] <= 1;
    }
    assert |multiset(all)| == |multiset(live)| + |multiset(gone)|;
  }

  /** In every run that stays within the array: live pairs share no socket and no channel, no channel or
      socket is freed twice or freed while live, and accepted channels are the live ones plus the freed ones. */
  lemma {:induction false} RunSafe(events: seq<Event>)
    requires Legal(events)
    ensures var st := Run(events);
      && Distinct(Chans(st.pairs)) && Distinct(Socks(st.pairs))
      && Distinct(st.freed) && Distinct(st.closed)
      && (forall i :: 0 <= i < |st.pairs| ==> st.pairs[i].chan !in st.freed && st.pairs[i].sock !in st.closed)
      && |st.accepted| == |st.pairs| + |st.freed|
  {
    var st := Run(events);
    RunAccounted(events);
    PartsDistinct(st.accepted, Chans(st.pairs), st.freed);
    PartsDistinct(st.opened_, Socks(st.pairs), st.closed);
    forall i | 0 <= i < |st.pairs|
      ensures st.pairs[i].chan !in st.freed && st.pairs[i].sock !in st.closed
    {
      assert Chans(st.pairs)[i] in Chans(st.pairs) && Socks(st.pairs)[i] in Socks(st.pairs);
    }
  }

  // ----- When a poll stays within its array -----

  /** The pair in row `j` is read, and found closed: no earlier read ended the scan. */
  ghost predicate FoundClosed(pairs: seq<Pair>, reads_: map<Chan, Read>, j: nat) {
    && j < |pairs| && pairs[j].chan in reads_
    && (reads_[pairs[j].chan] == Again(true) || reads_[pairs[j].chan] == OutOfBoundary(true))
    && forall k :: 0 <= k < j ==> !(pairs[k].chan in reads_ && reads_[pairs[k].chan].OutOfBoundary?)
  }

  ghost function ClosedRows(pairs: seq<Pair>, reads_: map<Chan, Read>): set<nat> {
    set j: nat | j < |pairs| && FoundClosed(pairs, reads_, j)
  }

  lemma {:induction false} ScanLast(front: seq<Pair>, p: Pair, reads_: map<Chan, Read>)
    ensures Scan(front + [p], reads_) == Scan(front, reads_) +
      if FoundClosed(front + [p], reads_, |front|) then [p.chan] else []
    decreases |front|
  {
    var pairs := front + [p];
    if front == [] {
      assert pairs[1..] == [];
    } else {
      var rest := front[1..] + [p];
      assert pairs[1..] == rest;
      ScanLast(front[1..], p, reads_);
      assert forall k :: 0 <= k < |front| - 1 ==> rest[k] == pairs[k + 1];
      assert forall k :: 1 <= k < |front| ==> pairs[k] == rest[k - 1];
      Assoc(if Closed(ReadOf(pairs[0].chan, reads_)) then [pairs[0].chan] else [], Scan(front[1..], reads_),
            if FoundClosed(rest, reads_, |front| - 1) then [p.chan] else []);
    }
  }

  lemma {:induction false} ClosedRowsMore(front: seq<Pair>, p: Pair, reads_: map<Chan, Read>)
    ensures ClosedRows(front + [p], reads_) == ClosedRows(front, reads_) +
      if FoundClosed(front + [p], reads_, |front|) then {|front|} else {}
  {
    var pairs := front + [p];
    forall j: nat | j < |front|
      ensures FoundClosed(pairs, reads_, j) <==> FoundClosed(front, reads_, j)
    {
      assert forall k :: 0 <= k <= j ==> pairs[k] == front[k];
    }
  }

  /** A poll notes one slot per channel found closed before an out-of-boundary error ends it. */
  lemma {:induction false} ScanSize(pairs: seq<Pair>, reads_: map<Chan, Read>)
    ensures |Scan(pairs, reads_)| == |ClosedRows(pairs, reads_)|
    decreases |pairs|
  {
    if pairs != [] {
      var front, p := pairs[..|pairs| - 1], pairs[|pairs| - 1];
      assert pairs == front + [p];
      ScanSize(front, reads_);
      ScanLast(front, p, reads_);
      ClosedRowsMore(front, p, reads_);
    }
  }

  /** A poll stays within its array exactly when at most 100 channels are found closed before an
      out-of-boundary error; with at most 100 live pairs it always does. */
  lemma {:induction false} PollFitsIff(st: State, reads_: map<Chan, Read>)
    ensures Fits(st, Polled(reads_)) <==> |ClosedRows(st.pairs, reads_)| <= 100
    ensures |st.pairs| <= 100 ==> Fits(st, Polled(reads_))
  {
    ScanSize(st.pairs, reads_);
  }

  /** `n` connections come in. */
  function Accepts(n: nat): seq<Event> {
    if n == 0 then [] else Accepts(n - 1) + [Accepted(n - 1, n - 1)]
  }

  function Numbers(n: nat): (s: seq<nat>)
    ensures |s| == n && forall i :: 0 <= i < n ==> s[i] == i
  {
    seq(n, i requires 0 <= i => i)
  }

  function Twins(n: nat): (pairs: seq<Pair>)
    ensures |pairs| == n && forall i :: 0 <= i < n ==> pairs[i] == Pair(i, i)
  {
    seq(n, i requires 0 <= i => Pair(i, i))
  }

  /** `n` live pairs and nothing released yet. */
  function Busy(n: nat): State {
    State(Twins(n), Numbers(n), [], Numbers(n), [])
  }

  lemma {:induction false} BusyStep(n: nat)
    ensures Fresh(Busy(n), Accepted(n, n)) && Step(Busy(n), Accepted(n, n)) == Busy(n + 1)
  {
    assert Twins(n + 1) == Twins(n) + [Pair(n, n)];
    assert Numbers(n + 1) == Numbers(n) + [n];
  }

  lemma {:induction false} LegalMore(front: seq<Event>, e: Event)
    requires Legal(front) && Fresh(Run(front), e) && Fits(Run(front), e)
    ensures Legal(front + [e]) && Run(front + [e]) == Step(Run(front), e)
  {
    var events := front + [e];
    assert events[..|front|] == front;
    forall i | 0 <= i < |events|
      ensures Fresh(Run(events[..i]), events[i]) && Fits(Run(events[..i]), events[i])
    {
      if i < |front| {
        assert events[..i] == front[..i];
      }
    }
  }

  lemma {:induction false} AcceptsRun(n: nat)
    ensures Run(Accepts(n)) == Busy(n) && Legal(Accepts(n)) && |Accepts(n)| == n
    decreases n
  {
    if n > 0 {
      AcceptsRun(n - 1);
      BusyStep(n - 1);
      LegalMore(Accepts(n - 1), Accepted(n - 1, n - 1));
    }
  }

  function AllClosed(n: nat): (reads_: map<Chan, Read>)
    ensures forall c :: 0 <= c < n ==> c in reads_ && reads_[c] == Again(true)
  {
    if n == 0 then map[] else AllClosed(n - 1)[n - 1 := Again(true)]
  }

  lemma {:induction false} AllFoundClosed(pairs: seq<Pair>, reads_: map<Chan, Read>)
    requires forall i :: 0 <= i < |pairs| ==> ReadOf(pairs[i].chan, reads_) == Again(true)
    ensures |Scan(pairs, reads_)| == |pairs|
    decreases |pairs|
  {
    if pairs != [] {
      AllFoundClosed(pairs[1..], reads_);
    }
  }

  /** Without the bound the array is overrun: more than 100 connections come in, and the peer closes them all. */
  lemma {:induction false} PollOverruns(n: nat)
    requires n > 100
    ensures Legal(Accepts(n)) && |Accepts(n)| == n && !Fits(Run(Accepts(n)), Polled(AllClosed(n)))
  {
    AcceptsRun(n);
    AllFoundClosed(Twins(n), AllClosed(n));
  }

  lemma {:induction false} KeepsAccount(st: State, e: Event)
    ensures Accounted(st) && Fresh(st, e) ==> Accounted(Step(st, e))
  {
    if Accounted(st) && Fresh(st, e) {
      StepAccounted(st, e);
    }
  }

  // ----- What the slots release -----

  /** The pairs of the first `n` rows that the poll leaves alone. */
  ghost function Spared(pairs: seq<Pair>, reads_: map<Chan, Read>, n: nat): (spared: seq<Pair>)
    requires n <= |pairs|
    ensures forall p :: p in spared ==> p in pairs[..n]
  {
    if n == 0 then []
    else Spared(pairs, reads_, n - 1) + if FoundClosed(pairs, reads_, n - 1) then [] else [pairs[n - 1]]
  }

  /** The pairs of the first `n` rows whose channel it finds closed. */
  ghost function Dead(pairs: seq<Pair>, reads_: map<Chan, Read>, n: nat): seq<Pair>
    requires n <= |pairs|
  {
    if n == 0 then []
    else Dead(pairs, reads_, n - 1) + if FoundClosed(pairs, reads_, n - 1) then [pairs[n - 1]] else []
  }

  /** Each row is spared or dead, by whether its channel is found closed. */
  lemma {:induction false} SparedOrDead(pairs: seq<Pair>, reads_: map<Chan, Read>, n: nat, j: nat)
    requires j < n <= |pairs|
    ensures if FoundClosed(pairs, reads_, j) then pairs[j] in Dead(pairs, reads_, n)
            else pairs[j] in Spared(pairs, reads_, n)
    decreases n
  {
    if j < n - 1 {
      SparedOrDead(pairs, reads_, n - 1, j);
    }
  }

  lemma {:induction false} DeadIsClosed(pairs: seq<Pair>, reads_: map<Chan, Read>, n: nat, p: Pair)
    requires n <= |pairs| && p in Dead(pairs, reads_, n)
    ensures exists j :: 0 <= j < n && pairs[j] == p && FoundClosed(pairs, reads_, j)
    decreases n
  {
    if p in Dead(pairs, reads_, n - 1) {
      DeadIsClosed(pairs, reads_, n - 1, p);
    } else {
      assert pairs[n - 1] == p && FoundClosed(pairs, reads_, n - 1);
    }
  }

  /** With channels of their own the first pair of a channel is the only one. */
  lemma {:induction false} OnlyPair(front: seq<Pair>, p: Pair, rest: seq<Pair>)
    requires forall q :: q in front ==> q.chan != p.chan
    ensures FindChan(front + [p] + rest, p.chan) == |front|
  {
    var pairs := front + [p] + rest;
    assert forall k :: 0 <= k < |front| ==> pairs[k] == front[k];
    assert pairs[|front|] == p;
  }

  lemma {:induction false} RemoveOneMore(st: State, dead: seq<Chan>, c: Chan)
    ensures var front := RemoveChans(st, dead);
      RemoveChans(st, dead + [c]) == Drop(front, FindChan(front.pairs, c))
  {
    assert (dead + [c])[..|dead|] == dead;
  }

  lemma {:induction false} ScanPrefix(pairs: seq<Pair>, reads_: map<Chan, Read>, n: nat)
    requires n < |pairs|
    ensures Scan(pairs[..n + 1], reads_) == Scan(pairs[..n], reads_)
      + if FoundClosed(pairs, reads_, n) then [pairs[n].chan] else []
  {
    ScanLast(pairs[..n], pairs[n], reads_);
    assert pairs[..n] + [pairs[n]] == pairs[..n + 1];
    assert forall k :: 0 <= k <= n ==> pairs[..n + 1][k] == pairs[k];
    assert FoundClosed(pairs[..n + 1], reads_, n) <==> FoundClosed(pairs, reads_, n);
  }

  lemma {:induction false} DropDead(st: State, front: seq<Pair>, p: Pair, rest: seq<Pair>)
    requires st.pairs == front + [p] + rest
    ensures Drop(st, |front|)
         == st.(pairs := front + rest, freed := st.freed + [p.chan], closed := st.closed + [p.sock])
  {
    assert st.pairs[..|front|] == front && st.pairs[|front| + 1..] == rest;
  }

  /** The state when the dead ones among the first `n` pairs of a poll have been removed. */
  ghost function Polling(st: State, reads_: map<Chan, Read>, n: nat): State
    requires n <= |st.pairs|
  {
    var dead := Dead(st.pairs, reads_, n);
    st.(pairs := Spared(st.pairs, reads_, n) + st.pairs[n..],
        freed := st.freed + Chans(dead), closed := st.closed + Socks(dead))
  }

  lemma {:induction false} DeadMore(dead: seq<Pair>, p: Pair)
    ensures Chans(dead + [p]) == Chans(dead) + [p.chan] && Socks(dead + [p]) == Socks(dead) + [p.sock]
  {
  }

  lemma {:induction false} Rejoin(a: seq<Pair>, b: seq<Pair>, c: seq<Pair>)
    ensures a + (b + c) == a + b + c
  {
  }

  lemma {:induction false} SparedApart(st: State, reads_: map<Chan, Read>, n: nat)
    requires Distinct(Chans(st.pairs)) && n < |st.pairs|
    ensures forall q :: q in Spared(st.pairs, reads_, n) ==> q.chan != st.pairs[n].chan
    ensures Polling(st, reads_, n).pairs == Spared(st.pairs, reads_, n) + [st.pairs[n]] + st.pairs[n + 1..]
  {
    forall q | q in Spared(st.pairs, reads_, n)
      ensures q.chan != st.pairs[n].chan
    {
      var k :| 0 <= k < n && st.pairs[..n][k] == q;
      assert Chans(st.pairs)[k] != Chans(st.pairs)[n];
    }
    assert st.pairs[n..] == [st.pairs[n]] + st.pairs[n + 1..];
    Rejoin(Spared(st.pairs, reads_, n), [st.pairs[n]], st.pairs[n + 1..]);
  }

  lemma {:induction false} PollingDrops(st: State, reads_: map<Chan, Read>, n: nat)
    requires Distinct(Chans(st.pairs)) && n < |st.pairs| && FoundClosed(st.pairs, reads_, n)
    ensures var s := Polling(st, reads_, n);
      Polling(st, reads_, n + 1) == Drop(s, FindChan(s.pairs, st.pairs[n].chan))
  {
    var s, p, spared, rest := Polling(st, reads_, n), st.pairs[n], Spared(st.pairs, reads_, n), st.pairs[n + 1..];
    SparedApart(st, reads_, n);
    OnlyPair(spared, p, rest);
    DropDead(s, spared, p, rest);
    DeadMore(Dead(st.pairs, reads_, n), p);
    assert st.freed + Chans(Dead(st.pairs, reads_, n)) + [p.chan]
        == st.freed + (Chans(Dead(st.pairs, reads_, n)) + [p.chan]);
    assert st.closed + Socks(Dead(st.pairs, reads_, n)) + [p.sock]
        == st.closed + (Socks(Dead(st.pairs, reads_, n)) + [p.sock]);
    assert Spared(st.pairs, reads_, n + 1) == spared;
  }

  lemma {:induction false} PollingSpares(st: State, reads_: map<Chan, Read>, n: nat)
    requires Distinct(Chans(st.pairs)) && n < |st.pairs| && !FoundClosed(st.pairs, reads_, n)
    ensures Polling(st, reads_, n + 1) == Polling(st, reads_, n)
  {
    SparedApart(st, reads_, n);
  }

  lemma {:induction false} PollingRemoves(st: State, reads_: map<Chan, Read>, n: nat)
    requires Distinct(Chans(st.pairs)) && n <= |st.pairs|
    ensures RemoveChans(st, Scan(st.pairs[..n], reads_)) == Polling(st, reads_, n)
    decreases n
  {
    if n == 0 {
      assert st.pairs[..0] == [] && [] + st.pairs[0..] == st.pairs;
      assert st.freed + [] == st.freed && st.closed + [] == st.closed;
    } else {
      PollingRemoves(st, reads_, n - 1);
      ScanPrefix(st.pairs, reads_, n - 1);
      var dead := Scan(st.pairs[..n - 1], reads_);
      if FoundClosed(st.pairs, reads_, n - 1) {
        PollingDrops(st, reads_, n - 1);
        RemoveOneMore(st, dead, st.pairs[n - 1].chan);
      } else {
        assert dead + [] == dead;
        PollingSpares(st, reads_, n - 1);
      }
    }
  }

  /** A poll releases both ends of exactly the pairs whose channel it finds closed, and keeps the others in order. */
  lemma {:induction false} PollReleases(st: State, reads_: map<Chan, Read>)
    requires Accounted(st)
    ensures var st', n := Step(st, Polled(reads_)), |st.pairs|;
      && st'.pairs == Spared(st.pairs, reads_, n)
      && st'.freed == st.freed + Chans(Dead(st.pairs, reads_, n))
      && st'.closed == st.closed + Socks(Dead(st.pairs, reads_, n))
      && st'.accepted == st.accepted && st'.opened_ == st.opened_
  {
    PartsDistinct(st.accepted, Chans(st.pairs), st.freed);
    PollingRemoves(st, reads_, |st.pairs|);
    assert st.pairs[..|st.pairs|] == st.pairs;
  }

  /** After a disconnect no live pair has the socket. */
  lemma {:induction false} SocketGone(st: State, s: Sock)
    requires Accounted(st)
    ensures forall p :: p in Drop(st, FindSock(st.pairs, s)).pairs ==> p.sock != s
  {
    PartsDistinct(st.opened_, Socks(st.pairs), st.closed);
    var j := FindSock(st.pairs, s);
    forall k | 0 <= k < |st.pairs| && k != j
      ensures st.pairs[k].sock != s
    {
      if j < |st.pairs| {
        assert Socks(st.pairs)[k] != Socks(st.pairs)[j];
      }
    }
  }

  // ----- The worker object -----

  /** Whether the channel of pair `i` is dead, and whether the scan goes on behind it. */
  lemma {:induction false} ScanOn(pairs: seq<Pair>, i: nat, reads_: map<Chan, Read>, found: seq<Chan>)
    requires i < |pairs|
    ensures var c := pairs[i].chan; var r := ReadOf(c, reads_);
      found + Scan(pairs[i..], reads_)
      == (if Closed(r) then found + [c] else found)
         + if r.OutOfBoundary? then [] else Scan(pairs[i + 1..], reads_)
  {
    assert pairs[i..][1..] == pairs[i + 1..];
    Assoc(found, [pairs[i].chan], Scan(pairs[i + 1..], reads_));
  }

  method Note(invChans: array<Chan>, invCnt: nat, chan: Chan)
    requires invCnt < invChans.Length
    modifies invChans
    ensures invChans[..invCnt + 1] == old(invChans[..invCnt]) + [chan]
  {
    invChans[invCnt] := chan;
  }

  /** The loop of a poll over the pairs, which notes the dead channels in the slots of `invChans`. Where the
      source would write behind the last slot, this stops and says so. */
  method ScanInto(mfwds: seq<Pair>, reads_: map<Chan, Read>, invChans: array<Chan>) returns (fits: bool, invCnt: nat)
    modifies invChans
    ensures fits <==> |Scan(mfwds, reads_)| <= invChans.Length
    ensures fits ==> invCnt <= invChans.Length && invChans[..invCnt] == Scan(mfwds, reads_)
  {
    fits, invCnt := true, 0;
    ghost var dead, found, rest := Scan(mfwds, reads_), [], Scan(mfwds, reads_);
    var i := 0;
    assert mfwds[0..] == mfwds;
    while i < |mfwds|
      invariant 0 <= i <= |mfwds| && invCnt == |found| <= invChans.Length && invChans[..invCnt] == found
      invariant found + rest == dead && rest == if i < |mfwds| then Scan(mfwds[i..], reads_) else []
    {
      var chan := mfwds[i].chan;
      var r := ReadOf(chan, reads_);
      ScanOn(mfwds, i, reads_, found);
      if Closed(r) {
        if invCnt == invChans.Length {
          fits := false;
          return;
        }
        Note(invChans, invCnt, chan);
        found := found + [chan];
        invCnt := invCnt + 1;
      }
      rest := if r.OutOfBoundary? then [] else Scan(mfwds[i + 1..], reads_);
      if r.OutOfBoundary? {
        break;
      }
      i := i + 1;
    }
  }

  ghost predicate FirstWithChan(pairs: seq<Pair>, c: Chan, j: nat) {
    j < |pairs| && pairs[j].chan == c && forall k :: 0 <= k < j ==> pairs[k].chan != c
  }

  ghost predicate FirstWithSock(pairs: seq<Pair>, s: Sock, j: nat) {
    j < |pairs| && pairs[j].sock == s && forall k :: 0 <= k < j ==> pairs[k].sock != s
  }

  /** Pair `j` was erased, its channel freed and its socket deleted. */
  ghost predicate ReleasedAt(st: State, j: nat, st': State) {
    && j < |st.pairs| && st'.pairs == st.pairs[..j] + st.pairs[j + 1..]
    && st'.freed == st.freed + [st.pairs[j].chan] && st'.closed == st.closed + [st.pairs[j].sock]
    && st'.accepted == st.accepted && st'.opened_ == st.opened_
  }

  class ForwardPortWorker {
    var mfwds: seq<Pair>
    var accepted: seq<Chan>
    var freed: seq<Chan>
    var opened_: seq<Sock>
    var closed: seq<Sock>

    ghost function View(): State
      reads this
    {
      State(mfwds, accepted, freed, opened_, closed)
    }

    constructor ()
      ensures View() == Run([]) && Accounted(View())
    {
      mfwds, accepted, freed, opened_, closed := [], [], [], [], [];
      assert Chans([]) == [] && Socks([]) == [];
    }

    /** The accepting half of slot_poll_timeout. */
    method Accept(sock: Sock, chan: Chan)
      modifies this
      ensures View() == Step(old(View()), Accepted(sock, chan))
      ensures mfwds == old(mfwds) + [Pair(sock, chan)] && freed == old(freed) && closed == old(closed)
      ensures accepted == old(accepted) + [chan] && opened_ == old(opened_) + [sock]
      ensures old(Accounted(View()) && chan !in accepted && sock !in opened_) ==> Accounted(View())
    {
      KeepsAccount(View(), Accepted(sock, chan));
      accepted, opened_ := accepted + [chan], opened_ + [sock];
      mfwds := mfwds + [Pair(sock, chan)];
    }

    /** Erases one pair and releases both its ends. */
    method Release(j: nat)
      requires j < |mfwds|
      modifies this
      ensures View() == Drop(old(View()), j)
    {
      var p := mfwds[j];
      mfwds := mfwds[..j] + mfwds[j + 1..];
      freed := freed + [p.chan];
      closed := closed + [p.sock];
    }

    method RemoveForwardByChannel(chan: Chan)
      modifies this
      ensures View() == Drop(old(View()), FindChan(old(mfwds), chan))
      ensures forall j :: FirstWithChan(old(mfwds), chan, j) ==> ReleasedAt(old(View()), j, View())
      ensures (forall p :: p in old(mfwds) ==> p.chan != chan) ==> View() == old(View())
      ensures old(Accounted(View())) ==> Accounted(View())
    {
      if Accounted(View()) {
        DropAccounted(View(), FindChan(mfwds, chan));
      }
      var it := 0;
      while it < |mfwds| && mfwds[it].chan != chan
        invariant it <= |mfwds| && forall k :: 0 <= k < it ==> mfwds[k].chan != chan
      {
        it := it + 1;
      }
      assert it == FindChan(mfwds, chan) || FindChan(mfwds, chan) == |mfwds|;
      if it < |mfwds| {
        Release(it);
      }
    }

    /** slot_forward_dest_disconnected; an unknown sender changes nothing. */
    method DestDisconnected(sender: Sock)
      modifies this
      ensures View() == Step(old(View()), Disconnected(sender))
      ensures old(Accounted(View())) ==> forall p :: p in mfwds ==> p.sock != sender
      ensures forall j :: FirstWithSock(old(mfwds), sender, j) ==> ReleasedAt(old(View()), j, View())
      ensures (forall p :: p in old(mfwds) ==> p.sock != sender) ==> View() == old(View())
      ensures old(Accounted(View())) ==> Accounted(View())
    {
      KeepsAccount(View(), Disconnected(sender));
      if Accounted(View()) {
        SocketGone(View(), sender);
      }
      var it := 0;
      while it < |mfwds| && mfwds[it].sock != sender
        invariant it <= |mfwds| && forall k :: 0 <= k < it ==> mfwds[k].sock != sender
      {
        it := it + 1;
      }
      assert it == FindSock(mfwds, sender) || FindSock(mfwds, sender) == |mfwds|;
      if it < |mfwds| {
        Release(it);
      }
    }

    method RemoveDead(invChans: array<Chan>, invCnt: nat, ghost dead: seq<Chan>)
      requires invCnt <= invChans.Length && invChans[..invCnt] == dead
      modifies this
      ensures View() == RemoveChans(old(View()), dead)
    {
      for i := 0 to invCnt
        invariant View() == RemoveChans(old(View()), dead[..i])
      {
        assert dead[..i + 1][..i] == dead[..i];
        assert invChans[i] == dead[i];
        RemoveForwardByChannel(invChans[i]);
      }
      assert dead[..invCnt] == dead;
    }

    /** The polling half of slot_poll_timeout, with its fixed array of closed channels; `fits` says that the
        array was large enough. */
    method Poll(reads_: map<Chan, Read>) returns (fits: bool)
      modifies this
      ensures fits <==> Fits(old(View()), Polled(reads_))
      ensures View() == if fits then Step(old(View()), Polled(reads_)) else old(View())
      ensures old(Accounted(View())) && fits ==>
        var dead := Dead(old(mfwds), reads_, |old(mfwds)|);
        && mfwds == Spared(old(mfwds), reads_, |old(mfwds)|)
        && freed == old(freed) + Chans(dead) && closed == old(closed) + Socks(dead)
      ensures old(Accounted(View())) ==> Accounted(View())
    {
      var invChans := new Chan[INV_SLOTS];
      var invCnt;
      fits, invCnt := ScanInto(mfwds, reads_, invChans);
      if fits {
        RemoveDead(invChans, invCnt, Scan(mfwds, reads_));
      }
      KeepsAccount(old(View()), Polled(reads_));
      if old(Accounted(View())) {
        PollReleases(old(View()), reads_);
      }
    }

    /** set_listener. The list is emptied first, so the disconnected() signal that closing a socket
        raises finds nothing left to release. */
    method SetListener()
      modifies this
      ensures View() == Step(old(View()), NewListener)
      ensures mfwds == [] && accepted == old(accepted) && opened_ == old(opened_)
      ensures freed == old(freed) + Chans(old(mfwds)) && closed == old(closed) + Socks(old(mfwds))
      ensures old(Accounted(View())) ==> Accounted(View())
    {
      KeepsAccount(View(), NewListener);
      var tfwds := mfwds;
      mfwds := [];
      ghost var freed0, closed0 := freed, closed;
      assert Chans(tfwds[..0]) == [] && Socks(tfwds[..0]) == [];
      for i := 0 to |tfwds|
        invariant mfwds == [] && accepted == old(accepted) && opened_ == old(opened_)
        invariant freed == freed0 + Chans(tfwds[..i]) && closed == closed0 + Socks(tfwds[..i])
      {
        assert Chans(tfwds[..i + 1]) == Chans(tfwds[..i]) + [tfwds[i].chan];
        assert Socks(tfwds[..i + 1]) == Socks(tfwds[..i]) + [tfwds[i].sock];
        freed := freed + [tfwds[i].chan];
        DestDisconnected(tfwds[i].sock);
        closed := closed + [tfwds[i].sock];
      }
      assert tfwds[..|tfwds|] == tfwds;
    }
  }
}
