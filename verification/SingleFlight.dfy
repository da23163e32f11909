/**
 * Sharing one snapshot load among concurrent readers.
 *
 * `Loader` is what the adapter keeps; its functions are the stretches of code between two suspensions. `Machine`
 * adds the suspended readers and load bodies, and lets them take those steps in any order.
 */
module SingleFlight {
  import opened Outcomes
  import opened Texts

  // What a load publishes

  datatype Record = Record(id: Text, revision: Text)

  datatype Snapshot =
    Snapshot(beads: seq<Record>, links: seq<Record>, beadsById: map<Text, Record>, linksById: map<Text, Record>)

  predicate UniqueIds(rs: seq<Record>) {
    forall i, j :: 0 <= i < j < |rs| ==> rs[i].id != rs[j].id
  }

  /** `new Map(records.map((record) => [record.id, record]))` */
  function Index(rs: seq<Record>): map<Text, Record> {
    if rs == [] then map[] else Index(rs[..|rs| - 1])[rs[|rs| - 1].id := rs[|rs| - 1]]
  }

  /** A lookup by identity finds exactly the listed record of that identity. */
  ghost predicate Agrees(byId: map<Text, Record>, rs: seq<Record>) {
    && (forall r :: r in rs ==> r.id in byId && byId[r.id] == r)
    && (forall id :: id in byId ==> byId[id] in rs && byId[id].id == id)
  }

  ghost predicate Coherent(s: Snapshot) {
    Agrees(s.beadsById, s.beads) && Agrees(s.linksById, s.links)
  }

  lemma {:induction false} IndexAgrees(rs: seq<Record>)
    requires UniqueIds(rs)
    ensures Agrees(Index(rs), rs)
  {
    if rs != [] {
      var front, last := rs[..|rs| - 1], rs[|rs| - 1];
      IndexAgrees(front);
      assert rs == front + [last];
    }
  }

  /** What a finished projection publishes: both lists, duplicate-free, and their indexes. */
  function Publish(beads: seq<Record>, links: seq<Record>): Snapshot {
    Snapshot(beads, links, Index(beads), Index(links))
  }

  // The loader

  datatype Flight = Flight(waiters: int, settled: bool, aborted: bool)

  datatype Loader = Loader(
    ttl: nat,
    flights: seq<Flight>,
    loading: Option<nat>,
    snapshot: Option<Snapshot>,
    loadedAt: int,
    failedAt: Option<int>)

  datatype Entry = Refused | Fresh | RecentFailure | Waits(flight: nat)

  function Begin(l: Loader): Loader {
    l.(flights := l.flights + [Flight(0, false, false)], loading := Some(|l.flights|))
  }

  function Join(l: Loader, k: nat): Loader
    requires k < |l.flights|
  {
    l.(flights := l.flights[k := l.flights[k].(waiters := l.flights[k].waiters + 1)])
  }

  /** A reader arrives: refused when it is already cancelled, served or failed at once, or joined to a load. */
  function Enter(l: Loader, now: int, cancelled: bool): (Loader, Entry)
    requires l.loading.Some? ==> l.loading.value < |l.flights|
  {
    if cancelled then
      (l, Refused)
    else if l.snapshot.Some? && now - l.loadedAt < l.ttl then
      (l, Fresh)
    else if l.failedAt.Some? && now - l.failedAt.value < l.ttl then
      (l, RecentFailure)
    else
      var ready := if l.loading.None? then Begin(l) else l;
      (Join(ready, ready.loading.value), Waits(ready.loading.value))
  }

  /** A reader's wait is over, however it ended; the last one out of an unsettled load aborts it. */
  function Leave(l: Loader, k: nat): Loader
    requires k < |l.flights|
  {
    var f := l.flights[k];
    var waiters := f.waiters - 1;
    if waiters == 0 && !f.settled then
      l.(flights := l.flights[k := Flight(0, false, true)],
         loading := if l.loading == Some(k) then None else l.loading)
    else
      l.(flights := l.flights[k := f.(waiters := waiters)])
  }

  function Commit(l: Loader, s: Snapshot, now: int): Loader {
    l.(snapshot := Some(s), loadedAt := now, failedAt := None)
  }

  function Fail(l: Loader, now: int): Loader {
    l.(failedAt := Some(now))
  }

  function Settle(l: Loader, k: nat): Loader
    requires k < |l.flights|
  {
    l.(flights := l.flights[k := l.flights[k].(settled := true)],
       loading := if l.loading == Some(k) then None else l.loading)
  }

  // Readers and load bodies

  type Reader = nat

  datatype Ending = Committed | ProjectionFailed | ProcessFailed | Interrupted

  /** A load body runs, ends, has its failure noted, and is settled. */
  datatype Body = Running | Ended(ending: Ending, noted: bool)

  datatype Result = Served | OwnCancellation | EarlierFailure | LoadFailed(ending: Ending)

  /** A reader waits inside a load, has been woken but not yet left, or is done, with the load it waited for if any. */
  datatype Phase = Waiting(flight: nat) | Woken(flight: nat, result: Result) | Done(origin: Option<nat>, result: Result)

  datatype Machine = Machine(loader: Loader, bodies: seq<Body>, readers: map<Reader, Phase>, cancelled: set<Reader>)

  datatype Event =
    | Arrive(reader: Reader, now: int, already: bool)
    | Cancel(reader: Reader)
    | Wake(reader: Reader)
    | Depart(reader: Reader)
    | Publishes(flight: nat, beads: seq<Record>, links: seq<Record>, now: int)
    | Fails(flight: nat, ending: Ending)
    | Notes(flight: nat, now: int)
    | Settles(flight: nat)

  function ResultOf(ending: Ending): Result {
    if ending.Committed? then Served else LoadFailed(ending)
  }

  predicate Inside(m: Machine, r: Reader, k: nat) {
    r in m.readers && !m.readers[r].Done? && m.readers[r].flight == k
  }

  /** The readers between joining a load and leaving it. */
  function Crowd(m: Machine, k: nat): set<Reader> {
    set r | r in m.readers && Inside(m, r, k)
  }

  /** What may happen, and when. */
  predicate Enabled(m: Machine, e: Event) {
    match e
    case Arrive(r, _, _) => r !in m.readers
    case Cancel(r) => r in m.readers && m.readers[r].Waiting?
    case Wake(r) =>
      && r in m.readers && m.readers[r].Waiting?
      && m.readers[r].flight < |m.loader.flights| && m.loader.flights[m.readers[r].flight].settled
      && m.readers[r].flight < |m.bodies| && m.bodies[m.readers[r].flight].Ended?
    case Depart(r) => r in m.readers && m.readers[r].Woken? && m.readers[r].flight < |m.loader.flights|
    case Publishes(k, beads, links, _) =>
      k < |m.bodies| && m.bodies[k].Running? && UniqueIds(beads) && UniqueIds(links)
    case Fails(k, ending) =>
      // Only an aborted load is interrupted, and its failure is not a projection failure.
      && k < |m.bodies| && m.bodies[k].Running? && !ending.Committed?
      && k < |m.loader.flights|
      && (ending.Interrupted? ==> m.loader.flights[k].aborted)
      && (ending.ProjectionFailed? ==> !m.loader.flights[k].aborted)
    case Notes(k, _) =>
      k < |m.bodies| && m.bodies[k].Ended? && m.bodies[k].ending.ProjectionFailed? && !m.bodies[k].noted
    case Settles(k) =>
      && k < |m.bodies| && m.bodies[k].Ended? && (m.bodies[k].ending.ProjectionFailed? ==> m.bodies[k].noted)
      && k < |m.loader.flights| && !m.loader.flights[k].settled
  }

  predicate LoadingExists(l: Loader) {
    l.loading.Some? ==> l.loading.value < |l.flights|
  }

  function Arrival(m: Machine, r: Reader, now: int, already: bool): Machine
    requires LoadingExists(m.loader)
  {
    var (loader, entry) := Enter(m.loader, now, already);
    var phase :=
      match entry
      case Refused => Done(None, OwnCancellation)
      case Fresh => Done(None, Served)
      case RecentFailure => Done(None, EarlierFailure)
      case Waits(k) => Waiting(k);
    var bodies := if |loader.flights| > |m.loader.flights| then m.bodies + [Running] else m.bodies;
    Machine(loader, bodies, m.readers[r := phase], if already then m.cancelled + {r} else m.cancelled)
  }

  /** One step; an event that is not enabled changes nothing. */
  function Next(m: Machine, e: Event): Machine
    requires LoadingExists(m.loader)
  {
    if !Enabled(m, e) then
      m
    else
      match e
      case Arrive(r, now, already) => Arrival(m, r, now, already)
      case Cancel(r) =>
        m.(readers := m.readers[r := Woken(m.readers[r].flight, OwnCancellation)], cancelled := m.cancelled + {r})
      case Wake(r) =>
        m.(readers := m.readers[r := Woken(m.readers[r].flight, ResultOf(m.bodies[m.readers[r].flight].ending))])
      case Depart(r) =>
        var k := m.readers[r].flight;
        m.(loader := Leave(m.loader, k), readers := m.readers[r := Done(Some(k), m.readers[r].result)])
      case Publishes(k, beads, links, now) =>
        m.(loader := Commit(m.loader, Publish(beads, links), now), bodies := m.bodies[k := Ended(Committed, false)])
      case Fails(k, ending) => m.(bodies := m.bodies[k := Ended(ending, false)])
      case Notes(k, now) =>
        m.(loader := Fail(m.loader, now), bodies := m.bodies[k := Ended(ProjectionFailed, true)])
      case Settles(k) => m.(loader := Settle(m.loader, k))
  }

  // The invariant

  /** A load knows how many readers are inside; an aborted one has none and is not current. */
  predicate FlightKept(m: Machine, k: nat)
    requires k < |m.loader.flights|
  {
    var f := m.loader.flights[k];
    && f.waiters == |Crowd(m, k)|
    && (f.aborted ==> f.waiters == 0 && m.loader.loading != Some(k))
    && (m.loader.loading == Some(k) ==> f.waiters > 0 && !f.settled)
    && (!f.settled && !f.aborted ==> m.loader.loading == Some(k))
    && (f.settled ==> k < |m.bodies| && m.bodies[k].Ended?)
    && (k < |m.bodies| && m.bodies[k].Ended? && m.bodies[k].ending.Interrupted? ==> f.aborted)
    && (k < |m.bodies| && m.bodies[k].Ended? && m.bodies[k].ending.Committed? ==> m.loader.snapshot.Some?)
  }

  predicate ReaderKept(m: Machine, r: Reader)
    requires r in m.readers
  {
    match m.readers[r]
    case Waiting(k) => k < |m.loader.flights|
    case Woken(k, result) => k < |m.loader.flights| && ResultKept(m, r, result) && IsOfLoad(m, k, result)
    case Done(None, result) => ResultKept(m, r, result) && result in {OwnCancellation, Served, EarlierFailure}
    case Done(Some(k), result) => ResultKept(m, r, result) && IsOfLoad(m, k, result)
  }

  /** A reader that was not cancelled hears how the body of its load ended. */
  predicate IsOfLoad(m: Machine, k: nat, result: Result) {
    result == OwnCancellation || (k < |m.bodies| && m.bodies[k].Ended? && result == ResultOf(m.bodies[k].ending))
  }

  /** Nobody is told of a cancellation but the cancelled reader, and nobody is served without a snapshot. */
  predicate ResultKept(m: Machine, r: Reader, result: Result) {
    && (result == OwnCancellation ==> r in m.cancelled)
    && result != LoadFailed(Interrupted)
    && (result == Served ==> m.loader.snapshot.Some?)
  }

  ghost predicate Inv(m: Machine) {
    && LoadingExists(m.loader)
    && |m.bodies| == |m.loader.flights|
    && (forall k :: 0 <= k < |m.loader.flights| ==> FlightKept(m, k))
    && (forall r :: r in m.readers ==> ReaderKept(m, r))
    && (m.loader.snapshot.Some? ==> Coherent(m.loader.snapshot.value))
  }

  lemma CrowdAfterPhase(m: Machine, n: Machine, r: Reader, k: nat)
    requires r in m.readers && r in n.readers && n.readers == m.readers[r := n.readers[r]]
    requires !m.readers[r].Done? && !n.readers[r].Done? && n.readers[r].flight == m.readers[r].flight
    ensures Crowd(n, k) == Crowd(m, k)
  {
  }

  lemma CrowdAfterArrival(m: Machine, n: Machine, r: Reader, k: nat)
    requires r !in m.readers && r in n.readers && n.readers == m.readers[r := n.readers[r]]
    ensures Crowd(n, k) == if Inside(n, r, k) then Crowd(m, k) + {r} else Crowd(m, k)
    ensures r !in Crowd(m, k)
  {
  }

  lemma CrowdAfterDeparture(m: Machine, n: Machine, r: Reader, k: nat)
    requires r in m.readers && r in n.readers && n.readers == m.readers[r := n.readers[r]] && n.readers[r].Done?
    ensures Crowd(n, k) == Crowd(m, k) - {r}
    ensures r in Crowd(m, k) <==> Inside(m, r, k)
  {
  }

  lemma CrowdOfSameReaders(m: Machine, n: Machine, k: nat)
    requires n.readers == m.readers
    ensures Crowd(n, k) == Crowd(m, k)
  {
  }

  lemma ArriveKeepsInv(m: Machine, r: Reader, now: int, already: bool)
    requires Inv(m) && r !in m.readers
    ensures Inv(Arrival(m, r, now, already))
  {
    hide Crowd, Inside, Coherent, FlightKept;
    var n := Arrival(m, r, now, already);
    var entry := Enter(m.loader, now, already).1;
    forall k | 0 <= k < |n.loader.flights|
      ensures FlightKept(n, k)
    {
      CrowdAfterArrival(m, n, r, k);
      ArrivalKeepsFlight(m, r, now, already, k);
    }
  }

  lemma ArrivalKeepsFlight(m: Machine, r: Reader, now: int, already: bool, k: nat)
    requires Inv(m) && r !in m.readers
    requires k < |Arrival(m, r, now, already).loader.flights|
    ensures FlightKept(Arrival(m, r, now, already), k)
  {
    hide Crowd, Coherent;
    var n := Arrival(m, r, now, already);
    CrowdAfterArrival(m, n, r, k);
    if k < |m.loader.flights| {
      assert FlightKept(m, k);
    } else {
      assert Crowd(m, k) == {} by { NobodyAhead(m, k); }
    }
  }

  lemma NobodyAhead(m: Machine, k: nat)
    requires Inv(m) && k >= |m.loader.flights|
    ensures Crowd(m, k) == {}
  {
    forall r | r in m.readers ensures !Inside(m, r, k) { assert ReaderKept(m, r); }
  }

  /** A reader that stays in its load, woken or not, does not change the count. */
  lemma PhaseKeepsInv(m: Machine, r: Reader, result: Result, cancelled: set<Reader>)
    requires Inv(m) && r in m.readers && m.readers[r].Waiting? && m.cancelled <= cancelled
    requires var n := m.(readers := m.readers[r := Woken(m.readers[r].flight, result)], cancelled := cancelled);
             ResultKept(n, r, result) && IsOfLoad(n, m.readers[r].flight, result)
    ensures Inv(m.(readers := m.readers[r := Woken(m.readers[r].flight, result)], cancelled := cancelled))
  {
    hide Crowd, Inside, Coherent;
    var n := m.(readers := m.readers[r := Woken(m.readers[r].flight, result)], cancelled := cancelled);
    assert ReaderKept(m, r);
    forall k | 0 <= k < |n.loader.flights|
      ensures FlightKept(n, k)
    {
      assert FlightKept(m, k);
      CrowdAfterPhase(m, n, r, k);
    }
    forall q | q in n.readers
      ensures ReaderKept(n, q)
    {
      assert q in m.readers && ReaderKept(m, q);
    }
  }

  /** A reader inside a settled load is never told that the load was aborted. */
  lemma WakeTellsNoCancellation(m: Machine, r: Reader)
    requires Inv(m) && Enabled(m, Wake(r))
    ensures ResultKept(m, r, ResultOf(m.bodies[m.readers[r].flight].ending))
  {
    var k := m.readers[r].flight;
    assert FlightKept(m, k);
    assert r in Crowd(m, k);
  }

  lemma DepartKeepsInv(m: Machine, r: Reader)
    requires Inv(m) && Enabled(m, Depart(r))
    ensures Inv(Next(m, Depart(r)))
  {
    hide Crowd, Inside, Coherent;
    var n := Next(m, Depart(r));
    var d := m.readers[r].flight;
    assert ReaderKept(m, r);
    forall k | 0 <= k < |n.loader.flights|
      ensures FlightKept(n, k)
    {
      assert FlightKept(m, k);
      CrowdAfterDeparture(m, n, r, k);
      if k == d {
        assert r in Crowd(m, k) by { assert Inside(m, r, k) by { StillInside(m, r); } }
        assert |Crowd(n, k)| == |Crowd(m, k)| - 1;
      } else {
        assert r !in Crowd(m, k) by { NotElsewhere(m, r, k); }
        assert Crowd(n, k) == Crowd(m, k);
      }
    }
    forall q | q in n.readers
      ensures ReaderKept(n, q)
    {
      assert q in m.readers && ReaderKept(m, q);
    }
  }

  lemma StillInside(m: Machine, r: Reader)
    requires r in m.readers && !m.readers[r].Done?
    ensures Inside(m, r, m.readers[r].flight)
  {
  }

  lemma NotElsewhere(m: Machine, r: Reader, k: nat)
    requires r in m.readers && !m.readers[r].Done? && m.readers[r].flight != k
    ensures !Inside(m, r, k)
  {
  }

  /** A step of a load body leaves the readers alone. */
  lemma BodyKeepsInv(m: Machine, e: Event)
    requires Inv(m) && Enabled(m, e)
    requires e.Publishes? || e.Fails? || e.Notes? || e.Settles?
    ensures Inv(Next(m, e))
  {
    hide Crowd, Inside, Coherent, Publish;
    var n := Next(m, e);
    forall k | 0 <= k < |n.loader.flights|
      ensures FlightKept(n, k)
    {
      assert FlightKept(m, k);
      CrowdOfSameReaders(m, n, k);
    }
    forall q | q in n.readers
      ensures ReaderKept(n, q)
    {
      assert ReaderKept(m, q);
    }
    if e.Publishes? {
      assert Coherent(Publish(e.beads, e.links)) by { PublishIsCoherent(e.beads, e.links); }
    }
  }

  lemma PublishIsCoherent(beads: seq<Record>, links: seq<Record>)
    requires UniqueIds(beads) && UniqueIds(links)
    ensures Coherent(Publish(beads, links))
  {
    IndexAgrees(beads);
    IndexAgrees(links);
  }

  /** Every step keeps the invariant. */
  lemma NextKeepsInv(m: Machine, e: Event)
    requires Inv(m)
    ensures Inv(Next(m, e))
  {
    hide Inv, FlightKept, ReaderKept, Crowd;
    assert LoadingExists(m.loader) by { InvHasLoading(m); }
    if Enabled(m, e) {
      match e
      case Arrive(r, now, already) =>
        ArriveKeepsInv(m, r, now, already);
      case Cancel(r) =>
        PhaseKeepsInv(m, r, OwnCancellation, m.cancelled + {r});
      case Wake(r) =>
        WakeTellsNoCancellation(m, r);
        PhaseKeepsInv(m, r, ResultOf(m.bodies[m.readers[r].flight].ending), m.cancelled);
      case Depart(r) =>
        DepartKeepsInv(m, r);
      case _ =>
        BodyKeepsInv(m, e);
    }
  }

  lemma InvHasLoading(m: Machine)
    requires Inv(m)
    ensures LoadingExists(m.loader)
  {
  }

  // Whole runs

  function Initial(ttl: nat): Machine {
    Machine(Loader(ttl, [], None, None, 0, None), [], map[], {})
  }

  /** The state after a run; every run keeps the invariant. */
  function After(m: Machine, events: seq<Event>): (n: Machine)
    requires Inv(m)
    ensures Inv(n)
    decreases events
  {
    if events == [] then
      m
    else
      NextKeepsInv(m, events[0]);
      After(Next(m, events[0]), events[1..])
  }

  /** A load that is neither settled nor aborted is the current one, so there is at most one; it has readers. */
  lemma AtMostOneLoad(ttl: nat, events: seq<Event>, k: nat)
    ensures Inv(Initial(ttl))
    ensures var l := After(Initial(ttl), events).loader;
            k < |l.flights| ==>
              && (l.loading == Some(k) <==> !l.flights[k].settled && !l.flights[k].aborted)
              && (l.loading == Some(k) ==> l.flights[k].waiters > 0)
  {
    var m := After(Initial(ttl), events);
    if k < |m.loader.flights| {
      assert FlightKept(m, k);
    }
  }

  /** The count of a load is the number of readers between joining and leaving it. */
  lemma WaitersAreReadersInside(ttl: nat, events: seq<Event>, k: nat)
    ensures Inv(Initial(ttl))
    ensures var m := After(Initial(ttl), events);
            k < |m.loader.flights| ==> m.loader.flights[k].waiters == |Crowd(m, k)|
  {
    var m := After(Initial(ttl), events);
    if k < |m.loader.flights| {
      assert FlightKept(m, k);
    }
  }

  /** Only the departure of the last reader of an unsettled load aborts it. */
  lemma OnlyTheLastReaderAborts(m: Machine, e: Event, k: nat)
    requires Inv(m) && k < |m.loader.flights| && !m.loader.flights[k].aborted
    ensures var n := Next(m, e);
            k < |n.loader.flights| && (n.loader.flights[k].aborted <==>
              && e.Depart? && Enabled(m, e) && Crowd(m, k) == {e.reader} && !m.loader.flights[k].settled)
  {
    assert FlightKept(m, k);
    if e.Depart? && Enabled(m, e) && m.readers[e.reader].flight == k {
      assert e.reader in Crowd(m, k);
      assert |Crowd(m, k)| == 1 ==> Crowd(m, k) == {e.reader} by { OnlyMember(Crowd(m, k), e.reader); }
    }
    if e.Depart? && Enabled(m, e) && Crowd(m, k) == {e.reader} {
      assert e.reader in Crowd(m, k);
    }
  }

  lemma OnlyMember(s: set<Reader>, r: Reader)
    requires r in s
    ensures |s| == 1 ==> s == {r}
  {
    if |s| == 1 {
      assert |s - {r}| == 0;
      assert s == {r};
    }
  }

  lemma AbortedForOneStep(m: Machine, e: Event, k: nat)
    requires Inv(m) && k < |m.loader.flights| && m.loader.flights[k].aborted
    ensures var n := Next(m, e);
            k < |n.loader.flights| && n.loader.flights[k].aborted && n.loader.loading != Some(k)
  {
    hide Crowd, Inside, Coherent;
    assert FlightKept(m, k);
    if e.Depart? && Enabled(m, e) {
      assert ReaderKept(m, e.reader);
    }
    NextKeepsInv(m, e);
    assert k < |Next(m, e).loader.flights| ==> FlightKept(Next(m, e), k);
  }

  /** Nobody ever joins an aborted load. */
  lemma {:induction false} AbortedStaysEmpty(m: Machine, events: seq<Event>, k: nat)
    requires Inv(m) && k < |m.loader.flights| && m.loader.flights[k].aborted
    ensures var n := After(m, events);
            k < |n.loader.flights| && n.loader.flights[k].aborted && n.loader.loading != Some(k) && Crowd(n, k) == {}
    decreases events
  {
    hide Next, Enabled, ReaderKept;
    if events == [] {
      assert FlightKept(m, k);
    } else {
      AbortedForOneStep(m, events[0], k);
      NextKeepsInv(m, events[0]);
      AbortedStaysEmpty(Next(m, events[0]), events[1..], k);
    }
  }

  /** The reader asked for its own cancellation in the course of the run. */
  predicate AskedToStop(events: seq<Event>, r: Reader) {
    exists i :: 0 <= i < |events| &&
      (events[i] == Cancel(r) || (events[i].Arrive? && events[i].reader == r && events[i].already))
  }

  lemma {:induction false} CancelledWereAsked(m: Machine, events: seq<Event>, r: Reader)
    requires Inv(m)
    requires r in After(m, events).cancelled && r !in m.cancelled
    ensures AskedToStop(events, r)
    decreases events
  {
    hide Inv, Crowd;
    if events != [] {
      NextKeepsInv(m, events[0]);
      InvHasLoading(m);
      var n := Next(m, events[0]);
      if r in n.cancelled {
        assert events[0] == Cancel(r) || (events[0].Arrive? && events[0].reader == r && events[0].already);
      } else {
        CancelledWereAsked(n, events[1..], r);
        var i :| 0 <= i < |events[1..]| &&
          (|| events[1..][i] == Cancel(r)
           || (events[1..][i].Arrive? && events[1..][i].reader == r && events[1..][i].already));
        assert events[i + 1] == events[1..][i];
      }
    }
  }

  function ResultSoFar(m: Machine, r: Reader): Option<Result> {
    if r !in m.readers || m.readers[r].Waiting? then None else Some(m.readers[r].result)
  }

  /**
   * One reader's cancellation never rejects another: a reader is told of a cancellation only if it asked for its
   * own, and no reader is ever told that its load was interrupted.
   */
  lemma CancellationIsPrivate(ttl: nat, events: seq<Event>, r: Reader)
    ensures Inv(Initial(ttl))
    ensures ResultSoFar(After(Initial(ttl), events), r) == Some(OwnCancellation) ==> AskedToStop(events, r)
    ensures ResultSoFar(After(Initial(ttl), events), r) != Some(LoadFailed(Interrupted))
  {
    var m := After(Initial(ttl), events);
    if r in m.readers {
      assert ReaderKept(m, r);
    }
    if ResultSoFar(m, r) == Some(OwnCancellation) {
      CancelledWereAsked(Initial(ttl), events, r);
    }
  }

  lemma {:induction false} AfterEnds(m: Machine, events: seq<Event>)
    requires Inv(m) && events != []
    ensures var n := |events| - 1;
            LoadingExists(After(m, events[..n]).loader) && After(m, events) == Next(After(m, events[..n]), events[n])
    decreases events
  {
    hide Inv, Next;
    var n := |events| - 1;
    InvHasLoading(After(m, events[..n]));
    if n > 0 {
      InvHasLoading(m);
      NextKeepsInv(m, events[0]);
      AfterEnds(Next(m, events[0]), events[1..]);
      assert events[1..][..n - 1] == events[..n][1..];
    }
  }

  /** The event is the publication of a load. */
  ghost predicate PublishesAt(m: Machine, events: seq<Event>, i: nat)
    requires Inv(m)
  {
    i < |events| && events[i].Publishes? && Enabled(After(m, events[..i]), events[i])
  }

  lemma PublishesBefore(m: Machine, events: seq<Event>, n: nat, i: nat)
    requires Inv(m) && i < n <= |events|
    ensures PublishesAt(m, events[..n], i) <==> PublishesAt(m, events, i)
  {
    assert events[..n][..i] == events[..i];
  }

  /** The snapshot lists what was published, under the identities it has. */
  ghost predicate IsSnapshotOf(s: Snapshot, beads: seq<Record>, links: seq<Record>) {
    s.beads == beads && s.links == links && Agrees(s.beadsById, beads) && Agrees(s.linksById, links)
  }

  /** The event is the last publication, and the snapshot is what it published. */
  ghost predicate LastPublishesAt(m: Machine, events: seq<Event>, i: nat)
    requires Inv(m)
  {
    && PublishesAt(m, events, i) && (forall l :: i < l < |events| ==> !PublishesAt(m, events, l))
    && After(m, events).loader.snapshot == Some(Publish(events[i].beads, events[i].links))
  }

  lemma {:induction false} SnapshotWasPublished(m: Machine, events: seq<Event>) returns (i: nat)
    requires Inv(m) && m.loader.snapshot.None? && After(m, events).loader.snapshot.Some?
    ensures LastPublishesAt(m, events, i)
  {
    hide Inv, Publish;
    var n := |events| - 1;
    AfterEnds(m, events);
    if PublishesAt(m, events, n) {
      i := n;
    } else {
      i := SnapshotWasPublished(m, events[..n]);
      forall l | 0 <= l < n ensures PublishesAt(m, events[..n], l) <==> PublishesAt(m, events, l) {
        PublishesBefore(m, events, n, l);
      }
    }
  }

  lemma {:induction false} LoadWasPublished(m: Machine, events: seq<Event>, k: nat) returns (i: nat)
    requires Inv(m) && m.bodies == []
    requires var bodies := After(m, events).bodies; k < |bodies| && bodies[k].Ended? && bodies[k].ending.Committed?
    ensures PublishesAt(m, events, i) && events[i].flight == k
  {
    hide Inv, Publish;
    var n := |events| - 1;
    AfterEnds(m, events);
    if PublishesAt(m, events, n) && events[n].flight == k {
      i := n;
    } else {
      i := LoadWasPublished(m, events[..n], k);
      PublishesBefore(m, events, n, i);
    }
  }

  /** The load a reader waits or waited for. */
  function LoadOf(m: Machine, r: Reader): Option<nat> {
    if r !in m.readers then None
    else if m.readers[r].Done? then m.readers[r].origin
    else Some(m.readers[r].flight)
  }

  /** Unless it was cancelled, a reader that waited for a load hears how the body of that very load ended. */
  lemma OutcomeIsOfItsLoad(ttl: nat, events: seq<Event>, r: Reader)
    ensures Inv(Initial(ttl))
    ensures var m := After(Initial(ttl), events);
            LoadOf(m, r).Some? && ResultSoFar(m, r) !in {None, Some(OwnCancellation)} ==>
              var k := LoadOf(m, r).value;
              k < |m.bodies| && m.bodies[k].Ended? && ResultSoFar(m, r) == Some(ResultOf(m.bodies[k].ending))
  {
    hide Crowd, FlightKept, Coherent;
    var m := After(Initial(ttl), events);
    if r in m.readers {
      assert ReaderKept(m, r);
    }
  }

  /** A reader served after waiting finds what its own load published, or a later publication. */
  lemma ServedByItsLoad(ttl: nat, events: seq<Event>, r: Reader) returns (own: nat, last: nat)
    requires Inv(Initial(ttl))
    requires LoadOf(After(Initial(ttl), events), r).Some?
    requires ResultSoFar(After(Initial(ttl), events), r) == Some(Served)
    ensures PublishesAt(Initial(ttl), events, own)
    ensures events[own].flight == LoadOf(After(Initial(ttl), events), r).value
    ensures own <= last && LastPublishesAt(Initial(ttl), events, last)
    ensures var snapshot := After(Initial(ttl), events).loader.snapshot;
            snapshot.Some? && IsSnapshotOf(snapshot.value, events[last].beads, events[last].links)
  {
    hide Inv, Publish;
    OutcomeIsOfItsLoad(ttl, events, r);
    ServedReadersFindASnapshot(ttl, events, r);
    own := LoadWasPublished(Initial(ttl), events, LoadOf(After(Initial(ttl), events), r).value);
    last := SnapshotWasPublished(Initial(ttl), events);
    PublishedIsSnapshot(events[last].beads, events[last].links);
  }

  lemma PublishedIsSnapshot(beads: seq<Record>, links: seq<Record>)
    requires UniqueIds(beads) && UniqueIds(links)
    ensures IsSnapshotOf(Publish(beads, links), beads, links)
  {
    IndexAgrees(beads);
    IndexAgrees(links);
  }

  /** A reader that arrives cancelled, or is cancelled while it waits, is told so and changes no load. */
  lemma CancelledIsTold(m: Machine, r: Reader, now: int)
    requires LoadingExists(m.loader)
    ensures Enabled(m, Arrive(r, now, true)) ==>
              var n := Next(m, Arrive(r, now, true));
              ResultSoFar(n, r) == Some(OwnCancellation) && n.loader == m.loader && n.bodies == m.bodies
    ensures Enabled(m, Cancel(r)) ==>
              var n := Next(m, Cancel(r));
              ResultSoFar(n, r) == Some(OwnCancellation) && n.loader == m.loader && n.bodies == m.bodies
  {
  }

  /** Whatever is neither refused nor answered at once waits for the current load, or for a new one. */
  lemma OthersWait(m: Machine, r: Reader, now: int, already: bool)
    requires Inv(m) && Enabled(m, Arrive(r, now, already))
    ensures var (entry, n) := (Enter(m.loader, now, already).1, Next(m, Arrive(r, now, already)));
            entry.Waits? ==>
              && !already && LoadOf(n, r) == Some(entry.flight) && ResultSoFar(n, r) == None
              && n.loader.loading == Some(entry.flight)
              && entry.flight == (if m.loader.loading.Some? then m.loader.loading.value else |m.loader.flights|)
  {
  }

  /** What a reader was told stays as it is. */
  lemma {:induction false} ResultStays(m: Machine, events: seq<Event>, r: Reader)
    requires Inv(m) && ResultSoFar(m, r).Some?
    ensures ResultSoFar(After(m, events), r) == ResultSoFar(m, r)
    decreases events
  {
    hide Inv, Crowd, Publish, Enter, Leave;
    if events != [] {
      InvHasLoading(m);
      NextKeepsInv(m, events[0]);
      ResultStays(Next(m, events[0]), events[1..], r);
    }
  }

  /** A settled load is over: it is no longer the current one. */
  lemma SettlingEnds(m: Machine, k: nat)
    requires LoadingExists(m.loader) && Enabled(m, Settles(k))
    ensures var n := Next(m, Settles(k));
            n.loader.flights[k].settled && n.loader.loading != Some(k) && n.loader.snapshot == m.loader.snapshot
  {
  }

  // What may always happen

  /**
   * Nothing gets stuck: anyone may arrive, a waiting reader may be cancelled, and once its load is settled be woken,
   * a woken one may depart; a running body may publish any lists without repeated identities or fail, and one that
   * has ended may be settled, if need be after its failure was noted.
   */
  lemma NothingIsStuck(m: Machine, r: Reader, k: nat, now: int, already: bool,
                       beads: seq<Record>, links: seq<Record>)
    requires Inv(m)
    ensures r !in m.readers ==> Enabled(m, Arrive(r, now, already))
    ensures r in m.readers && m.readers[r].Waiting? ==>
              && Enabled(m, Cancel(r))
              && (m.loader.flights[m.readers[r].flight].settled ==> Enabled(m, Wake(r)))
    ensures r in m.readers && m.readers[r].Woken? ==> Enabled(m, Depart(r))
    ensures k < |m.bodies| && m.bodies[k].Running? ==>
              && (UniqueIds(beads) && UniqueIds(links) ==> Enabled(m, Publishes(k, beads, links, now)))
              && Enabled(m, Fails(k, ProcessFailed))
              && Enabled(m, Fails(k, if m.loader.flights[k].aborted then Interrupted else ProjectionFailed))
    ensures k < |m.bodies| && m.bodies[k].Ended? && !m.loader.flights[k].settled ==>
              var unnoted := m.bodies[k].ending.ProjectionFailed? && !m.bodies[k].noted;
              Enabled(m, if unnoted then Notes(k, now) else Settles(k))
  {
    hide Crowd;
    if r in m.readers {
      assert ReaderKept(m, r);
      if m.readers[r].Waiting? {
        assert FlightKept(m, m.readers[r].flight);
      }
    }
  }

  /** A served reader finds a snapshot, and every lookup in it finds exactly the listed records. */
  lemma ServedReadersFindASnapshot(ttl: nat, events: seq<Event>, r: Reader)
    ensures Inv(Initial(ttl))
    ensures var m := After(Initial(ttl), events);
            ResultSoFar(m, r) == Some(Served) ==> m.loader.snapshot.Some? && Coherent(m.loader.snapshot.value)
  {
    var m := After(Initial(ttl), events);
    if r in m.readers {
      assert ReaderKept(m, r);
    }
  }

  /** The last snapshot published in the course of a run, and when. */
  ghost function LastPublication(m: Machine, events: seq<Event>, before: Option<(Snapshot, int)>):
    Option<(Snapshot, int)>
    requires Inv(m)
    decreases events
  {
    if events == [] then
      before
    else
      NextKeepsInv(m, events[0]);
      var e := events[0];
      LastPublication(Next(m, e), events[1..],
        if e.Publishes? && Enabled(m, e) then Some((Publish(e.beads, e.links), e.now)) else before)
  }

  ghost predicate Shows(l: Loader, publication: Option<(Snapshot, int)>) {
    match publication
    case None => l.snapshot.None?
    case Some((s, t)) => l.snapshot == Some(s) && l.loadedAt == t
  }

  lemma {:induction false} SnapshotIsLastPublication(m: Machine, events: seq<Event>, before: Option<(Snapshot, int)>)
    requires Inv(m) && Shows(m.loader, before)
    ensures Shows(After(m, events).loader, LastPublication(m, events, before))
    decreases events
  {
    hide Inv, Publish;
    if events != [] {
      var e := events[0];
      InvHasLoading(m);
      NextKeepsInv(m, e);
      var now := if e.Publishes? && Enabled(m, e) then Some((Publish(e.beads, e.links), e.now)) else before;
      assert Shows(Next(m, e).loader, now);
      SnapshotIsLastPublication(Next(m, e), events[1..], now);
    }
  }

  /**
   * A reader is served on arrival exactly when the last snapshot any load published is younger than the bound, and
   * that is the snapshot it gets.
   */
  lemma ServedOnArrivalIsRecent(ttl: nat, events: seq<Event>, now: int)
    ensures Inv(Initial(ttl))
    ensures var l := After(Initial(ttl), events).loader;
            var last := LastPublication(Initial(ttl), events, None);
            LoadingExists(l)
            && (Enter(l, now, false).1.Fresh? <==> last.Some? && now - last.value.1 < ttl)
            && (Enter(l, now, false).1.Fresh? ==> l.snapshot == Some(last.value.0))
  {
    hide Publish;
    SnapshotIsLastPublication(Initial(ttl), events, None);
    SameTtl(Initial(ttl), events);
  }

  /** When the last failure was noted that no publication followed. */
  ghost function LastFailure(m: Machine, events: seq<Event>, before: Option<int>): Option<int>
    requires Inv(m)
    decreases events
  {
    if events == [] then
      before
    else
      NextKeepsInv(m, events[0]);
      var e := events[0];
      LastFailure(Next(m, e), events[1..],
        if !Enabled(m, e) then before else if e.Publishes? then None else if e.Notes? then Some(e.now) else before)
  }

  lemma {:induction false} FailureIsLastFailure(m: Machine, events: seq<Event>)
    requires Inv(m)
    ensures After(m, events).loader.failedAt == LastFailure(m, events, m.loader.failedAt)
    decreases events
  {
    hide Inv, Publish;
    if events != [] {
      InvHasLoading(m);
      NextKeepsInv(m, events[0]);
      FailureIsLastFailure(Next(m, events[0]), events[1..]);
    }
  }

  /**
   * A reader is failed on arrival exactly when it cannot be served and the last failure, which no publication
   * followed, is younger than the bound.
   */
  lemma FailedOnArrivalIsRecent(ttl: nat, events: seq<Event>, now: int)
    ensures Inv(Initial(ttl))
    ensures var l := After(Initial(ttl), events).loader;
            var publication := LastPublication(Initial(ttl), events, None);
            var failure := LastFailure(Initial(ttl), events, None);
            LoadingExists(l)
            && (Enter(l, now, false).1.RecentFailure? <==>
                  && !(publication.Some? && now - publication.value.1 < ttl)
                  && failure.Some? && now - failure.value < ttl)
  {
    ServedOnArrivalIsRecent(ttl, events, now);
    FailureIsLastFailure(Initial(ttl), events);
    SameTtl(Initial(ttl), events);
  }

  lemma {:induction false} SameTtl(m: Machine, events: seq<Event>)
    requires Inv(m)
    ensures After(m, events).loader.ttl == m.loader.ttl
    decreases events
  {
    hide Inv;
    if events != [] {
      InvHasLoading(m);
      NextKeepsInv(m, events[0]);
      SameTtl(Next(m, events[0]), events[1..]);
    }
  }

  // The loader in place

  class InFlightLoad {
    var waiters: int
    var settled: bool
    var aborted: bool

    constructor ()
      ensures View() == Flight(0, false, false)
    {
      waiters, settled, aborted := 0, false, false;
    }

    function View(): Flight
      reads this
    {
      Flight(waiters, settled, aborted)
    }
  }

  class SnapshotLoader {
    const ttl: nat
    var loading: InFlightLoad?
    var snapshot: Option<Snapshot>
    var loadedAt: int
    var failedAt: Option<int>
    ghost var begun: seq<InFlightLoad>

    ghost predicate Valid()
      reads this
    {
      && (forall i, j :: 0 <= i < j < |begun| ==> begun[i] != begun[j])
      && (loading != null ==> loading in begun)
    }

    ghost function Views(fs: seq<InFlightLoad>): (r: seq<Flight>)
      reads fs
      ensures |r| == |fs|
      ensures forall i :: 0 <= i < |fs| ==> r[i] == fs[i].View()
    {
      seq(|fs|, i requires 0 <= i < |fs| reads fs => fs[i].View())
    }

    ghost function IndexOf(f: InFlightLoad): (k: nat)
      requires f in begun
      reads this
      ensures k < |begun| && begun[k] == f
    {
      var k :| 0 <= k < |begun| && begun[k] == f;
      k
    }

    ghost function View(): Loader
      requires Valid()
      reads this, begun
    {
      Loader(ttl, Views(begun), if loading == null then None else Some(IndexOf(loading)), snapshot, loadedAt, failedAt)
    }

    constructor (ttl: nat)
      ensures Valid() && begun == [] && View() == Initial(ttl).loader
    {
      this.ttl := ttl;
      loading, snapshot, loadedAt, failedAt, begun := null, None, 0, None, [];
    }

    method BeginLoad() returns (state: InFlightLoad)
      requires Valid()
      modifies this
      ensures Valid() && fresh(state) && begun == old(begun) + [state] && loading == state
      ensures View() == Begin(old(View()))
    {
      state := new InFlightLoad();
      assert state !in old(begun);
      loading := state;
      begun := begun + [state];
      assert begun[|begun| - 1] == state;
    }

    /** The part of `load` before the reader starts to wait: an early result, or the load to wait for. */
    method Arrives(now: int, cancelled: bool) returns (early: Option<Result>, state: InFlightLoad?, ghost entry: Entry)
      requires Valid()
      modifies this, begun
      ensures Valid()
      ensures (View(), entry) == Enter(old(View()), now, cancelled)
      ensures early == EarlyResult(entry)
      ensures if entry.Waits? then state != null && entry.flight < |begun| && begun[entry.flight] == state
              else state == null
      ensures fresh(set f | f in begun && f !in old(begun))
    {
      hide Begin, Join;
      if cancelled {
        return Some(OwnCancellation), null, Refused;
      }
      if snapshot.Some? && now - loadedAt < ttl {
        return Some(Served), null, Entry.Fresh;
      }
      if failedAt.Some? && now - failedAt.value < ttl {
        return Some(EarlierFailure), null, RecentFailure;
      }
      var f: InFlightLoad;
      if loading == null {
        f := BeginLoad();
      } else {
        f := loading;
      }
      entry := Waits(IndexOf(f));
      AddWaiter(f);
      return None, f, entry;
    }

    method AddWaiter(f: InFlightLoad)
      requires Valid() && f in begun
      modifies f
      ensures Valid() && View() == Join(old(View()), IndexOf(f))
    {
      f.waiters := f.waiters + 1;
    }

    /** The part of `load` after the wait. */
    method Leaves(f: InFlightLoad)
      requires Valid() && f in begun
      modifies this`loading, f
      ensures Valid() && begun == old(begun)
      ensures View() == Leave(old(View()), IndexOf(f))
    {
      ghost var (k, before) := (IndexOf(f), Views(begun));
      f.waiters := f.waiters - 1;
      if f.waiters == 0 && !f.settled {
        if loading == f {
          loading := null;
        }
        f.aborted := true;
      }
      assert Views(begun) == before[k := f.View()];
    }

    /** The end of a successful projection. */
    method Commits(beads: seq<Record>, links: seq<Record>, now: int)
      requires Valid()
      modifies this`snapshot, this`loadedAt, this`failedAt
      ensures Valid() && View() == Commit(old(View()), Publish(beads, links), now)
    {
      snapshot := Some(Publish(beads, links));
      loadedAt := now;
      failedAt := None;
    }

    /** The handler of a projection failure. */
    method NotesFailure(now: int)
      requires Valid()
      modifies this`failedAt
      ensures Valid() && View() == Fail(old(View()), now)
    {
      failedAt := Some(now);
    }

    /** The last handler of a load. */
    method Settles(f: InFlightLoad)
      requires Valid() && f in begun
      modifies this`loading, f`settled
      ensures Valid() && View() == Settle(old(View()), IndexOf(f))
    {
      f.settled := true;
      if loading == f {
        loading := null;
      }
    }
  }

  function EarlyResult(entry: Entry): Option<Result> {
    match entry
    case Refused => Some(OwnCancellation)
    case Fresh => Some(Served)
    case RecentFailure => Some(EarlierFailure)
    case Waits(_) => None
  }
}
