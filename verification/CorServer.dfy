/** The coroutine server: any number of connections, each with the routine that serves it, over
    one pool of routines. What happens to a routine when its connection is done with it, closed,
    or timed out. */
module CorServer {
  import opened Text
  import opened Connection
  import opened CorWorker
  import Coroutine

  /** A place: its client, and the routine its connection points to. */
  datatype Place = Place(client: Client, routine: Option<nat>)

  /** `started` counts the routines that the worker has asked for. */
  datatype Server = Server(places: seq<Place>, pool: Coroutine.Pool, started: nat)

  function NoPlaces(): Server {
    Server([], Coroutine.NoRoutines(), 0)
  }

  /** A connection is accepted into a new place, or into one whose connection is closed; the
      routine of the connection that is replaced is forgotten. An event runs the worker. A timeout
      closes a connection, wherever its routine stands. */
  datatype Step =
    | NewPlace(now: nat)
    | Reuse(at: nat, now: nat)
    | Wakes(at: nat, incoming: seq<Incoming>, outgoing: seq<Outgoing>, response: string, now: nat)
    | TimesOut(at: nat)

  /** Events come for open connections: a closed descriptor leaves epoll. */
  predicate CanTake(s: Server, step: Step) {
    match step
    case NewPlace(_) => true
    case Reuse(at, _) => at < |s.places| && !s.places[at].client.conn.valid
    case Wakes(at, _, _, response, _) => at < |s.places| && s.places[at].client.conn.valid && response != ""
    case TimesOut(at) => at < |s.places|
  }

  function Opened(now: nat): Place {
    Place(Client(Accepted(now), Idle), None)
  }

  /** What the body of the routine did in an event: it waits at a yield, or it has returned. */
  function DoneBy(phase: Phase): Coroutine.Body {
    if phase == Idle || phase == Returned then Coroutine.Returns else Coroutine.Pauses
  }

  /** The event loop: a routine is created if the connection has none, and resumed once. A routine
      that ends with its connection kept alive is dropped by the body itself. */
  function Wake(names: set<string>, s: Server, at: nat, incoming: seq<Incoming>, outgoing: seq<Outgoing>,
                response: string, now: nat): Server
    requires at < |s.places| && Coroutine.InRange(s.pool)
    requires s.places[at].routine.Some? ==> s.places[at].routine.value < |s.pool.routines|
  {
    var place := s.places[at];
    var (pool, r) := if place.routine.None? then Coroutine.Create(s.pool) else (s.pool, place.routine.value);
    var client := Serve(names, place.client, incoming, outgoing, response, now);
    var resumed := Coroutine.Resume(pool, r, DoneBy(client.phase)).0;
    Server(s.places[at := Place(client, if client.phase == Idle then None else Some(r))], resumed,
           if place.routine.None? then s.started + 1 else s.started)
  }

  function TimeOut(s: Server, at: nat): Server
    requires at < |s.places|
  {
    var place := s.places[at];
    s.(places := s.places[at := place.(client := place.client.(conn := Close(place.client.conn)))])
  }

  // ---- what every step keeps ----

  predicate HoldsRoutine(s: Server, at: nat)
    requires at < |s.places|
  {
    s.places[at].client.conn.valid && s.places[at].routine.Some?
  }

  /** An open connection has a routine exactly when it is not idle. */
  predicate Matching(s: Server) {
    forall i :: 0 <= i < |s.places| && s.places[i].client.conn.valid ==>
      && ClientInv(s.places[i].client)
      && (s.places[i].routine.None? <==> s.places[i].client.phase == Idle)
  }

  /** The routine of an open connection stands inside its body. */
  predicate Standing(s: Server) {
    forall i :: 0 <= i < |s.places| && HoldsRoutine(s, i) ==>
      && s.places[i].routine.value < |s.pool.routines|
      && s.pool.routines[s.places[i].routine.value].stage == Coroutine.InBody
  }

  /** No two open connections share a routine. */
  predicate Apart(s: Server) {
    forall i, j :: 0 <= i < j < |s.places| && HoldsRoutine(s, i) && HoldsRoutine(s, j) ==>
      s.places[i].routine.value != s.places[j].routine.value
  }

  predicate Attached(s: Server) {
    Matching(s) && Standing(s) && Apart(s)
  }

  /** No routine was ever finished, so the pool is empty and every start has allocated one. */
  predicate NeverFinished(s: Server) {
    && s.pool.finished == []
    && (forall r :: 0 <= r < |s.pool.routines| ==> s.pool.routines[r].stage != Coroutine.Finished)
    && |s.pool.routines| == s.started
  }

  predicate ServerInv(s: Server) {
    Attached(s) && NeverFinished(s)
  }

  function Take(names: set<string>, s: Server, step: Step): Server
    requires ServerInv(s) && CanTake(s, step)
  {
    match step
    case NewPlace(now) => s.(places := s.places + [Opened(now)])
    case Reuse(at, now) => s.(places := s.places[at := Opened(now)])
    case Wakes(at, incoming, outgoing, response, now) => Wake(names, s, at, incoming, outgoing, response, now)
    case TimesOut(at) => TimeOut(s, at)
  }

  /** One run of a routine that stands inside its body. */
  lemma ResumeInBody(pool: Coroutine.Pool, r: nat, does: Coroutine.Body)
    requires r < |pool.routines| && pool.routines[r].stage == Coroutine.InBody
    ensures var q := Coroutine.Resume(pool, r, does).0;
            && q.finished == pool.finished && |q.routines| == |pool.routines|
            && (forall k :: 0 <= k < |q.routines| && k != r ==> q.routines[k] == pool.routines[k])
            && q.routines[r].stage == if does == Coroutine.Pauses then Coroutine.InBody else Coroutine.Ended
  {
  }

  function RoutineOf(s: Server, at: nat): nat
    requires at < |s.places|
  {
    if s.places[at].routine.None? then |s.pool.routines| else s.places[at].routine.value
  }

  /** The server after an event: one client and its routine have moved on, the others have not. */
  predicate IsWoken(s: Server, at: nat, u: Server)
    requires at < |s.places|
  {
    var r := RoutineOf(s, at);
    && |u.places| == |s.places| && (forall i :: 0 <= i < |s.places| && i != at ==> u.places[i] == s.places[i])
    && ClientInv(u.places[at].client)
    && u.places[at].routine == (if u.places[at].client.phase == Idle then None else Some(r))
    && u.pool.finished == []
    && u.started == s.started + (if s.places[at].routine.None? then 1 else 0)
    && |s.pool.routines| <= |u.pool.routines| == u.started
    && r < |u.pool.routines|
    && (forall k :: 0 <= k < |u.pool.routines| && k != r ==>
          k < |s.pool.routines| && u.pool.routines[k] == s.pool.routines[k])
    && u.pool.routines[r].stage
       == if DoneBy(u.places[at].client.phase) == Coroutine.Pauses then Coroutine.InBody else Coroutine.Ended
  }

  lemma WakeIs(names: set<string>, s: Server, at: nat, incoming: seq<Incoming>, outgoing: seq<Outgoing>,
               response: string, now: nat)
    requires ServerInv(s) && at < |s.places| && s.places[at].client.conn.valid && response != ""
    ensures IsWoken(s, at, Wake(names, s, at, incoming, outgoing, response, now))
  {
    hide ClientInv, Serve, Apart, Coroutine.Resume;
    var place := s.places[at];
    ServeKeepsInv(names, place.client, incoming, outgoing, response, now);
    assert place.routine.Some? ==> HoldsRoutine(s, at);
    var client := Serve(names, place.client, incoming, outgoing, response, now);
    var (pool, r) := if place.routine.None? then Coroutine.Create(s.pool) else (s.pool, place.routine.value);
    ResumeInBody(pool, r, DoneBy(client.phase));
    hide Matching, Standing;
  }

  lemma WokenNeverFinished(s: Server, at: nat, u: Server)
    requires at < |s.places| && NeverFinished(s) && IsWoken(s, at, u)
    ensures NeverFinished(u)
  {
    hide ClientInv;
  }

  /** The routine that was run is that of no other open connection. */
  lemma RunAlone(s: Server, at: nat, u: Server)
    requires at < |s.places| && Attached(s) && IsWoken(s, at, u) && s.places[at].client.conn.valid
    ensures forall i :: 0 <= i < |s.places| && i != at && HoldsRoutine(u, i) ==>
              HoldsRoutine(s, i) && s.places[i] == u.places[i] && u.places[i].routine.value != RoutineOf(s, at)
  {
    hide ClientInv;
    assert s.places[at].routine.Some? ==> HoldsRoutine(s, at);
    assert forall i :: 0 <= i < |s.places| && i != at && HoldsRoutine(u, i) ==> HoldsRoutine(s, i);
    hide Matching;
  }

  lemma WokenAttached(s: Server, at: nat, u: Server)
    requires at < |s.places| && Attached(s) && IsWoken(s, at, u) && s.places[at].client.conn.valid
    ensures Attached(u)
  {
    RunAlone(s, at, u);
    WokenMatches(s, at, u);
    WokenStands(s, at, u);
    hide Matching, Standing;
  }

  lemma WokenMatches(s: Server, at: nat, u: Server)
    requires at < |s.places| && Matching(s) && IsWoken(s, at, u)
    ensures Matching(u)
  {
    hide ClientInv;
    forall i | 0 <= i < |u.places| && u.places[i].client.conn.valid
      ensures ClientInv(u.places[i].client) && (u.places[i].routine.None? <==> u.places[i].client.phase == Idle)
    {
      if i != at {
        assert u.places[i] == s.places[i];
      }
    }
  }

  lemma WokenStands(s: Server, at: nat, u: Server)
    requires at < |s.places| && Standing(s) && IsWoken(s, at, u)
    requires forall i :: 0 <= i < |s.places| && i != at && HoldsRoutine(u, i) ==>
               HoldsRoutine(s, i) && s.places[i] == u.places[i] && u.places[i].routine.value != RoutineOf(s, at)
    ensures Standing(u)
  {
    OpenIsNotReturned(u.places[at].client);
    hide ClientInv;
    forall i | 0 <= i < |u.places| && HoldsRoutine(u, i)
      ensures u.places[i].routine.value < |u.pool.routines|
      ensures u.pool.routines[u.places[i].routine.value].stage == Coroutine.InBody
    {
      var r := u.places[i].routine.value;
      if i == at {
        assert DoneBy(u.places[at].client.phase) == Coroutine.Pauses;
        assert r == RoutineOf(s, at);
      } else {
        assert HoldsRoutine(s, i) && s.places[i] == u.places[i];
        assert r < |s.pool.routines| && s.pool.routines[r].stage == Coroutine.InBody;
        assert u.pool.routines[r] == s.pool.routines[r];
      }
    }
  }

  lemma WakeKeepsInv(names: set<string>, s: Server, at: nat, incoming: seq<Incoming>, outgoing: seq<Outgoing>,
                     response: string, now: nat)
    requires ServerInv(s) && at < |s.places| && s.places[at].client.conn.valid && response != ""
    ensures ServerInv(Wake(names, s, at, incoming, outgoing, response, now))
  {
    WakeIs(names, s, at, incoming, outgoing, response, now);
    hide IsWoken, Attached, NeverFinished;
    var u := Wake(names, s, at, incoming, outgoing, response, now);
    hide Wake;
    WokenAttached(s, at, u);
    WokenNeverFinished(s, at, u);
  }

  /** An event runs one routine, the one of its connection or a new one. Afterwards the routine
      stands inside its body if the connection is still being served, and behind it otherwise. */
  lemma EventRunsOneRoutine(names: set<string>, s: Server, at: nat, incoming: seq<Incoming>, outgoing: seq<Outgoing>,
                            response: string, now: nat)
    requires ServerInv(s) && at < |s.places| && s.places[at].client.conn.valid && response != ""
    ensures var u := Wake(names, s, at, incoming, outgoing, response, now);
            var r := if s.places[at].routine.None? then |s.pool.routines| else s.places[at].routine.value;
            && |u.places| == |s.places| && r < |u.pool.routines|
            && (forall k :: 0 <= k < |u.pool.routines| && k != r ==>
                  k < |s.pool.routines| && u.pool.routines[k] == s.pool.routines[k])
            && u.pool.routines[r].stage
               == (if u.places[at].client.conn.valid && u.places[at].client.phase != Idle then Coroutine.InBody
                   else Coroutine.Ended)
            && u.places[at].client == Serve(names, s.places[at].client, incoming, outgoing, response, now)
  {
    WakeIs(names, s, at, incoming, outgoing, response, now);
    hide ServerInv, Coroutine.Resume, Coroutine.Create, Serve;
    var u := Wake(names, s, at, incoming, outgoing, response, now);
    OpenIsNotReturned(u.places[at].client);
  }

  lemma OpenIsNotReturned(client: Client)
    requires ClientInv(client)
    ensures client.conn.valid <==> client.phase != Returned
  {
  }

  /** A step that runs no routine: the open connections with a routine are some of those before. */
  predicate OnlyDrops(s: Server, u: Server) {
    && u.pool == s.pool && u.started == s.started
    && (forall i :: 0 <= i < |u.places| && HoldsRoutine(u, i) ==>
          i < |s.places| && HoldsRoutine(s, i) && u.places[i] == s.places[i])
  }

  lemma DropsKeepInv(s: Server, u: Server)
    requires ServerInv(s) && OnlyDrops(s, u) && Matching(u)
    ensures ServerInv(u)
  {
    hide Matching;
  }

  lemma OpenedIs(s: Server, at: nat, now: nat, u: Server)
    requires Matching(s) && at <= |s.places|
    requires u == s.(places := s.places[..at] + [Opened(now)] + if at == |s.places| then [] else s.places[at + 1..])
    ensures OnlyDrops(s, u) && Matching(u)
  {
    AcceptedClient(now);
    hide ClientInv;
    assert forall i :: 0 <= i < |u.places| && i != at ==> i < |s.places| && u.places[i] == s.places[i];
    assert u.places[at] == Opened(now);
  }

  lemma TakeKeepsInv(names: set<string>, s: Server, step: Step)
    requires ServerInv(s) && CanTake(s, step)
    ensures ServerInv(Take(names, s, step))
  {
    hide Standing, Apart, NeverFinished, Wake;
    match step
    case NewPlace(now) =>
      var u := Take(names, s, step);
      assert u.places == s.places[..|s.places|] + [Opened(now)] + [];
      OpenedIs(s, |s.places|, now, u);
      DropsKeepInv(s, u);
    case Reuse(at, now) =>
      var u := Take(names, s, step);
      assert u.places == s.places[..at] + [Opened(now)] + s.places[at + 1..];
      OpenedIs(s, at, now, u);
      DropsKeepInv(s, u);
    case Wakes(at, incoming, outgoing, response, now) =>
      WakeKeepsInv(names, s, at, incoming, outgoing, response, now);
    case TimesOut(at) =>
      hide ClientInv;
      DropsKeepInv(s, TimeOut(s, at));
  }

  // ---- runs ----

  /** A run, as long as its steps are possible. */
  function Run(names: set<string>, s: Server, steps: seq<Step>): Server
    requires ServerInv(s)
    decreases |steps|
  {
    if steps == [] || !CanTake(s, steps[0]) then s
    else
      TakeKeepsInv(names, s, steps[0]);
      Run(names, Take(names, s, steps[0]), steps[1..])
  }

  lemma {:induction false} RunKeepsInv(names: set<string>, s: Server, steps: seq<Step>)
    requires ServerInv(s)
    ensures ServerInv(Run(names, s, steps))
    decreases |steps|
  {
    hide ServerInv, Take;
    if steps != [] && CanTake(s, steps[0]) {
      TakeKeepsInv(names, s, steps[0]);
      RunKeepsInv(names, Take(names, s, steps[0]), steps[1..]);
    }
  }

  // ---- what each connection goes through ----

  /** The visit of one client: when it was accepted, its events, and whether a timeout struck it. */
  datatype Visit = Visit(now: nat, events: seq<Wakeup>, timedOut: bool)

  /** What its own events make of a client that was just accepted. */
  function Visited(names: set<string>, v: Visit): Client {
    var client := ServeAll(names, Client(Accepted(v.now), Idle), v.events);
    if v.timedOut then client.(conn := client.conn.(valid := false, option := {ONESHOT}, armed := {})) else client
  }

  function VisitsAfter(s: Server, step: Step, visits: seq<Visit>): seq<Visit>
    requires |visits| == |s.places| && CanTake(s, step)
  {
    match step
    case NewPlace(now) => visits + [Visit(now, [], false)]
    case Reuse(at, now) => visits[at := Visit(now, [], false)]
    case Wakes(at, incoming, outgoing, response, now) =>
      var e := Wakeup(incoming, outgoing, response, now);
      visits[at := visits[at].(events := visits[at].events + [e])]
    case TimesOut(at) => if s.places[at].client.conn.valid then visits[at := visits[at].(timedOut := true)] else visits
  }

  /** Every place holds the client that its own events have made. */
  predicate AreVisits(names: set<string>, s: Server, visits: seq<Visit>) {
    && |visits| == |s.places|
    && forall i :: 0 <= i < |visits| ==> s.places[i].client == Visited(names, visits[i])
  }

  lemma {:induction false} ServeAllAppend(names: set<string>, client: Client, events: seq<Wakeup>, e: Wakeup)
    ensures ServeAll(names, client, events + [e])
            == Serve(names, ServeAll(names, client, events), e.incoming, e.outgoing, e.response, e.now)
    decreases |events|
  {
    hide Serve;
    var all := events + [e];
    if events == [] {
      assert all[1..] == [];
      var after := Serve(names, client, e.incoming, e.outgoing, e.response, e.now);
      assert ServeAll(names, after, []) == after;
    } else {
      assert all[1..] == events[1..] + [e];
      var f := events[0];
      ServeAllAppend(names, Serve(names, client, f.incoming, f.outgoing, f.response, f.now), events[1..], e);
    }
  }

  lemma TakeVisits(names: set<string>, s: Server, step: Step, visits: seq<Visit>)
    requires ServerInv(s) && CanTake(s, step) && AreVisits(names, s, visits)
    ensures AreVisits(names, Take(names, s, step), VisitsAfter(s, step, visits))
  {
    hide Serve, ServeAll, ServerInv, Coroutine.Resume, Coroutine.Create, DoneBy;
    match step
    case NewPlace(now) => assert ServeAll(names, Client(Accepted(now), Idle), []) == Client(Accepted(now), Idle) by {
      NoEvents(names, now);
    }
    case Reuse(at, now) => NoEvents(names, now);
    case Wakes(at, incoming, outgoing, response, now) =>
      var v := visits[at];
      ServeAllAppend(names, Client(Accepted(v.now), Idle), v.events, Wakeup(incoming, outgoing, response, now));
    case TimesOut(at) =>
  }

  lemma NoEvents(names: set<string>, now: nat)
    ensures ServeAll(names, Client(Accepted(now), Idle), []) == Client(Accepted(now), Idle)
  {
  }

  function VisitsOf(names: set<string>, s: Server, steps: seq<Step>, visits: seq<Visit>): seq<Visit>
    requires ServerInv(s) && AreVisits(names, s, visits)
    decreases |steps|
  {
    if steps == [] || !CanTake(s, steps[0]) then visits
    else
      TakeKeepsInv(names, s, steps[0]);
      TakeVisits(names, s, steps[0], visits);
      VisitsOf(names, Take(names, s, steps[0]), steps[1..], VisitsAfter(s, steps[0], visits))
  }

  lemma {:induction false} RunVisits(names: set<string>, s: Server, steps: seq<Step>, visits: seq<Visit>)
    requires ServerInv(s) && AreVisits(names, s, visits)
    ensures AreVisits(names, Run(names, s, steps), VisitsOf(names, s, steps, visits))
    decreases |steps|
  {
    assert |visits| == |s.places|;
    hide ServerInv, Take, AreVisits, VisitsAfter;
    if steps != [] && CanTake(s, steps[0]) {
      TakeKeepsInv(names, s, steps[0]);
      TakeVisits(names, s, steps[0], visits);
      RunVisits(names, Take(names, s, steps[0]), steps[1..], VisitsAfter(s, steps[0], visits));
    }
  }

  /** In every run each place holds exactly the client that its own events, and at most one timeout,
      have made of a fresh one, whatever is served at the other places. */
  lemma EveryClientIsServedAlone(names: set<string>, steps: seq<Step>, at: nat)
    requires ServerInv(NoPlaces()) && at < |Run(names, NoPlaces(), steps).places|
    ensures var visits := VisitsOf(names, NoPlaces(), steps, []);
            && |visits| == |Run(names, NoPlaces(), steps).places|
            && Run(names, NoPlaces(), steps).places[at].client == Visited(names, visits[at])
  {
    hide Run, VisitsOf, ServerInv;
    RunVisits(names, NoPlaces(), steps, []);
  }

  /** In every run, with any number of connections served in any order, kept alive, closed, reused
      or timed out, no routine is ever finished: the pool stays empty, and there are as many
      routines as the worker has started. */
  lemma EveryRoutineLeaks(names: set<string>, steps: seq<Step>)
    ensures ServerInv(NoPlaces())
    ensures var s := Run(names, NoPlaces(), steps);
            && s.pool.finished == []
            && (forall r :: 0 <= r < |s.pool.routines| ==> s.pool.routines[r].stage != Coroutine.Finished)
            && |s.pool.routines| == s.started
  {
    hide Run;
    assert ServerInv(NoPlaces());
    RunKeepsInv(names, NoPlaces(), steps);
  }

  /** Two visits to one place, each ended by its peer: two routines, and none in the pool. */
  lemma TwoVisitsTwoRoutines(names: set<string>)
    ensures ServerInv(NoPlaces())
    ensures var s := Run(names, NoPlaces(), [NewPlace(0), Wakes(0, [Eof], [], "a", 0), Reuse(0, 1),
                                             Wakes(0, [Eof], [], "a", 1)]);
            |s.places| == 1 && |s.pool.routines| == 2 && s.pool.finished == []
  {
    hide Serve, Coroutine.Resume, Coroutine.Create, ClientInv;
    var s0 := NoPlaces();
    assert ServerInv(s0);
    hide Matching, Standing, Apart, Wake;
    TakeKeepsInv(names, s0, NewPlace(0));
    var s1 := Take(names, s0, NewPlace(0));
    assert s1.places == [Opened(0)];
    var s2 := VisitOfOne(names, s1, 0);
    TakeKeepsInv(names, s2, Reuse(0, 1));
    var s3 := Take(names, s2, Reuse(0, 1));
    assert s3.places == [Opened(1)];
    var s4 := VisitOfOne(names, s3, 1);
    hide Take, CanTake, ServerInv;
    var a, b, c, d := NewPlace(0), Wakes(0, [Eof], [], "a", 0), Reuse(0, 1), Wakes(0, [Eof], [], "a", 1);
    assert [a, b, c, d][1..] == [b, c, d] && [b, c, d][1..] == [c, d] && [c, d][1..] == [d] && [d][1..] == [];
    assert Run(names, s4, []) == s4;
    assert Run(names, s3, [d]) == s4 && Run(names, s2, [c, d]) == s4 && Run(names, s1, [b, c, d]) == s4;
  }

  /** The peer of the only connection leaves at once. */
  lemma VisitOfOne(names: set<string>, s: Server, now: nat) returns (u: Server)
    requires ServerInv(s) && s.places == [Opened(now)]
    ensures CanTake(s, Wakes(0, [Eof], [], "a", now)) && u == Take(names, s, Wakes(0, [Eof], [], "a", now))
    ensures ServerInv(u) && |u.places| == 1 && !u.places[0].client.conn.valid
    ensures |u.pool.routines| == |s.pool.routines| + 1 && u.pool.finished == []
  {
    PeerLeaves(names, now);
    hide Serve, Coroutine.Resume, Coroutine.Create, ClientInv, Attached;
    u := Take(names, s, Wakes(0, [Eof], [], "a", now));
    TakeKeepsInv(names, s, Wakes(0, [Eof], [], "a", now));
  }

  lemma PeerLeaves(names: set<string>, now: nat)
    ensures !Serve(names, Client(Accepted(now), Idle), [Eof], [], "a", now).conn.valid
  {
  }

  /** A timeout leaves the routine where it stands: it frees nothing. */
  lemma TimeoutFreesNothing(names: set<string>, s: Server, at: nat)
    requires ServerInv(s) && at < |s.places| && HoldsRoutine(s, at)
    ensures var u := Take(names, s, TimesOut(at));
            && !u.places[at].client.conn.valid
            && u.pool == s.pool
            && u.pool.routines[s.places[at].routine.value].stage == Coroutine.InBody
  {
    hide ClientInv;
  }
}
