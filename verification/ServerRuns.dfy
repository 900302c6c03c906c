/** Whole runs of the server, seen from one place: each connection lives its own life, whatever
    happens at the other places, and closed places queue up in the order of their closing. */
module ServerRuns {
  import opened Connection
  import opened ConnectionRuns
  import opened EventEffects
  import opened Service
  import opened ServiceResults

  // ---- lives ----

  /** The connection that a place holds: when it was accepted, the events it has had, and whether a
      sweep has closed it. */
  datatype Life = Life(born: nat, events: seq<Event>, swept: bool)

  /** What the connection has to be, by its own events alone. */
  function Lived(names: set<string>, l: Life): Conn {
    var c := ConnectionRuns.Run(names, Accepted(l.born), l.events);
    if l.swept then Closed(c) else c
  }

  /** The lives behind an action. An event of a closed connection is no event. */
  function LivesAfter(limits: Timeouts, t: Table, a: Action, lives: seq<Life>): seq<Life>
    requires InRange(t) && |lives| == |t.conns|
    requires a.Handled? ==> a.report.place < |lives|
  {
    match a
    case Arrival =>
      if t.closed == [] then lives + [Life(t.now, [], false)] else lives[t.closed[0] := Life(t.now, [], false)]
    case Handled(r) =>
      if t.conns[r.place].valid then
        var e := Event(r.ready, r.incoming, r.outgoing, r.response, t.now);
        lives[r.place := lives[r.place].(events := lives[r.place].events + [e])]
      else lives
    case Sweep =>
      var gone := Places(t.timeod[..DuePrefix(t, limits, 0)]);
      seq(|lives|, p requires 0 <= p < |lives| => if p in gone then lives[p].(swept := true) else lives[p])
    case Later(_) => lives
  }

  /** Every place holds what its life has made of it. */
  predicate Tells(names: set<string>, t: Table, lives: seq<Life>) {
    && |lives| == |t.conns|
    && forall p :: 0 <= p < |lives| ==>
         t.conns[p] == Lived(names, lives[p]) && IsPossible(names, Accepted(lives[p].born), lives[p].events)
  }

  lemma {:induction false} RunAppend(names: set<string>, c: Conn, events: seq<Event>, e: Event)
    ensures ConnectionRuns.Run(names, c, events + [e]) == Handle(names, ConnectionRuns.Run(names, c, events), e)
    ensures var d := ConnectionRuns.Run(names, c, events);
            IsPossible(names, c, events + [e])
            <==> IsPossible(names, c, events) && CanReport(d, e.ready) && IsDefined(names, d, e.ready, e.incoming)
    decreases |events|
  {
    hide Work, CanReport, IsDefined;
    var all := events + [e];
    if events == [] {
      assert all[1..] == [];
      var d := Handle(names, c, e);
      assert ConnectionRuns.Run(names, d, []) == d && IsPossible(names, d, []);
    } else {
      assert all[1..] == events[1..] + [e];
      RunAppend(names, Handle(names, c, events[0]), events[1..], e);
    }
  }

  lemma NewLife(names: set<string>, now: nat)
    ensures Lived(names, Life(now, [], false)) == Accepted(now) && IsPossible(names, Accepted(now), [])
  {
  }

  lemma SweptLife(names: set<string>, l: Life)
    requires Lived(names, l).valid
    ensures !l.swept && Lived(names, l.(swept := true)) == Close(Lived(names, l))
  {
    hide ConnectionRuns.Run;
  }

  lemma LongerLife(names: set<string>, l: Life, e: Event)
    requires Lived(names, l).valid && IsPossible(names, Accepted(l.born), l.events)
    requires CanReport(Lived(names, l), e.ready) && IsDefined(names, Lived(names, l), e.ready, e.incoming)
    ensures var m := l.(events := l.events + [e]);
            Lived(names, m) == Handle(names, Lived(names, l), e) && IsPossible(names, Accepted(m.born), m.events)
  {
    hide ConnectionRuns.Run, IsPossible, Work, CanReport, IsDefined;
    RunAppend(names, Accepted(l.born), l.events, e);
  }

  lemma ArrivalTells(names: set<string>, t: Table, lives: seq<Life>)
    requires TableInv(t) && CanRecycle(t) && Tells(names, t, lives)
    ensures InRange(t) && Tells(names, Accept(t), LivesAfter(Timeouts(0, 0), t, Arrival, lives))
  {
    hide TableInv, HasNode, Lived, IsPossible;
    InvInRange(t);
    NewLife(names, t.now);
  }

  lemma EventTells(names: set<string>, limits: Timeouts, t: Table, r: Report, lives: seq<Life>)
    requires TableInv(t) && CanDo(names, t, Handled(r)) && Tells(names, t, lives)
    ensures Tells(names, HandleEvent(names, t, r), LivesAfter(limits, t, Handled(r), lives))
  {
    hide TableInv, HasNode, Lived, IsPossible, Work, CanReport, IsDefined, MoveToBack;
    InvInRange(t);
    if t.conns[r.place].valid {
      LongerLife(names, lives[r.place], Event(r.ready, r.incoming, r.outgoing, r.response, t.now));
    }
  }

  lemma SweepTells(names: set<string>, limits: Timeouts, t: Table, lives: seq<Life>)
    requires TableInv(t) && Tells(names, t, lives)
    ensures InRange(t) && Tells(names, Dump(t, limits), LivesAfter(limits, t, Sweep, lives))
  {
    hide TableInv, Lived, IsPossible, Dump;
    InvInRange(t);
    SweepClosesDuePrefix(t, limits);
    var n := DuePrefix(t, limits, 0);
    var gone := Places(t.timeod[..n]);
    forall p | 0 <= p < |lives| && p in gone
      ensures Lived(names, lives[p].(swept := true)) == Close(t.conns[p])
      ensures IsPossible(names, Accepted(lives[p].born), lives[p].events)
    {
      var i :| 0 <= i < n && gone[i] == p;
      assert IsDue(t, limits, i);
      SweptLife(names, lives[p]);
    }
  }

  lemma DoTells(names: set<string>, limits: Timeouts, t: Table, a: Action, lives: seq<Life>)
    requires TableInv(t) && CanDo(names, t, a) && Tells(names, t, lives)
    ensures Tells(names, Do(names, limits, t, a), LivesAfter(limits, t, a, lives))
  {
    hide TableInv, HasNode, Lived, IsPossible, Accept, HandleEvent, Dump, CanRecycle, CanHandle;
    InvInRange(t);
    match a
    case Arrival => ArrivalTells(names, t, lives);
    case Handled(r) => EventTells(names, limits, t, r, lives);
    case Sweep => SweepTells(names, limits, t, lives);
    case Later(_) =>
  }

  function LivesOf(names: set<string>, limits: Timeouts, t: Table, actions: seq<Action>, lives: seq<Life>): seq<Life>
    requires TableInv(t) && |lives| == |t.conns|
    decreases |actions|
  {
    if actions == [] || !CanDo(names, t, actions[0]) then lives
    else
      DoKeepsInv(names, limits, t, actions[0]);
      var u := Do(names, limits, t, actions[0]);
      var next := LivesAfter(limits, t, actions[0], lives);
      if |next| != |u.conns| then lives else LivesOf(names, limits, u, actions[1..], next)
  }

  lemma {:induction false} RunTells(names: set<string>, limits: Timeouts, t: Table, actions: seq<Action>, u: Table,
                                   lives: seq<Life>)
    requires TableInv(t) && Tells(names, t, lives) && Reaches(names, limits, t, actions, u)
    ensures Tells(names, u, LivesOf(names, limits, t, actions, lives))
    decreases |actions|
  {
    hide TableInv, Lived, IsPossible, Do, LivesAfter, CanRecycle;
    InvInRange(t);
    if actions != [] {
      DoKeepsInv(names, limits, t, actions[0]);
      DoTells(names, limits, t, actions[0], lives);
      RunTells(names, limits, Do(names, limits, t, actions[0]), actions[1..], u,
               LivesAfter(limits, t, actions[0], lives));
    }
  }

  /** In every table that a run of defined actions reaches, every place holds exactly the connection
      that its own events make of a fresh one, closed if a sweep has struck it; and what went out
      at that place is its responses in order exactly if no request overtook a response. */
  lemma EveryPlaceLivesItsOwnLife(names: set<string>, limits: Timeouts, actions: seq<Action>, u: Table, p: nat)
    requires TableInv(Start()) && Reaches(names, limits, Start(), actions, u) && p < |u.conns|
    ensures var lives := LivesOf(names, limits, Start(), actions, []);
            && |lives| == |u.conns|
            && u.conns[p] == Lived(names, lives[p])
            && IsPossible(names, Accepted(lives[p].born), lives[p].events)
            && (u.conns[p].wire + u.conns[p].write == Concat(u.conns[p].responses)
                <==> !Overtakes(names, Accepted(lives[p].born), lives[p].events))
  {
    hide TableInv, Reaches, LivesOf, ConnectionRuns.Run, IsPossible, Overtakes, Concat;
    RunTells(names, limits, Start(), actions, u, []);
    var l := LivesOf(names, limits, Start(), actions, [])[p];
    WireIsResponses(names, l.born, l.events);
  }

  // ---- the queue of closed places ----

  /** The places that an action closes, in their order. */
  function ClosedNow(limits: Timeouts, t: Table, a: Action, u: Table): seq<nat>
    requires InRange(t) && InRange(u)
  {
    match a
    case Handled(r) =>
      if r.place < |t.conns| && r.place < |u.conns| && t.conns[r.place].valid && !u.conns[r.place].valid then [r.place]
      else []
    case Sweep => Places(t.timeod[..DuePrefix(t, limits, 0)])
    case _ => []
  }

  predicate HasClosed(t: Table) {
    exists p :: 0 <= p < |t.conns| && !t.conns[p].valid
  }

  function ReusedNow(t: Table, a: Action): nat {
    if a.Arrival? && HasClosed(t) then 1 else 0
  }

  lemma QueueStep(names: set<string>, limits: Timeouts, t: Table, a: Action)
    requires TableInv(t) && CanDo(names, t, a)
    ensures var u := Do(names, limits, t, a);
            && InRange(u)
            && ReusedNow(t, a) <= |t.closed|
            && u.closed == t.closed[ReusedNow(t, a)..] + ClosedNow(limits, t, a, u)
  {
    DoKeepsInv(names, limits, t, a);
    InvInRange(Do(names, limits, t, a));
    match a
    case Arrival => QueueHasClosed(t);
    case Handled(r) => hide TableInv, Work, CanReport, IsDefined, HasNode, MoveToBack;
    case Sweep => hide TableInv; SweepClosesDuePrefix(t, limits);
    case Later(_) =>
  }

  lemma QueueHasClosed(t: Table)
    requires TableInv(t)
    ensures HasClosed(t) <==> t.closed != []
  {
    hide OrderInv, ListInv, ConnsInv, OwnInv;
    if t.closed != [] {
      assert t.closed[0] in t.closed;
    }
  }

  /** All places that a run closes, in the order of their closing. */
  function ClosedBy(names: set<string>, limits: Timeouts, t: Table, actions: seq<Action>): seq<nat>
    requires TableInv(t)
    decreases |actions|
  {
    if actions == [] || !CanDo(names, t, actions[0]) then []
    else
      DoKeepsInv(names, limits, t, actions[0]);
      var u := Do(names, limits, t, actions[0]);
      QueueStep(names, limits, t, actions[0]);
      ClosedNow(limits, t, actions[0], u) + ClosedBy(names, limits, u, actions[1..])
  }

  /** How many arrivals of a run find a closed place. */
  function ReusedBy(names: set<string>, limits: Timeouts, t: Table, actions: seq<Action>): nat
    requires TableInv(t)
    decreases |actions|
  {
    if actions == [] || !CanDo(names, t, actions[0]) then 0
    else
      DoKeepsInv(names, limits, t, actions[0]);
      ReusedNow(t, actions[0]) + ReusedBy(names, limits, Do(names, limits, t, actions[0]), actions[1..])
  }

  lemma {:induction false} QueueRun(names: set<string>, limits: Timeouts, t: Table, actions: seq<Action>, u: Table)
    requires TableInv(t) && Reaches(names, limits, t, actions, u)
    ensures var all := t.closed + ClosedBy(names, limits, t, actions);
            var n := ReusedBy(names, limits, t, actions);
            n <= |all| && u.closed == all[n..]
    decreases |actions|
  {
    hide TableInv, Do, CanDo, ClosedNow, ReusedNow;
    InvInRange(t);
    if actions != [] {
      DoKeepsInv(names, limits, t, actions[0]);
      QueueStep(names, limits, t, actions[0]);
      QueueRun(names, limits, Do(names, limits, t, actions[0]), actions[1..], u);
    }
  }

  /** Places are reused in the order in which they were closed: the queue is what was closed, in
      that order, without as many as were reused. */
  lemma PlacesQueueInOrder(names: set<string>, limits: Timeouts, actions: seq<Action>, u: Table)
    requires TableInv(Start()) && Reaches(names, limits, Start(), actions, u)
    ensures var all := ClosedBy(names, limits, Start(), actions);
            var n := ReusedBy(names, limits, Start(), actions);
            n <= |all| && u.closed == all[n..]
  {
    hide TableInv, Reaches, ClosedBy, ReusedBy;
    QueueRun(names, limits, Start(), actions, u);
    var all := ClosedBy(names, limits, Start(), actions);
    assert [] + all == all;
  }
}
