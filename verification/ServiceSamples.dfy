/** Runs of the server that reach the states in which reuse is undefined and a sweep falls short. */
module ServiceSamples {
  import opened Message
  import opened Connection
  import ConnectionRuns
  import opened Service
  import opened ServiceResults

  lemma ReachesStep(names: set<string>, limits: Timeouts, t: Table, a: Action, rest: seq<Action>, u: Table)
    requires TableInv(t) && CanDo(names, t, a)
    requires TableInv(Do(names, limits, t, a)) && Reaches(names, limits, Do(names, limits, t, a), rest, u)
    ensures Reaches(names, limits, t, [a] + rest, u)
  {
    hide TableInv, CanDo, Do;
    assert ([a] + rest)[0] == a && ([a] + rest)[1..] == rest;
  }

  // ---- a node that is gone ----

  const ONE := Table([Accepted(0)], [0], [], [Node(0, 0)], 1, 0)
  const TWO := Table([Accepted(0), Accepted(15)], [0, 1], [], [Node(0, 0), Node(1, 1)], 2, 15)
  const SWEPT := Table([Close(Accepted(0)), Accepted(15)], [0, 1], [0], [Node(1, 1)], 2, 21)

  lemma SampleSteps(limits: Timeouts)
    requires limits.conn == 20
    ensures Accept(Start()) == ONE
    ensures Accept(ONE.(now := 15)) == TWO
    ensures InRange(TWO.(now := 21)) && Dump(TWO.(now := 21), limits) == SWEPT
  {
    var t := TWO.(now := 21);
    assert CloseFront(t) == SWEPT;
    assert Dump(t, limits) == Dump(SWEPT, limits) == SWEPT;
  }

  const LAST: seq<Action> := [Later(21)] + [Sweep]
  const ALL: seq<Action> := [Arrival] + ([Later(15)] + ([Arrival] + LAST))

  lemma LastActions(limits: Timeouts)
    requires limits.conn == 20 && TableInv(TWO)
    ensures Reaches({}, limits, TWO, LAST, SWEPT)
  {
    SampleSteps(limits);
    DoKeepsInv({}, limits, TWO, Later(21));
    var t := TWO.(now := 21);
    hide TableInv, Accept, Dump, ONE, TWO, SWEPT;
    DoKeepsInv({}, limits, t, Sweep);
    assert Reaches({}, limits, SWEPT, [], SWEPT);
    ReachesStep({}, limits, t, Sweep, [], SWEPT);
    assert [Sweep] + [] == [Sweep];
    ReachesStep({}, limits, TWO, Later(21), [Sweep], SWEPT);
  }

  lemma FirstActions(limits: Timeouts)
    requires limits.conn == 20 && TableInv(ONE)
    ensures Reaches({}, limits, ONE, [Later(15)] + ([Arrival] + LAST), SWEPT)
  {
    SampleSteps(limits);
    DoKeepsInv({}, limits, ONE, Later(15));
    var t := ONE.(now := 15);
    DoKeepsInv({}, limits, t, Arrival);
    LastActions(limits);
    hide TableInv, Accept, Dump, ONE, TWO, SWEPT, LAST;
    ReachesStep({}, limits, t, Arrival, LAST, SWEPT);
    ReachesStep({}, limits, ONE, Later(15), [Arrival] + LAST, SWEPT);
  }

  /** Such a state is reached: two connections, the first of which times out and is swept. The
      next arrival would splice a node that is gone. */
  lemma DanglingAfterSweep(limits: Timeouts)
    requires limits.conn == 20
    ensures TableInv(Start()) && Reaches({}, limits, Start(), ALL, SWEPT)
    ensures InRange(SWEPT) && !CanRecycle(SWEPT)
  {
    SampleSteps(limits);
    StartInv();
    assert InRange(SWEPT) && !CanRecycle(SWEPT);
    hide Accept, Dump, ONE, TWO, SWEPT, LAST, ConnInv;
    DoKeepsInv({}, limits, Start(), Arrival);
    assert TableInv(ONE);
    hide TableInv;
    FirstActions(limits);
    ReachesStep({}, limits, Start(), Arrival, [Later(15)] + ([Arrival] + LAST), SWEPT);
  }

  // ---- a connection that is not swept ----

  const NAMES := {"Connection"}

  /** The defaults of the program: 20 seconds, and 60 for a connection that is kept alive. */
  const DEFAULTS := Timeouts(20, 60)

  function KeptReport(): Report {
    Report(0, Ready(true, false), [Bytes(PrintRequest(ConnectionRuns.KEPT))], [], "ab")
  }

  /** The first connection after its kept-alive request. */
  function Kept(): Conn {
    Work(NAMES, Accepted(0), Ready(true, false), [Bytes(PrintRequest(ConnectionRuns.KEPT))], [], "ab", 0)
  }

  /** A kept-alive connection that is idle since 0 and a plain one since 1, at 30. */
  function Mixed(): Table {
    Table([Kept(), Accepted(1)], [0, 1], [], [Node(0, 0), Node(1, 1)], 2, 30)
  }

  lemma KeptIsKept()
    ensures Kept().valid && Kept().keepAlive && Kept().start == 0
    ensures IsDefined(NAMES, Accepted(0), Ready(true, false), [Bytes(PrintRequest(ConnectionRuns.KEPT))])
  {
    ConnectionRuns.KeptIsDefined(Accepted(0));
    ConnectionRuns.KeptIsServed(Accepted(0), "ab");
    WorkStart(NAMES, Accepted(0), Ready(true, false), [Bytes(PrintRequest(ConnectionRuns.KEPT))], [], "ab", 0);
  }

  lemma KeptSteps()
    ensures InRange(ONE) && CanHandle(NAMES, ONE, KeptReport())
    ensures var t := HandleEvent(NAMES, ONE, KeptReport()).(now := 1);
            && InRange(t) && t.closed == [] && Accept(t).(now := 30) == Mixed()
  {
    KeptIsKept();
    KeptHandled();
    hide Work, IsDefined, CanHandle, HandleEvent, KeptReport, Kept;
    var t := HandleEvent(NAMES, ONE, KeptReport()).(now := 1);
    assert InRange(t);
  }

  lemma KeptHandled()
    ensures InRange(ONE) && CanHandle(NAMES, ONE, KeptReport())
    ensures HandleEvent(NAMES, ONE, KeptReport()) == ONE.(conns := [Kept()])
  {
    KeptIsKept();
    assert ONE.timeod[0].id == 0;
    hide Work, IsDefined, CanReport;
    assert CanReport(ONE.conns[0], Ready(true, false)) by {
      AcceptedReads();
    }
    assert MoveToBack(ONE.timeod, 0) == ONE.timeod;
  }

  lemma AcceptedReads()
    ensures CanReport(Accepted(0), Ready(true, false))
  {
  }

  function LastOfMixed(): seq<Action> {
    [Later(1)] + ([Arrival] + ([Later(30)] + []))
  }

  /** The actions that lead there: an arrival, its kept-alive request, a second arrival. */
  function MixedActions(): seq<Action> {
    [Arrival] + ([Handled(KeptReport())] + LastOfMixed())
  }

  lemma LastOfMixedRun(limits: Timeouts, t: Table)
    requires TableInv(t) && t.now == 0 && t.closed == []
    requires Accept(t.(now := 1)).(now := 30) == Mixed()
    ensures Reaches(NAMES, limits, t, LastOfMixed(), Mixed())
  {
    var u := t.(now := 1);
    DoKeepsInv(NAMES, limits, t, Later(1));
    hide TableInv, Mixed;
    InvInRange(u);
    DoKeepsInv(NAMES, limits, u, Arrival);
    var v := Accept(u);
    AcceptKeepsClock(u);
    InvInRange(v);
    DoKeepsInv(NAMES, limits, v, Later(30));
    hide Accept;
    assert Reaches(NAMES, limits, Mixed(), [], Mixed());
    ReachesStep(NAMES, limits, v, Later(30), [], Mixed());
    ReachesStep(NAMES, limits, u, Arrival, [Later(30)] + [], Mixed());
    ReachesStep(NAMES, limits, t, Later(1), [Arrival] + ([Later(30)] + []), Mixed());
  }

  lemma MixedFromOne(limits: Timeouts)
    requires TableInv(ONE)
    ensures Reaches(NAMES, limits, ONE, [Handled(KeptReport())] + LastOfMixed(), Mixed())
  {
    KeptSteps();
    var t := HandleEvent(NAMES, ONE, KeptReport());
    EventKeepsInv(NAMES, ONE, KeptReport());
    KeptClock(t);
    hide TableInv, CanHandle, HandleEvent, Accept, Mixed, Work, ONE, KeptReport, LastOfMixed;
    LastOfMixedRun(limits, t);
    ReachesStep(NAMES, limits, ONE, Handled(KeptReport()), LastOfMixed(), Mixed());
  }

  lemma MixedIsReached(limits: Timeouts)
    ensures TableInv(Start()) && Reaches(NAMES, limits, Start(), MixedActions(), Mixed())
    ensures TableInv(Mixed())
  {
    StartInv();
    assert Accept(Start()) == ONE;
    hide Accept, ONE, Mixed, LastOfMixed, KeptReport;
    DoKeepsInv(NAMES, limits, Start(), Arrival);
    hide TableInv;
    MixedFromOne(limits);
    ReachesStep(NAMES, limits, Start(), Arrival, [Handled(KeptReport())] + LastOfMixed(), Mixed());
    RunsKeepInv(NAMES, limits, Start(), MixedActions(), Mixed());
  }

  lemma KeptClock(t: Table)
    requires InRange(ONE) && CanHandle(NAMES, ONE, KeptReport())
    requires t == HandleEvent(NAMES, ONE, KeptReport())
    ensures t.now == 0
  {
    hide Work, IsDefined, CanReport, HasNode, MoveToBack;
  }

  lemma AcceptKeepsClock(t: Table)
    requires InRange(t) && CanRecycle(t)
    ensures Accept(t).now == t.now
  {
    hide HasNode, MoveToBack;
  }

  /** With the defaults no closed place is needed: the plain connection has been due for nine
      seconds, and a sweep leaves it. */
  lemma KeepAliveHidesDue()
    ensures TableInv(Start()) && Reaches(NAMES, DEFAULTS, Start(), MixedActions(), Mixed())
    ensures InRange(Mixed()) && !IsBlocked(Mixed(), DEFAULTS)
    ensures AnyoneDue(Dump(Mixed(), DEFAULTS), DEFAULTS)
  {
    MixedIsReached(DEFAULTS);
    KeptIsKept();
    hide Kept, Reaches, TableInv, Work;
    InvInRange(Mixed());
    assert !IsDue(Mixed(), DEFAULTS, 0) && IsDue(Mixed(), DEFAULTS, 1);
    SweepIsFullScan(Mixed(), DEFAULTS);
  }
}
