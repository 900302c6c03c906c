/** The connection table of the HTTP server, as values: places, the queue of places with a
    closed connection, and the list of places in the order of their last activity. The steps are
    an accepted connection, a handled event, a sweep over timed-out connections, and time. */
module Service {
  import opened Message
  import opened Connection

  /** A list node. A place keeps the identity of its node as its iterator. */
  datatype Node = Node(id: nat, place: nat)

  datatype Table = Table(
    conns: seq<Conn>, iters: seq<nat>, closed: seq<nat>, timeod: seq<Node>, nextId: nat, now: nat)

  datatype Timeouts = Timeouts(conn: nat, keepAlive: nat)

  function Start(): Table {
    Table([], [], [], [], 0, 0)
  }

  /** Every place that is mentioned exists. */
  predicate InRange(t: Table) {
    && |t.iters| == |t.conns|
    && (forall i :: 0 <= i < |t.closed| ==> t.closed[i] < |t.conns|)
    && (forall i :: 0 <= i < |t.timeod| ==> t.timeod[i].place < |t.conns|)
  }

  // ---- the list of activity ----

  predicate HasNode(timeod: seq<Node>, id: nat) {
    exists i :: 0 <= i < |timeod| && timeod[i].id == id
  }

  function IndexOf(timeod: seq<Node>, id: nat): (i: nat)
    requires HasNode(timeod, id)
    ensures i < |timeod| && timeod[i].id == id
  {
    if timeod[0].id == id then 0 else 1 + IndexOf(timeod[1..], id)
  }

  /** `splice` of one node to the end of its own list. */
  function MoveToBack(timeod: seq<Node>, i: nat): seq<Node>
    requires i < |timeod|
  {
    timeod[..i] + timeod[i + 1..] + [timeod[i]]
  }

  // ---- accepting ----

  /** A closed place is reused by splicing its node to the end of the list. That needs the node
      to be in the list; only an empty list is handled apart. */
  predicate CanRecycle(t: Table)
    requires InRange(t)
  {
    t.closed == [] || t.timeod == [] || HasNode(t.timeod, t.iters[t.closed[0]])
  }

  /** A new place, with a new node at the end of the list. */
  function NewPlace(t: Table): Table {
    t.(conns := t.conns + [Accepted(t.now)],
       iters := t.iters + [t.nextId],
       timeod := t.timeod + [Node(t.nextId, |t.conns|)],
       nextId := t.nextId + 1)
  }

  function Accept(t: Table): Table
    requires InRange(t) && CanRecycle(t)
  {
    if t.closed == [] then NewPlace(t)
    else
      var p := t.closed[0];
      var u := t.(conns := t.conns[p := Accepted(t.now)], closed := t.closed[1..]);
      if t.timeod != [] then u.(timeod := MoveToBack(t.timeod, IndexOf(t.timeod, t.iters[p])))
      else u.(timeod := [Node(t.nextId, p)], iters := t.iters[p := t.nextId], nextId := t.nextId + 1)
  }

  // ---- events ----

  datatype Report =
    Report(place: nat, ready: Ready, incoming: seq<Incoming>, outgoing: seq<Outgoing>, response: string)

  predicate CanHandle(names: set<string>, t: Table, r: Report)
    requires InRange(t)
  {
    && r.place < |t.conns|
    && CanReport(t.conns[r.place], r.ready)
    && IsDefined(names, t.conns[r.place], r.ready, r.incoming)
    && (t.conns[r.place].valid ==> HasNode(t.timeod, t.iters[r.place]))
  }

  function HandleEvent(names: set<string>, t: Table, r: Report): Table
    requires InRange(t) && CanHandle(names, t, r)
  {
    var c := t.conns[r.place];
    if !c.valid then t
    else
      var d := Work(names, c, r.ready, r.incoming, r.outgoing, r.response, t.now);
      t.(conns := t.conns[r.place := d],
         timeod := MoveToBack(t.timeod, IndexOf(t.timeod, t.iters[r.place])),
         closed := if d.valid then t.closed else t.closed + [r.place])
  }

  // ---- timeouts ----

  function LimitOf(c: Conn, limits: Timeouts): nat {
    if c.keepAlive then limits.keepAlive else limits.conn
  }

  predicate IsTimedOut(c: Conn, limits: Timeouts, now: nat) {
    c.valid && now > c.start + LimitOf(c, limits)
  }

  predicate FrontIsTimedOut(t: Table, limits: Timeouts)
    requires InRange(t)
  {
    t.timeod != [] && IsTimedOut(t.conns[t.timeod[0].place], limits, t.now)
  }

  /** `close_if_timed_out` followed by `pop_front`. */
  function CloseFront(t: Table): Table
    requires InRange(t) && t.timeod != []
  {
    var p := t.timeod[0].place;
    t.(conns := t.conns[p := Close(t.conns[p])], closed := t.closed + [p], timeod := t.timeod[1..])
  }

  /** Closes and removes the front of the list as long as it is valid and timed out. */
  function Dump(t: Table, limits: Timeouts): Table
    requires InRange(t)
    decreases |t.timeod|
  {
    if FrontIsTimedOut(t, limits) then Dump(CloseFront(t), limits) else t
  }

  lemma DumpStep(t: Table, limits: Timeouts)
    requires InRange(t)
    ensures Dump(t, limits) == if FrontIsTimedOut(t, limits) then Dump(CloseFront(t), limits) else t
  {
  }

  lemma EmptyListIsDone(t: Table, limits: Timeouts)
    requires InRange(t) && t.timeod == []
    ensures Dump(t, limits) == t
  {
  }

  // ---- the invariant ----

  /** A place is queued as closed, once, exactly when its connection is closed. */
  predicate ClosedInv(t: Table)
  {
    && (forall i, j :: 0 <= i < j < |t.closed| ==> t.closed[i] != t.closed[j])
    && (forall p :: 0 <= p < |t.conns| ==> (p in t.closed <==> !t.conns[p].valid))
  }

  /** No place is listed twice, each listed place holds the iterator of its own node, and every
      valid place is listed. */
  predicate ListInv(t: Table)
    requires InRange(t)
  {
    && (forall i :: 0 <= i < |t.timeod| ==>
          t.timeod[i].id < t.nextId && t.iters[t.timeod[i].place] == t.timeod[i].id)
    && (forall i, j :: 0 <= i < j < |t.timeod| ==> t.timeod[i].place != t.timeod[j].place)
    && (forall i, j :: 0 <= i < j < |t.timeod| ==> t.timeod[i].id != t.timeod[j].id)
    && (forall p :: 0 <= p < |t.conns| ==> t.iters[p] < t.nextId)
    && (forall p :: 0 <= p < |t.conns| && t.conns[p].valid ==> HasNode(t.timeod, t.iters[p]))
  }

  /** A valid place's node is its own. */
  predicate OwnInv(t: Table)
    requires InRange(t)
  {
    forall p, i :: 0 <= p < |t.conns| && 0 <= i < |t.timeod| && t.timeod[i].id == t.iters[p]
                   ==> t.timeod[i].place == p
  }

  function StartOf(t: Table, i: nat): nat
    requires InRange(t) && i < |t.timeod|
  {
    t.conns[t.timeod[i].place].start
  }

  /** Start times never decrease along the list, nor do they lie in the future. */
  predicate OrderInv(t: Table)
    requires InRange(t)
  {
    && (forall i, j :: 0 <= i < j < |t.timeod| ==> StartOf(t, i) <= StartOf(t, j))
    && (forall p :: 0 <= p < |t.conns| ==> t.conns[p].start <= t.now)
  }

  predicate ConnsInv(t: Table) {
    forall p :: 0 <= p < |t.conns| ==> ConnInv(t.conns[p])
  }

  predicate TableInv(t: Table) {
    InRange(t) && ClosedInv(t) && ListInv(t) && OwnInv(t) && OrderInv(t) && ConnsInv(t)
  }

  // ---- moving a node to the back ----

  lemma MoveToBackAt(timeod: seq<Node>, i: nat, j: nat)
    requires i < |timeod| && j < |timeod|
    ensures |MoveToBack(timeod, i)| == |timeod|
    ensures MoveToBack(timeod, i)[j]
            == if j == |timeod| - 1 then timeod[i] else if j < i then timeod[j] else timeod[j + 1]
  {
  }

  lemma MoveToBackKeepsNodes(timeod: seq<Node>, i: nat, id: nat)
    requires i < |timeod| && HasNode(timeod, id)
    ensures HasNode(MoveToBack(timeod, i), id)
  {
    var j :| 0 <= j < |timeod| && timeod[j].id == id;
    var k := if j == i then |timeod| - 1 else if j < i then j else j - 1;
    MoveToBackAt(timeod, i, k);
  }

  /** The table after the i-th listed place was touched: its connection is `c`, its node is last. */
  function Touch(t: Table, i: nat, c: Conn): Table
    requires InRange(t) && i < |t.timeod|
  {
    t.(conns := t.conns[t.timeod[i].place := c], timeod := MoveToBack(t.timeod, i))
  }

  /** Where the j-th node of the new list was before. */
  function Origin(n: nat, i: nat, j: nat): nat {
    if j + 1 == n then i else if j < i then j else j + 1
  }

  lemma TouchNodes(t: Table, i: nat, c: Conn)
    requires InRange(t) && i < |t.timeod|
    ensures var u := Touch(t, i, c);
            && InRange(u) && |u.timeod| == |t.timeod|
            && forall j :: 0 <= j < |t.timeod| ==>
                 (Origin(|t.timeod|, i, j) < |t.timeod| && u.timeod[j] == t.timeod[Origin(|t.timeod|, i, j)])
  {
    forall j | 0 <= j < |t.timeod|
      ensures Touch(t, i, c).timeod[j] == t.timeod[Origin(|t.timeod|, i, j)]
    {
      MoveToBackAt(t.timeod, i, j);
    }
  }

  lemma TouchKeepsListInv(t: Table, i: nat, c: Conn)
    requires InRange(t) && i < |t.timeod| && ListInv(t)
    ensures InRange(Touch(t, i, c)) && ListInv(Touch(t, i, c))
  {
    TouchNodes(t, i, c);
    var u := Touch(t, i, c);
    hide MoveToBack;
    forall q | 0 <= q < |u.conns| && u.conns[q].valid
      ensures HasNode(u.timeod, u.iters[q])
    {
      assert q == t.timeod[i].place ==> t.timeod[i].id == t.iters[q];
      MoveToBackKeepsNodes(t.timeod, i, t.iters[q]);
    }
  }

  lemma TouchKeepsOwnInv(t: Table, i: nat, c: Conn)
    requires InRange(t) && i < |t.timeod| && OwnInv(t)
    ensures InRange(Touch(t, i, c)) && OwnInv(Touch(t, i, c))
  {
    TouchNodes(t, i, c);
    hide MoveToBack;
  }

  lemma TouchKeepsOrderInv(t: Table, i: nat, c: Conn)
    requires InRange(t) && i < |t.timeod| && ListInv(t) && OrderInv(t) && c.start == t.now
    ensures InRange(Touch(t, i, c)) && OrderInv(Touch(t, i, c))
  {
    TouchNodes(t, i, c);
    var u := Touch(t, i, c);
    hide MoveToBack;
    forall j, k | 0 <= j < k < |u.timeod|
      ensures StartOf(u, j) <= StartOf(u, k)
    {
      var a, b := Origin(|t.timeod|, i, j), Origin(|t.timeod|, i, k);
      assert a != i && StartOf(u, j) == StartOf(t, a);
      if b != i {
        assert a < b && StartOf(u, k) == StartOf(t, b);
      }
    }
  }

  // ---- the steps keep the invariant ----

  lemma WorkStart(names: set<string>, c: Conn, ready: Ready, incoming: seq<Incoming>, outgoing: seq<Outgoing>,
                  response: string, now: nat)
    requires c.valid
    ensures Work(names, c, ready, incoming, outgoing, response, now).start == now
  {
    hide ParseRequest, IsKeepAlive;
    WriteKeepsStart(c.(start := now, armed := {}), outgoing);
  }

  lemma {:induction false} WriteKeepsStart(c: Conn, script: seq<Outgoing>)
    ensures TryWriteResponce(c, script).0.start == c.start
    decreases |script|
  {
    if script != [] && script[0].Taken? {
      WriteKeepsStart(Send(c, script[0].count), script[1..]);
    }
  }

  lemma OwnNode(t: Table, p: nat)
    requires TableInv(t) && p < |t.conns| && HasNode(t.timeod, t.iters[p])
    ensures var i := IndexOf(t.timeod, t.iters[p]);
            t.timeod[i].place == p && t.timeod[i].id == t.iters[p]
  {
    hide ClosedInv, OrderInv, ConnsInv, HasNode;
  }

  lemma TouchKeepsInv(t: Table, i: nat, d: Conn)
    requires TableInv(t) && i < |t.timeod| && t.conns[t.timeod[i].place].valid
    requires d.start == t.now && ConnInv(d)
    ensures var p := t.timeod[i].place;
            TableInv(Touch(t, i, d).(closed := if d.valid then t.closed else t.closed + [p]))
  {
    var p := t.timeod[i].place;
    var u := Touch(t, i, d);
    var closed := if d.valid then t.closed else t.closed + [p];
    TouchKeepsListInv(t, i, d);
    TouchKeepsOwnInv(t, i, d);
    TouchKeepsOrderInv(t, i, d);
    ClosedAppend(t, p, d);
    TouchNodes(t, i, d);
    hide ListInv, OwnInv, OrderInv, MoveToBack, ConnInv;
    OtherInvs(u, u.(closed := closed));
  }

  lemma EventKeepsInv(names: set<string>, t: Table, r: Report)
    requires TableInv(t) && CanHandle(names, t, r)
    ensures TableInv(HandleEvent(names, t, r))
  {
    var c := t.conns[r.place];
    if c.valid {
      hide Work, CanReport, IsDefined, ConnInv;
      OwnNode(t, r.place);
      WorkStart(names, c, r.ready, r.incoming, r.outgoing, r.response, t.now);
      WorkKeepsInv(names, c, r.ready, r.incoming, r.outgoing, r.response, t.now);
      hide TableInv, MoveToBack;
      var d := Work(names, c, r.ready, r.incoming, r.outgoing, r.response, t.now);
      TouchKeepsInv(t, IndexOf(t.timeod, t.iters[r.place]), d);
    }
  }

  lemma OtherInvs(u: Table, v: Table)
    requires InRange(u) && InRange(v) && v == u.(closed := v.closed)
    requires ListInv(u) && OwnInv(u) && OrderInv(u)
    ensures ListInv(v) && OwnInv(v) && OrderInv(v)
  {
    assert forall i :: 0 <= i < |u.timeod| ==> StartOf(u, i) == StartOf(v, i);
  }

  lemma ClosedAppend(t: Table, p: nat, d: Conn)
    requires InRange(t) && ClosedInv(t) && p < |t.conns| && t.conns[p].valid
    ensures ClosedInv(t.(conns := t.conns[p := d], closed := if d.valid then t.closed else t.closed + [p]))
  {
    var u := t.(conns := t.conns[p := d], closed := if d.valid then t.closed else t.closed + [p]);
    assert p !in t.closed;
    forall q | 0 <= q < |u.conns|
      ensures q in u.closed <==> !u.conns[q].valid
    {
      assert q in t.closed + [p] <==> q in t.closed || q == p;
    }
  }

  lemma AcceptKeepsInv(t: Table)
    requires TableInv(t) && CanRecycle(t)
    ensures TableInv(Accept(t))
  {
    if t.closed == [] {
      AcceptFresh(t);
    } else if t.timeod == [] {
      AcceptIntoEmptyList(t);
    } else {
      OwnNode(t, t.closed[0]);
      hide TableInv, HasNode, MoveToBack;
      RecycleKeepsInv(t, IndexOf(t.timeod, t.iters[t.closed[0]]));
    }
  }

  lemma RecycleKeepsInv(t: Table, i: nat)
    requires TableInv(t) && t.closed != [] && i < |t.timeod| && t.timeod[i].place == t.closed[0]
    ensures TableInv(Touch(t, i, Accepted(t.now)).(closed := t.closed[1..]))
  {
    var c := Accepted(t.now);
    var u := Touch(t, i, c);
    AcceptedInv(t.now);
    hide ConnInv;
    TouchKeepsListInv(t, i, c);
    TouchKeepsOwnInv(t, i, c);
    TouchKeepsOrderInv(t, i, c);
    ClosedPop(t, c);
    TouchNodes(t, i, c);
    hide ListInv, OwnInv, OrderInv, MoveToBack;
    OtherInvs(u, u.(closed := t.closed[1..]));
  }

  lemma ClosedPop(t: Table, c: Conn)
    requires InRange(t) && ClosedInv(t) && t.closed != [] && c.valid
    ensures ClosedInv(t.(conns := t.conns[t.closed[0] := c], closed := t.closed[1..]))
  {
    var p := t.closed[0];
    assert p !in t.closed[1..];
    assert forall q :: q in t.closed <==> q == p || q in t.closed[1..];
  }

  lemma AcceptFresh(t: Table)
    requires TableInv(t) && t.closed == []
    ensures TableInv(NewPlace(t))
  {
    hide ConnInv;
    AcceptedInv(t.now);
    NewPlaceNodes(t);
    NewPlaceListed(t);
    NewPlaceOrder(t);
  }

  lemma NewPlaceNodes(t: Table)
    requires InRange(t) && ListInv(t) && OwnInv(t)
    ensures InRange(NewPlace(t)) && OwnInv(NewPlace(t))
    ensures var u := NewPlace(t);
            && (forall i :: 0 <= i < |u.timeod| ==>
                  u.timeod[i].id < u.nextId && u.iters[u.timeod[i].place] == u.timeod[i].id)
            && (forall i, j :: 0 <= i < j < |u.timeod| ==> u.timeod[i].place != u.timeod[j].place)
            && (forall i, j :: 0 <= i < j < |u.timeod| ==> u.timeod[i].id != u.timeod[j].id)
  {
    var u := NewPlace(t);
    var n := |t.timeod|;
    assert forall i :: 0 <= i < n ==> u.timeod[i] == t.timeod[i];
    assert u.timeod[n] == Node(t.nextId, |t.conns|);
    hide HasNode;
  }

  lemma NewPlaceListed(t: Table)
    requires InRange(t) && ListInv(t)
    ensures var u := NewPlace(t);
            && (forall p :: 0 <= p < |u.conns| ==> u.iters[p] < u.nextId)
            && (forall p :: 0 <= p < |u.conns| && u.conns[p].valid ==> HasNode(u.timeod, u.iters[p]))
  {
    var u := NewPlace(t);
    forall q | 0 <= q < |u.conns| && u.conns[q].valid
      ensures HasNode(u.timeod, u.iters[q])
    {
      if q < |t.conns| {
        var i :| 0 <= i < |t.timeod| && t.timeod[i].id == t.iters[q];
        assert u.timeod[i].id == u.iters[q];
      } else {
        assert u.timeod[|t.timeod|].id == u.iters[q];
      }
    }
  }

  lemma NewPlaceOrder(t: Table)
    requires InRange(t) && OrderInv(t)
    ensures InRange(NewPlace(t)) && OrderInv(NewPlace(t))
  {
    var u := NewPlace(t);
    assert forall i :: 0 <= i < |t.timeod| ==> u.timeod[i] == t.timeod[i] && StartOf(u, i) == StartOf(t, i);
  }

  lemma AcceptIntoEmptyList(t: Table)
    requires TableInv(t) && t.closed != [] && t.timeod == []
    ensures TableInv(Accept(t))
  {
    AcceptedInv(t.now);
    hide ConnInv;
    var p := t.closed[0];
    var u := Accept(t);
    ClosedPop(t, Accepted(t.now));
    assert ClosedInv(u);
    hide ClosedInv;
    NobodyListed(t);
    assert u.timeod[0].id == u.iters[p];
  }

  lemma NobodyListed(t: Table)
    requires InRange(t) && ListInv(t) && t.timeod == []
    ensures forall q :: 0 <= q < |t.conns| ==> !t.conns[q].valid
  {
    assert forall q :: 0 <= q < |t.conns| ==> !HasNode(t.timeod, t.iters[q]);
  }

  lemma CloseFrontKeepsInv(t: Table)
    requires TableInv(t) && t.timeod != [] && t.conns[t.timeod[0].place].valid
    ensures TableInv(CloseFront(t))
  {
    var p := t.timeod[0].place;
    var d := Close(t.conns[p]);
    CloseKeepsInv(t.conns[p]);
    ClosedAppend(t, p, d);
    PopKeepsList(t);
    hide ConnInv, ListInv, OwnInv, OrderInv;
    assert ConnsInv(CloseFront(t));
  }

  lemma PopKeepsList(t: Table)
    requires InRange(t) && ListInv(t) && OwnInv(t) && OrderInv(t)
    requires t.timeod != []
    ensures var u := CloseFront(t);
            InRange(u) && ListInv(u) && OwnInv(u) && OrderInv(u)
  {
    var u := CloseFront(t);
    assert forall i :: 0 <= i < |u.timeod| ==> u.timeod[i] == t.timeod[i + 1];
    assert OrderInv(u) by {
      hide ListInv, OwnInv;
      assert forall i :: 0 <= i < |u.timeod| ==> StartOf(u, i) == StartOf(t, i + 1);
    }
    assert OwnInv(u) by {
      hide ListInv, OrderInv;
    }
    PopKeepsListed(t);
    hide OwnInv, OrderInv, HasNode;
  }

  lemma PopKeepsListed(t: Table)
    requires InRange(t) && ListInv(t) && OwnInv(t) && t.timeod != []
    ensures var u := CloseFront(t);
            forall q :: 0 <= q < |u.conns| && u.conns[q].valid ==> HasNode(u.timeod, u.iters[q])
  {
    var u := CloseFront(t);
    forall q | 0 <= q < |u.conns| && u.conns[q].valid
      ensures HasNode(u.timeod, u.iters[q])
    {
      var i :| 0 <= i < |t.timeod| && t.timeod[i].id == t.iters[q];
      assert t.timeod[i].place == q;
      assert u.timeod[i - 1] == t.timeod[i];
    }
  }

  lemma CloseKeepsInv(c: Conn)
    requires ConnInv(c)
    ensures ConnInv(Close(c))
  {
    hide Concat;
  }

  lemma {:induction false} DumpKeepsInv(t: Table, limits: Timeouts)
    requires TableInv(t)
    ensures TableInv(Dump(t, limits))
    decreases |t.timeod|
  {
    hide TableInv;
    InvInRange(t);
    if FrontIsTimedOut(t, limits) {
      CloseFrontKeepsInv(t);
      DumpKeepsInv(CloseFront(t), limits);
    }
  }

  lemma InvInRange(t: Table)
    requires TableInv(t)
    ensures InRange(t)
  {
  }

  // ---- runs ----

  datatype Action = Arrival | Handled(report: Report) | Sweep | Later(now: nat)

  /** What keeps an action within the defined behaviour of the code. */
  predicate CanDo(names: set<string>, t: Table, a: Action)
    requires InRange(t)
  {
    match a
    case Arrival => CanRecycle(t)
    case Handled(r) => CanHandle(names, t, r)
    case Sweep => true
    case Later(now) => t.now <= now
  }

  function Do(names: set<string>, limits: Timeouts, t: Table, a: Action): Table
    requires InRange(t) && CanDo(names, t, a)
  {
    match a
    case Arrival => Accept(t)
    case Handled(r) => HandleEvent(names, t, r)
    case Sweep => Dump(t, limits)
    case Later(now) => t.(now := now)
  }

  lemma DoKeepsInv(names: set<string>, limits: Timeouts, t: Table, a: Action)
    requires TableInv(t) && CanDo(names, t, a)
    ensures TableInv(Do(names, limits, t, a))
  {
    match a
    case Arrival => AcceptKeepsInv(t);
    case Handled(r) => EventKeepsInv(names, t, r);
    case Sweep => DumpKeepsInv(t, limits);
    case Later(now) =>
      hide ConnInv;
      assert forall i :: 0 <= i < |t.timeod| ==> StartOf(t.(now := now), i) == StartOf(t, i);
  }

  /** Some run of defined actions leads from one table to the other. */
  ghost predicate Reaches(names: set<string>, limits: Timeouts, t: Table, actions: seq<Action>, u: Table)
    requires TableInv(t)
    decreases |actions|
  {
    if actions == [] then u == t
    else
      && CanDo(names, t, actions[0])
      && (DoKeepsInv(names, limits, t, actions[0]);
          Reaches(names, limits, Do(names, limits, t, actions[0]), actions[1..], u))
  }

  lemma StartInv()
    ensures TableInv(Start())
  {
  }

  /** Activity list, conservation of places and buffers: every state of every run is invariant. */
  lemma {:induction false} RunsKeepInv(names: set<string>, limits: Timeouts, t: Table, actions: seq<Action>, u: Table)
    requires TableInv(t) && Reaches(names, limits, t, actions, u)
    ensures TableInv(u)
    decreases |actions|
  {
    if actions != [] {
      DoKeepsInv(names, limits, t, actions[0]);
      RunsKeepInv(names, limits, Do(names, limits, t, actions[0]), actions[1..], u);
    }
  }
}
