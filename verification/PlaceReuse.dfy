/** When a closed place can be reused: followed over whole runs, from the action that closed the
    place to the arrival that takes it. */
module PlaceReuse {
  import opened Counting
  import opened Connection
  import opened Service
  import opened ServiceResults

  // ---- who has lost its node ----

  /** The places that a run has swept and not reused since. `swept` are those before the action. */
  function SweptAfter(limits: Timeouts, t: Table, a: Action, swept: set<nat>): set<nat>
    requires InRange(t)
  {
    match a
    case Arrival => if t.closed == [] then swept else swept - {t.closed[0]}
    case Handled(_) => swept
    case Sweep => swept + ToSet(Places(t.timeod[..DuePrefix(t, limits, 0)]))
    case Later(_) => swept
  }

  /** Exactly the swept places have an iterator that dangles. */
  predicate NodesLost(t: Table, swept: set<nat>)
    requires InRange(t)
  {
    forall p :: 0 <= p < |t.conns| ==> (HasNode(t.timeod, t.iters[p]) <==> p !in swept)
  }

  lemma MoveToBackSameNodes(timeod: seq<Node>, i: nat, id: nat)
    requires i < |timeod|
    ensures HasNode(MoveToBack(timeod, i), id) <==> HasNode(timeod, id)
  {
    if HasNode(timeod, id) {
      MoveToBackKeepsNodes(timeod, i, id);
    }
    if j :| 0 <= j < |timeod| && MoveToBack(timeod, i)[j].id == id {
      MoveToBackAt(timeod, i, j);
    }
  }

  lemma EventLosesNone(names: set<string>, t: Table, r: Report, swept: set<nat>)
    requires TableInv(t) && CanHandle(names, t, r) && NodesLost(t, swept)
    ensures InRange(HandleEvent(names, t, r)) && NodesLost(HandleEvent(names, t, r), swept)
  {
    EventKeepsInv(names, t, r);
    hide TableInv, Work, CanReport, IsDefined, HasNode, MoveToBack;
    InvInRange(HandleEvent(names, t, r));
    if t.conns[r.place].valid {
      forall p | 0 <= p < |t.conns|
        ensures HasNode(HandleEvent(names, t, r).timeod, t.iters[p]) <==> HasNode(t.timeod, t.iters[p])
      {
        MoveToBackSameNodes(t.timeod, IndexOf(t.timeod, t.iters[r.place]), t.iters[p]);
      }
    }
  }

  lemma SweepLosesDue(t: Table, limits: Timeouts, swept: set<nat>)
    requires TableInv(t) && NodesLost(t, swept)
    ensures var u := Dump(t, limits);
            InRange(u) && NodesLost(u, SweptAfter(limits, t, Sweep, swept))
  {
    DumpKeepsInv(t, limits);
    SweepClosesDuePrefix(t, limits);
    var n := DuePrefix(t, limits, 0);
    var gone := Places(t.timeod[..n]);
    var u := Dump(t, limits);
    InvInRange(u);
    forall p | 0 <= p < |t.conns|
      ensures HasNode(u.timeod, u.iters[p]) <==> HasNode(t.timeod, t.iters[p]) && p !in gone
    {
      SweepKeepsNode(t, limits, p);
    }
  }

  lemma SweepKeepsNode(t: Table, limits: Timeouts, p: nat)
    requires TableInv(t) && p < |t.conns|
    ensures var n := DuePrefix(t, limits, 0);
            HasNode(t.timeod[n..], t.iters[p])
            <==> HasNode(t.timeod, t.iters[p]) && p !in Places(t.timeod[..n])
  {
    hide ConnsInv, OrderInv, ClosedInv;
    var n := DuePrefix(t, limits, 0);
    var gone := Places(t.timeod[..n]);
    assert forall k :: 0 <= k < |t.timeod| - n ==> t.timeod[n..][k] == t.timeod[n + k];
    if k :| 0 <= k < |t.timeod| && t.timeod[k].id == t.iters[p] {
      assert t.timeod[k].place == p;
      if k < n {
        assert gone[k] == p;
      } else {
        NotGone(t, n, k);
        assert t.timeod[n..][k - n] == t.timeod[k];
      }
    }
    if i :| 0 <= i < n && gone[i] == p {
      assert t.timeod[i].place == p;
    }
  }

  lemma ArrivalGivesNode(t: Table, swept: set<nat>)
    requires TableInv(t) && CanRecycle(t) && NodesLost(t, swept)
    requires forall p :: p in swept ==> p < |t.conns|
    ensures InRange(Accept(t))
    ensures NodesLost(Accept(t), if t.closed == [] then swept else swept - {t.closed[0]})
  {
    AcceptKeepsInv(t);
    InvInRange(Accept(t));
    if t.closed == [] {
      NewPlaceGivesNode(t, swept);
    } else if t.timeod == [] {
      FirstNodeIsGiven(t, swept);
    } else {
      SplicedNodeStays(t, swept);
    }
  }

  lemma FirstNodeIsGiven(t: Table, swept: set<nat>)
    requires TableInv(t) && t.closed != [] && t.timeod == []
    requires InRange(Accept(t)) && NodesLost(t, swept)
    ensures NodesLost(Accept(t), swept - {t.closed[0]})
  {
    hide ConnsInv, OrderInv, ClosedInv;
    var u := Accept(t);
    assert u.timeod[0].id == u.iters[t.closed[0]];
    assert forall q :: 0 <= q < |t.conns| ==> !HasNode(t.timeod, t.iters[q]);
  }

  lemma SplicedNodeStays(t: Table, swept: set<nat>)
    requires InRange(t) && CanRecycle(t) && InRange(Accept(t)) && NodesLost(t, swept)
    requires t.closed != [] && t.timeod != []
    ensures NodesLost(Accept(t), swept - {t.closed[0]})
  {
    hide HasNode, MoveToBack;
    var n := IndexOf(t.timeod, t.iters[t.closed[0]]);
    forall p | 0 <= p < |t.conns|
      ensures HasNode(Accept(t).timeod, t.iters[p]) <==> HasNode(t.timeod, t.iters[p])
    {
      MoveToBackSameNodes(t.timeod, n, t.iters[p]);
    }
  }

  lemma NewPlaceGivesNode(t: Table, swept: set<nat>)
    requires InRange(t) && ListInv(t) && NodesLost(t, swept)
    requires forall p :: p in swept ==> p < |t.conns|
    ensures InRange(NewPlace(t)) && NodesLost(NewPlace(t), swept)
  {
    var u := NewPlace(t);
    forall p | 0 <= p < |u.conns|
      ensures HasNode(u.timeod, u.iters[p]) <==> p !in swept
    {
      assert u.timeod[|t.timeod|].id == t.nextId;
      if p < |t.conns| {
        if i :| 0 <= i < |t.timeod| && t.timeod[i].id == t.iters[p] {
          assert u.timeod[i] == t.timeod[i];
        }
        if i :| 0 <= i < |u.timeod| && u.timeod[i].id == u.iters[p] {
          assert i < |t.timeod| && u.timeod[i] == t.timeod[i];
        }
      }
    }
  }

  predicate AllPlaces(t: Table, swept: set<nat>) {
    forall p :: p in swept ==> p < |t.conns|
  }

  lemma SweptStayPlaces(t: Table, limits: Timeouts, swept: set<nat>)
    requires TableInv(t) && AllPlaces(t, swept)
    ensures AllPlaces(Dump(t, limits), SweptAfter(limits, t, Sweep, swept))
  {
    SweepClosesDuePrefix(t, limits);
    InvInRange(t);
    hide TableInv, Dump;
    var gone := Places(t.timeod[..DuePrefix(t, limits, 0)]);
    assert forall i :: 0 <= i < |gone| ==> gone[i] < |t.conns|;
  }

  /** Every action keeps the account: only a sweep takes nodes away, only an arrival gives them. */
  lemma OnlySweepsLoseNodes(names: set<string>, limits: Timeouts, t: Table, a: Action, swept: set<nat>)
    requires TableInv(t) && NodesLost(t, swept) && AllPlaces(t, swept) && CanDo(names, t, a)
    ensures var u := Do(names, limits, t, a);
            var after := SweptAfter(limits, t, a, swept);
            TableInv(u) && NodesLost(u, after) && AllPlaces(u, after)
  {
    DoKeepsInv(names, limits, t, a);
    hide HasNode, IndexOf, MoveToBack;
    match a
    case Arrival =>
      ArrivalGivesNode(t, swept);
    case Handled(r) =>
      hide TableInv, Work, CanReport, IsDefined;
      EventLosesNone(names, t, r, swept);
    case Sweep =>
      SweepLosesDue(t, limits, swept);
      SweptStayPlaces(t, limits, swept);
      hide TableInv, Dump, NodesLost, AllPlaces, SweptAfter;
    case Later(_) =>
  }

  // ---- runs ----

  /** The places swept and not reused in a run. */
  function SweptBy(names: set<string>, limits: Timeouts, t: Table, actions: seq<Action>, swept: set<nat>): set<nat>
    requires TableInv(t)
    decreases |actions|
  {
    if actions == [] || !CanDo(names, t, actions[0]) then swept
    else
      DoKeepsInv(names, limits, t, actions[0]);
      SweptBy(names, limits, Do(names, limits, t, actions[0]), actions[1..], SweptAfter(limits, t, actions[0], swept))
  }

  lemma {:induction false} RunsKeepAccount(names: set<string>, limits: Timeouts, t: Table, actions: seq<Action>,
                                          u: Table, swept: set<nat>)
    requires TableInv(t) && NodesLost(t, swept) && AllPlaces(t, swept)
    requires Reaches(names, limits, t, actions, u)
    ensures TableInv(u) && NodesLost(u, SweptBy(names, limits, t, actions, swept))
    decreases |actions|
  {
    hide NodesLost, AllPlaces, SweptAfter, Do, CanDo;
    if actions != [] {
      DoKeepsInv(names, limits, t, actions[0]);
      OnlySweepsLoseNodes(names, limits, t, actions[0], swept);
      hide TableInv;
      RunsKeepAccount(names, limits, Do(names, limits, t, actions[0]), actions[1..], u,
                      SweptAfter(limits, t, actions[0], swept));
    }
  }

  /** In every table that a run of defined actions reaches, the next arrival is undefined exactly
      when the first closed place was swept and something is listed. */
  lemma ReuseIsUndefinedExactly(names: set<string>, limits: Timeouts, actions: seq<Action>, u: Table)
    requires TableInv(Start()) && Reaches(names, limits, Start(), actions, u)
    ensures TableInv(u)
    ensures !CanRecycle(u)
            <==> u.closed != [] && u.timeod != [] && u.closed[0] in SweptBy(names, limits, Start(), actions, {})
  {
    RunsKeepAccount(names, limits, Start(), actions, u, {});
    assert InRange(u);
    hide TableInv, Reaches, SweptBy, HasNode;
  }
}
