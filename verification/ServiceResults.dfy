/** What the invariant of the connection table means for its users: the connection count, what a
    sweep closes, and when a closed place can be reused. */
module ServiceResults {
  import opened Counting
  import opened Connection
  import opened Service

  // ---- conservation of places ----

  function ValidPlaces(conns: seq<Conn>): nat {
    if conns == [] then 0
    else ValidPlaces(conns[..|conns| - 1]) + if conns[|conns| - 1].valid then 1 else 0
  }

  lemma {:induction false} ValidPlusClosed(conns: seq<Conn>, closed: set<nat>)
    requires forall p: nat :: p in closed <==> p < |conns| && !conns[p].valid
    ensures ValidPlaces(conns) + |closed| == |conns|
  {
    if conns == [] {
      assert closed == {};
    } else {
      var n := |conns| - 1;
      ValidPlusClosed(conns[..n], closed - {n});
      if conns[n].valid {
        assert closed - {n} == closed;
      }
    }
  }

  /** `connections_size()`, the difference of two container sizes, is the number of connections
      with an open socket, whoever closed the others. */
  lemma ConnectionsSize(t: Table)
    requires TableInv(t)
    ensures |t.conns| - |t.closed| == ValidPlaces(t.conns)
  {
    hide ListInv, OwnInv, OrderInv, ConnsInv;
    DistinctCount(t.closed);
    ValidPlusClosed(t.conns, ToSet(t.closed));
  }

  lemma {:induction false} ValidPlacesUpdate(conns: seq<Conn>, p: nat, c: Conn)
    requires p < |conns|
    ensures ValidPlaces(conns[p := c]) + (if conns[p].valid then 1 else 0)
            == ValidPlaces(conns) + (if c.valid then 1 else 0)
  {
    var n := |conns| - 1;
    if p < n {
      ValidPlacesUpdate(conns[..n], p, c);
      assert conns[p := c][..n] == conns[..n][p := c];
    } else {
      assert conns[p := c][..n] == conns[..n];
    }
  }

  /** An arrival opens one connection, at the end of the list and armed for reading, and leaves
      all others alone. A place is added only when none is closed. */
  lemma ArrivalOpensOne(t: Table)
    requires TableInv(t) && CanRecycle(t)
    ensures var u := Accept(t);
            && InRange(u) && u.timeod != []
            && ValidPlaces(u.conns) == ValidPlaces(t.conns) + 1
            && |u.conns| == |t.conns| + (if t.closed == [] then 1 else 0)
            && var p := u.timeod[|u.timeod| - 1].place;
               && u.conns[p] == Accepted(t.now)
               && (p < |t.conns| ==> !t.conns[p].valid)
               && forall q :: 0 <= q < |t.conns| && q != p ==> u.conns[q] == t.conns[q]
  {
    hide TableInv, HasNode, ConnInv;
    InvInRange(t);
    AcceptKeepsInv(t);
    InvInRange(Accept(t));
    if t.closed == [] {
      assert NewPlace(t).conns[..|t.conns|] == t.conns;
    } else {
      var p := t.closed[0];
      FirstClosed(t);
      ValidPlacesUpdate(t.conns, p, Accepted(t.now));
      if t.timeod != [] {
        OwnNode(t, p);
      }
    }
  }

  lemma FirstClosed(t: Table)
    requires TableInv(t) && t.closed != []
    ensures t.closed[0] < |t.conns| && !t.conns[t.closed[0]].valid
  {
    assert t.closed[0] in t.closed;
  }

  // ---- what a sweep closes ----

  predicate IsDue(t: Table, limits: Timeouts, i: nat)
    requires InRange(t) && i < |t.timeod|
  {
    IsTimedOut(t.conns[t.timeod[i].place], limits, t.now)
  }

  /** Length of the longest prefix of the list whose places are all due. */
  function DuePrefix(t: Table, limits: Timeouts, from: nat): (n: nat)
    requires InRange(t) && from <= |t.timeod|
    ensures from <= n <= |t.timeod|
    ensures forall i :: from <= i < n ==> IsDue(t, limits, i)
    ensures n < |t.timeod| ==> !IsDue(t, limits, n)
    decreases |t.timeod| - from
  {
    if from < |t.timeod| && IsDue(t, limits, from) then DuePrefix(t, limits, from + 1) else from
  }

  function Places(timeod: seq<Node>): (r: seq<nat>)
    ensures |r| == |timeod| && forall i :: 0 <= i < |r| ==> r[i] == timeod[i].place
  {
    seq(|timeod|, i requires 0 <= i < |timeod| => timeod[i].place)
  }

  lemma DuePrefixIs(t: Table, limits: Timeouts, from: nat, n: nat)
    requires InRange(t) && from <= n <= |t.timeod|
    requires forall i :: from <= i < n ==> IsDue(t, limits, i)
    requires n < |t.timeod| ==> !IsDue(t, limits, n)
    ensures DuePrefix(t, limits, from) == n
  {
  }

  /** Closing the front changes nothing for the places behind it. */
  lemma CloseFrontDue(t: Table, limits: Timeouts, i: nat)
    requires TableInv(t) && i + 1 < |t.timeod|
    ensures InRange(CloseFront(t)) && IsDue(CloseFront(t), limits, i) == IsDue(t, limits, i + 1)
  {
    hide ConnInv;
    assert t.timeod[0].place != t.timeod[i + 1].place;
  }

  predicate ClosedAfter(t: Table, gone: seq<nat>, conns: seq<Conn>) {
    && |conns| == |t.conns|
    && forall p :: 0 <= p < |t.conns| ==> conns[p] == if p in gone then Close(t.conns[p]) else t.conns[p]
  }

  /** A sweep ends with the longest due prefix of the list closed, queued in list order and
      removed, and everything else untouched. */
  lemma {:induction false} SweepClosesDuePrefix(t: Table, limits: Timeouts)
    requires TableInv(t)
    ensures var n := DuePrefix(t, limits, 0);
            var gone := Places(t.timeod[..n]);
            var u := Dump(t, limits);
            && u.timeod == t.timeod[n..]
            && u.closed == t.closed + gone
            && u.iters == t.iters && u.now == t.now
            && ClosedAfter(t, gone, u.conns)
    decreases |t.timeod|
  {
    hide TableInv, ClosedAfter;
    InvInRange(t);
    var n := DuePrefix(t, limits, 0);
    if FrontIsTimedOut(t, limits) {
      var v := CloseFront(t);
      CloseFrontKeepsInv(t);
      assert n > 0;
      NextDuePrefix(t, limits);
      SweepClosesDuePrefix(v, limits);
      PrefixSplits(t, n);
      ClosedOneMore(t, Places(v.timeod[..n - 1]), Dump(t, limits).conns);
    } else {
      assert n == 0;
      assert Places(t.timeod[..0]) == [];
      ClosedNone(t);
    }
  }

  lemma ClosedNone(t: Table)
    ensures ClosedAfter(t, [], t.conns)
  {
  }

  lemma NextDuePrefix(t: Table, limits: Timeouts)
    requires TableInv(t) && FrontIsTimedOut(t, limits)
    ensures InRange(CloseFront(t)) && DuePrefix(t, limits, 0) == DuePrefix(CloseFront(t), limits, 0) + 1
  {
    hide TableInv;
    InvInRange(t);
    var v := CloseFront(t);
    var n := DuePrefix(t, limits, 0);
    CloseFrontKeepsInv(t);
    InvInRange(v);
    forall i | 0 <= i < |v.timeod|
      ensures IsDue(v, limits, i) == IsDue(t, limits, i + 1)
    {
      CloseFrontDue(t, limits, i);
    }
    assert n > 0 && forall i :: 0 <= i < n - 1 ==> IsDue(v, limits, i);
    DuePrefixIs(v, limits, 0, n - 1);
  }

  lemma PrefixSplits(t: Table, n: nat)
    requires 0 < n <= |t.timeod|
    ensures Places(t.timeod[..n]) == [t.timeod[0].place] + Places(t.timeod[1..][..n - 1])
    ensures t.timeod[n..] == t.timeod[1..][n - 1..]
  {
  }

  lemma ClosedOneMore(t: Table, rest: seq<nat>, conns: seq<Conn>)
    requires InRange(t) && t.timeod != [] && ClosedAfter(CloseFront(t), rest, conns)
    ensures ClosedAfter(t, [t.timeod[0].place] + rest, conns)
  {
    hide ConnInv;
  }

  /** Open, and idle for longer than its limit. */
  predicate IsOverdue(c: Conn, limits: Timeouts, now: nat) {
    c.valid && now - c.start > if c.keepAlive then limits.keepAlive else limits.conn
  }

  /** The place is listed, and it and all places in front of it are overdue. */
  predicate IsOverdueInList(t: Table, limits: Timeouts, p: nat)
    requires InRange(t)
  {
    exists i :: 0 <= i < |t.timeod| && t.timeod[i].place == p
                && forall j :: 0 <= j <= i ==> IsOverdue(t.conns[t.timeod[j].place], limits, t.now)
  }

  lemma GoneIsOverdue(t: Table, limits: Timeouts, p: nat)
    requires InRange(t)
    ensures p in Places(t.timeod[..DuePrefix(t, limits, 0)]) <==> IsOverdueInList(t, limits, p)
  {
    var n := DuePrefix(t, limits, 0);
    var gone := Places(t.timeod[..n]);
    assert forall j :: 0 <= j < |t.timeod| ==>
      (IsDue(t, limits, j) <==> IsOverdue(t.conns[t.timeod[j].place], limits, t.now));
    hide IsDue, IsOverdue, DuePrefix;
    if p in gone {
      var i :| 0 <= i < n && gone[i] == p;
      assert t.timeod[i].place == p;
    }
    if i :| 0 <= i < |t.timeod| && t.timeod[i].place == p
            && forall j :: 0 <= j <= i ==> IsOverdue(t.conns[t.timeod[j].place], limits, t.now) {
      assert forall j :: 0 <= j <= i ==> IsDue(t, limits, j);
      assert i < n && gone[i] == p;
    }
  }

  /** Which connections a sweep closes: those that are overdue, as are all that stand before them
      in the list. */
  lemma SweepClosesExactly(t: Table, limits: Timeouts, p: nat)
    requires TableInv(t) && p < |t.conns| && t.conns[p].valid
    ensures InRange(t) && |Dump(t, limits).conns| == |t.conns|
    ensures !Dump(t, limits).conns[p].valid <==> IsOverdueInList(t, limits, p)
  {
    hide TableInv, Dump, DuePrefix, IsOverdueInList;
    InvInRange(t);
    GoneIsOverdue(t, limits, p);
    SweepClosesDuePrefix(t, limits);
  }

  /** Some place that is due stands behind a place that has been closed already. */
  predicate IsBlocked(t: Table, limits: Timeouts)
    requires InRange(t)
  {
    exists i, j :: 0 <= i < j < |t.timeod| && !t.conns[t.timeod[i].place].valid && IsDue(t, limits, j)
  }

  predicate AnyoneDue(t: Table, limits: Timeouts) {
    exists p :: 0 <= p < |t.conns| && IsTimedOut(t.conns[p], limits, t.now)
  }

  /** Some place that is due stands behind a place that is not. */
  predicate IsHidden(t: Table, limits: Timeouts)
    requires InRange(t)
  {
    exists i, j :: 0 <= i < j < |t.timeod| && !IsDue(t, limits, i) && IsDue(t, limits, j)
  }

  /** For all limits, a sweep leaves a due connection behind exactly when one stands behind a place
      that is not due: one that is closed already, or one whose own limit is longer. */
  lemma SweepIsFullScan(t: Table, limits: Timeouts)
    requires TableInv(t)
    ensures AnyoneDue(Dump(t, limits), limits) <==> IsHidden(t, limits)
  {
    hide TableInv, Dump;
    InvInRange(t);
    if AnyoneDue(Dump(t, limits), limits) {
      LeftoverIsHidden(t, limits);
    }
    if i, j :| 0 <= i < j < |t.timeod| && !IsDue(t, limits, i) && IsDue(t, limits, j) {
      HiddenIsLeft(t, limits, i, j);
    }
  }

  /** With one limit for all connections only closed places can hide a due one. */
  lemma OneLimitScan(t: Table, limits: Timeouts)
    requires TableInv(t) && limits.conn == limits.keepAlive
    ensures AnyoneDue(Dump(t, limits), limits) <==> IsBlocked(t, limits)
  {
    hide TableInv, Dump;
    InvInRange(t);
    SweepIsFullScan(t, limits);
    if i, j :| 0 <= i < j < |t.timeod| && !IsDue(t, limits, i) && IsDue(t, limits, j) {
      StartsAreOrdered(t, i, j);
      assert !t.conns[t.timeod[i].place].valid;
    }
    if i, j :| 0 <= i < j < |t.timeod| && !t.conns[t.timeod[i].place].valid && IsDue(t, limits, j) {
      assert !IsDue(t, limits, i);
    }
  }

  lemma LeftoverIsHidden(t: Table, limits: Timeouts)
    requires TableInv(t) && AnyoneDue(Dump(t, limits), limits)
    ensures InRange(t) && IsHidden(t, limits)
  {
    hide TableInv, Dump;
    InvInRange(t);
    var u := Dump(t, limits);
    var p :| 0 <= p < |u.conns| && IsTimedOut(u.conns[p], limits, u.now);
    var n := DuePrefix(t, limits, 0);
    var j := LeftoverAt(t, limits, p);
    assert IsDue(t, limits, j) && !IsDue(t, limits, n);
  }

  /** A connection that a sweep leaves open stands behind the due prefix, as it was. */
  lemma LeftoverAt(t: Table, limits: Timeouts, p: nat) returns (j: nat)
    requires TableInv(t) && p < |Dump(t, limits).conns| && Dump(t, limits).conns[p].valid
    ensures DuePrefix(t, limits, 0) <= j < |t.timeod| && t.timeod[j].place == p
    ensures p < |t.conns| && Dump(t, limits).conns[p] == t.conns[p] && Dump(t, limits).now == t.now
  {
    hide TableInv, Dump, DuePrefix, IsDue;
    InvInRange(t);
    DumpKeepsInv(t, limits);
    hide InRange;
    LeftAsItWas(t, limits, p);
    var k := ListedAt(Dump(t, limits), p);
    j := DuePrefix(t, limits, 0) + k;
    assert Dump(t, limits).timeod[k] == t.timeod[j];
  }

  lemma LeftAsItWas(t: Table, limits: Timeouts, p: nat)
    requires TableInv(t) && p < |Dump(t, limits).conns| && Dump(t, limits).conns[p].valid
    ensures p < |t.conns| && Dump(t, limits).conns[p] == t.conns[p] && Dump(t, limits).now == t.now
    ensures Dump(t, limits).timeod == t.timeod[DuePrefix(t, limits, 0)..]
  {
    hide TableInv, Dump, ClosedAfter, DuePrefix, Places;
    InvInRange(t);
    SweepClosesDuePrefix(t, limits);
    Survivor(t, Places(t.timeod[..DuePrefix(t, limits, 0)]), Dump(t, limits).conns, p);
  }

  lemma Survivor(t: Table, gone: seq<nat>, conns: seq<Conn>, p: nat)
    requires ClosedAfter(t, gone, conns) && p < |conns| && conns[p].valid
    ensures |conns| == |t.conns| && conns[p] == t.conns[p]
  {
  }

  lemma ListedAt(t: Table, p: nat) returns (k: nat)
    requires TableInv(t) && p < |t.conns| && t.conns[p].valid
    ensures k < |t.timeod| && t.timeod[k].place == p
  {
    k :| 0 <= k < |t.timeod| && t.timeod[k].id == t.iters[p];
  }

  lemma StartsAreOrdered(t: Table, i: nat, j: nat)
    requires TableInv(t) && i <= j < |t.timeod|
    ensures InRange(t) && StartOf(t, i) <= StartOf(t, j)
  {
  }

  lemma HiddenIsLeft(t: Table, limits: Timeouts, i: nat, j: nat)
    requires TableInv(t) && i < j < |t.timeod|
    requires InRange(t) && !IsDue(t, limits, i) && IsDue(t, limits, j)
    ensures AnyoneDue(Dump(t, limits), limits)
  {
    hide ConnsInv, ClosedInv, OwnInv, OrderInv, Dump;
    SweepClosesDuePrefix(t, limits);
    var n := DuePrefix(t, limits, 0);
    assert n <= i;
    NotGone(t, n, j);
    hide ListInv, TableInv;
    var p := t.timeod[j].place;
    assert Dump(t, limits).conns[p] == t.conns[p];
    assert IsTimedOut(Dump(t, limits).conns[p], limits, t.now);
  }

  lemma NotGone(t: Table, n: nat, j: nat)
    requires InRange(t) && ListInv(t) && n <= j < |t.timeod|
    ensures t.timeod[j].place !in Places(t.timeod[..n])
  {
    assert forall k :: 0 <= k < n ==> t.timeod[..n][k] == t.timeod[k];
  }
}
