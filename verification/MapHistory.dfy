/** What the processes see of the shared map: every answer is explained by the operations before it
    in the order of the locks, every operation that is called is carried out once, and no process
    is kept waiting for good. */
module MapHistory {
  import opened Text
  import opened SharedMap

  // ---- the last write ----

  /** What a key is bound to after a history, by the answers alone: a successful insert or update
      binds it, an erasure unbinds it. */
  function Bound(history: seq<Entry>, k: int): Option<int> {
    if history == [] then None
    else
      var before := Bound(history[..|history| - 1], k);
      var e := history[|history| - 1];
      match e.op
      case Insert(j, v) => if j == k && e.answer == Flag(true) then Some(v) else before
      case Update(j, v) => if j == k && e.answer == Done then Some(v) else before
      case Erase(j) => if j == k && e.answer != BadAlloc then None else before
      case _ => before
  }

  function Inserted(history: seq<Entry>): set<int> {
    set i | 0 <= i < |history| && history[i].op.Insert? :: history[i].op.k
  }

  function BoundKeys(history: seq<Entry>): set<int> {
    set k | k in Inserted(history) && Bound(history, k).Some?
  }

  /** The answer that an operation has to give behind a history. */
  predicate IsRight(before: seq<Entry>, e: Entry) {
    if !e.allocates && !e.op.Size? then e.answer == BadAlloc
    else
      match e.op
      case Insert(k, _) => e.answer == Flag(Bound(before, k).None?)
      case Update(k, _) => e.answer == if Bound(before, k).Some? then Done else OutOfRange
      case Erase(k) => e.answer == Number(if Bound(before, k).Some? then 1 else 0)
      case At(k) => e.answer == (match Bound(before, k) case Some(v) => Value(v) case None => OutOfRange)
      case Count(k) => e.answer == Number(if Bound(before, k).Some? then 1 else 0)
      case Size => e.answer == Number(|BoundKeys(before)|)
  }

  predicate AllRight(history: seq<Entry>) {
    forall i :: 0 <= i < |history| ==> IsRight(history[..i], history[i])
  }

  /** The map holds what the history has bound. */
  ghost predicate HoldsBound(m: map<int, int>, history: seq<Entry>) {
    forall k: int :: Bound(history, k) == if k in m then Some(m[k]) else None
  }

  lemma {:induction false} BoundWasInserted(history: seq<Entry>, k: int)
    requires Bound(history, k).Some? && AllRight(history)
    ensures k in Inserted(history)
  {
    var n := |history| - 1;
    var e := history[n];
    assert IsRight(history[..n], e);
    if Bound(history[..n], k).Some? {
      assert forall i :: 0 <= i < n ==> history[..n][..i] == history[..i];
      BoundWasInserted(history[..n], k);
      var i :| 0 <= i < n && history[..n][i].op.Insert? && history[..n][i].op.k == k;
      assert history[i].op.k == k;
    } else {
      assert e.op.Insert?;
    }
  }

  lemma KeysAre(m: map<int, int>, history: seq<Entry>)
    requires HoldsBound(m, history) && AllRight(history)
    ensures |m| == |BoundKeys(history)|
  {
    forall k: int | k in m
      ensures k in BoundKeys(history)
    {
      assert Bound(history, k).Some?;
      BoundWasInserted(history, k);
    }
    assert forall k: int :: k in BoundKeys(history) ==> Bound(history, k).Some? && k in m;
    assert m.Keys == BoundKeys(history);
  }

  lemma OneMore(m: map<int, int>, history: seq<Entry>, e: Entry)
    requires HoldsBound(m, history) && AllRight(history)
    requires Perform(m, e.op, e.allocates).1 == e.answer
    ensures IsRight(history, e) && HoldsBound(Perform(m, e.op, e.allocates).0, history + [e])
  {
    KeysAre(m, history);
    var all := history + [e];
    assert all[..|all| - 1] == history;
    hide BoundKeys;
    assert forall k: int :: Bound(history, k).Some? <==> k in m;
  }

  lemma {:induction false} ReplayIsRight(history: seq<Entry>)
    requires Replay(history).1
    ensures HoldsBound(Replay(history).0, history) && AllRight(history)
  {
    if history != [] {
      var n := |history| - 1;
      var before := history[..n];
      assert history == before + [history[n]];
      hide Perform, HoldsBound, IsRight, Bound;
      ReplayIsRight(before);
      OneMore(Replay(before).0, before, history[n]);
      forall i | 0 <= i < |history|
        ensures IsRight(history[..i], history[i])
      {
        assert i < n ==> before[..i] == history[..i] && before[i] == history[i];
      }
    } else {
      assert Replay(history).0 == map[];
    }
  }

  /** In every interleaving every answer is explained by the answers before it, and the shared map
      holds what they have bound. */
  lemma EveryAnswerIsRight(processes: nat, steps: seq<SharedMap.Step>)
    ensures var s := TakeAll(Initial(processes), steps);
            AllRight(s.history) && HoldsBound(s.shared, s.history)
  {
    EveryHistoryIsSequential(processes, steps);
    hide TakeAll;
    ReplayIsRight(TakeAll(Initial(processes), steps).history);
  }

  // ---- nothing is lost on the way ----

  /** The operations of one process in the history. */
  function Carried(history: seq<Entry>, p: nat): seq<Op> {
    if history == [] then []
    else
      var e := history[|history| - 1];
      Carried(history[..|history| - 1], p) + if e.process == p then [e.op] else []
  }

  /** The operation that a process has called and that is not carried out so far. */
  function Pending(pc: Pc): seq<Op> {
    match pc
    case Outside => []
    case Waiting(op) => [op]
    case Holding(op) => [op]
    case Loaded(op, _) => [op]
    case Stored(_) => []
  }

  /** The operations that a process calls in a run, without those whose wait fails. */
  function Called(s: System, steps: seq<SharedMap.Step>, p: nat, before: seq<Op>): seq<Op>
    decreases |steps|
  {
    if steps == [] then before
    else
      var step := steps[0];
      var now :=
        if step.p != p || p >= |s.pcs| then before
        else if step.Call? && s.pcs[p].Outside? then before + [step.op]
        else if step.Interrupt? && s.pcs[p].Waiting? && before != [] then before[..|before| - 1]
        else before;
      Called(Take(s, step), steps[1..], p, now)
  }

  /** Who has stored takes the answer of the last entry away, and it is his. */
  predicate AnswersDelivered(s: System) {
    forall p :: 0 <= p < |s.pcs| && s.pcs[p].Stored? ==>
      && s.history != []
      && s.history[|s.history| - 1].process == p
      && s.history[|s.history| - 1].answer == s.pcs[p].answer
  }

  lemma TakeDelivers(s: System, step: SharedMap.Step)
    requires SystemInv(s) && AnswersDelivered(s)
    ensures AnswersDelivered(Take(s, step))
  {
    hide Perform, Replay, Holders;
    if step.Store? && step.p < |s.pcs| && s.pcs[step.p].Loaded? {
      SoleHolder(s, step.p);
      assert forall q :: 0 <= q < |s.pcs| && q != step.p ==> !s.pcs[q].Stored?;
    }
  }

  lemma {:induction false} CalledIsDone(s: System, steps: seq<SharedMap.Step>, p: nat, before: seq<Op>)
    requires SystemInv(s) && AnswersDelivered(s) && p < |s.pcs|
    requires before == Carried(s.history, p) + Pending(s.pcs[p])
    ensures var u := TakeAll(s, steps);
            && p < |u.pcs| && AnswersDelivered(u)
            && Called(s, steps, p, before) == Carried(u.history, p) + Pending(u.pcs[p])
    decreases |steps|
  {
    if steps != [] {
      var u := Take(s, steps[0]);
      TakeKeepsInv(s, steps[0]);
      TakeDelivers(s, steps[0]);
      var now := StepKeepsCalled(s, steps[0], p, before);
      hide SystemInv, AnswersDelivered, Take, Carried, Pending;
      CalledIsDone(u, steps[1..], p, now);
    }
  }

  lemma StepKeepsCalled(s: System, step: SharedMap.Step, p: nat, before: seq<Op>) returns (now: seq<Op>)
    requires p < |s.pcs| && before == Carried(s.history, p) + Pending(s.pcs[p])
    ensures now == if step.p != p then before
                   else if step.Call? && s.pcs[p].Outside? then before + [step.op]
                   else if step.Interrupt? && s.pcs[p].Waiting? && before != [] then before[..|before| - 1]
                   else before
    ensures var u := Take(s, step); p < |u.pcs| && now == Carried(u.history, p) + Pending(u.pcs[p])
  {
    hide Perform, Carried;
    var u := Take(s, step);
    now := Carried(u.history, p) + Pending(u.pcs[p]);
    if step.Store? && step.p < |s.pcs| && s.pcs[step.p].Loaded? {
      CarriedAppend(s.history, u.history[|s.history|], p);
      assert u.history == s.history + [u.history[|s.history|]];
    } else {
      assert u.history == s.history;
    }
  }

  lemma CarriedAppend(history: seq<Entry>, e: Entry, p: nat)
    ensures Carried(history + [e], p) == Carried(history, p) + if e.process == p then [e.op] else []
  {
    var all := history + [e];
    assert all[..|all| - 1] == history;
  }

  /** In every interleaving, for every process: the operations that it has called are, in their
      order, those of it in the history and the one it is about to carry out; and the answer it
      takes away is that of its last one. */
  lemma EveryCallIsDoneOnce(processes: nat, steps: seq<SharedMap.Step>, p: nat)
    requires p < processes
    ensures var s := TakeAll(Initial(processes), steps);
            && p < |s.pcs| && AnswersDelivered(s)
            && Called(Initial(processes), steps, p, []) == Carried(s.history, p) + Pending(s.pcs[p])
  {
    var s := Initial(processes);
    NoHolderYet(processes);
    assert SystemInv(s) && AnswersDelivered(s);
    CalledIsDone(s, steps, p, []);
  }

  // ---- nobody is kept waiting ----

  /** An operation that nobody disturbs: five steps, the answer that the history asks for, and the
      semaphore as before. */
  lemma UndisturbedOperation(s: System, p: nat, op: Op, allocates: bool)
    requires SystemInv(s) && p < |s.pcs| && s.pcs[p].Outside? && s.semaphore == 1
    ensures var u := TakeAll(s, [Call(p, op), Wait(p), Load(p), Store(p, allocates), Post(p)]);
            && u.semaphore == 1 && u.pcs == s.pcs
            && |u.history| == |s.history| + 1 && u.history[..|s.history|] == s.history
            && var e := u.history[|s.history|];
               && e.process == p && e.op == op && e.allocates == allocates
               && IsRight(s.history, e) && HoldsBound(u.shared, u.history)
  {
    var (m, answer) := Perform(s.shared, op, allocates);
    var e := Entry(p, op, allocates, answer);
    ReplayIsRight(s.history);
    OneMore(s.shared, s.history, e);
    hide Perform, Replay, HoldsBound, IsRight, SystemInv;
    var s1 := Take(s, Call(p, op));
    var s2 := Take(s1, Wait(p));
    var s3 := Take(s2, Load(p));
    var s4 := Take(s3, Store(p, allocates));
    var u := Take(s4, Post(p));
    assert u == System(1, m, u.pcs, s.history + [e]);
    assert u.pcs == s.pcs;
    RunOfFive(s, Call(p, op), Wait(p), Load(p), Store(p, allocates), Post(p));
  }

  lemma RunOfFive(s: System, a: SharedMap.Step, b: SharedMap.Step, c: SharedMap.Step, d: SharedMap.Step,
                  e: SharedMap.Step)
    ensures TakeAll(s, [a, b, c, d, e]) == Take(Take(Take(Take(Take(s, a), b), c), d), e)
  {
    hide Take;
    var all := [a, b, c, d, e];
    assert all[1..] == [b, c, d, e] && [b, c, d, e][1..] == [c, d, e] && [c, d, e][1..] == [d, e];
    assert TakeAll(s, all) == TakeAll(Take(s, a), [b, c, d, e]);
    assert TakeAll(Take(s, a), [b, c, d, e]) == TakeAll(Take(Take(s, a), b), [c, d, e]);
    assert TakeAll(Take(Take(s, a), b), [c, d, e]) == TakeAll(Take(Take(Take(s, a), b), c), [d, e]);
    RunOfTwo(Take(Take(Take(s, a), b), c), d, e);
  }

  lemma RunOfTwo(s: System, d: SharedMap.Step, e: SharedMap.Step)
    ensures TakeAll(s, [d, e]) == Take(Take(s, d), e)
  {
    hide Take;
    assert [d, e][1..] == [e] && [e][1..] == [];
    assert TakeAll(Take(s, d), [e]) == TakeAll(Take(Take(s, d), e), []);
  }

  lemma {:induction false} SomeHolder(pcs: seq<Pc>) returns (q: nat)
    requires Holders(pcs) > 0
    ensures q < |pcs| && IsHolder(pcs[q])
  {
    var n := |pcs| - 1;
    if IsHolder(pcs[n]) {
      q := n;
    } else {
      q := SomeHolder(pcs[..n]);
    }
  }

  /** In every reachable state with a waiting process the semaphore is free, or somebody holds it
      who gives it back in at most three steps of his own; then the wait succeeds. */
  lemma WaiterGetsIn(s: System, p: nat) returns (q: nat)
    requires SystemInv(s) && p < |s.pcs| && s.pcs[p].Waiting?
    ensures q < |s.pcs|
    ensures var u := if s.semaphore > 0 then s else Take(Take(Take(s, Load(q)), Store(q, true)), Post(q));
            && p < |u.pcs| && u.semaphore > 0
            && Take(u, Wait(p)).pcs[p] == Holding(s.pcs[p].op)
  {
    hide Perform, Replay;
    q := p;
    if s.semaphore == 0 {
      q := SomeHolder(s.pcs);
      assert q != p;
      hide Holders, SystemInv;
      var s1 := Take(s, Load(q));
      var s2 := Take(s1, Store(q, true));
      assert s2.pcs[q].Stored? && s2.pcs[p] == s.pcs[p];
    }
  }
}
