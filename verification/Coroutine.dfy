/** The pool of coroutines on one thread. A resume runs the body of a routine to its next yield,
    to its return or to its exception. Behind the body there is one more switch, so that the
    routine is marked finished, and put into the pool, only by the resume after that. */
module Coroutine {
  import opened Text
  import opened Counting

  /** Inside the body, suspended behind the body, or finished. */
  datatype Stage = InBody | Ended | Finished

  datatype Routine = Routine(stage: Stage, exception: bool)

  /** What the body does when it is run: the next thing that it reaches. */
  datatype Body = Pauses | Returns | Throws

  datatype Pool = Pool(routines: seq<Routine>, finished: seq<nat>, current: Option<nat>)

  datatype Resumed = True | False | Rethrown

  const FRESH := Routine(InBody, false)

  function NoRoutines(): Pool {
    Pool([], [], None)
  }

  predicate InRange(p: Pool) {
    forall i :: 0 <= i < |p.finished| ==> p.finished[i] < |p.routines|
  }

  function Create(p: Pool): (Pool, nat)
    requires InRange(p)
  {
    if p.finished == [] then
      (p.(routines := p.routines + [FRESH]), |p.routines|)
    else
      var r := p.finished[0];
      (p.(routines := p.routines[r := FRESH], finished := p.finished[1..]), r)
  }

  /** One run of a routine, up to its next switch out. */
  function SwitchTo(p: Pool, i: nat, does: Body): Pool
    requires i < |p.routines|
  {
    var r := p.routines[i];
    if r.stage != InBody then
      // behind the body: the routine is marked and pooled
      p.(routines := p.routines[i := r.(stage := Finished)], finished := p.finished + [i], current := None)
    else if does == Pauses then
      // a yield clears the current routine
      p.(current := None)
    else
      // the body ends; entry switches out once more
      p.(routines := p.routines[i := Routine(Ended, does == Throws)], current := Some(i))
  }

  function Resume(p: Pool, i: nat, does: Body): (Pool, Resumed)
    requires i < |p.routines|
  {
    if p.routines[i].stage == Finished then (p, False)
    else
      var q := SwitchTo(p, i, does);
      (q, if q.routines[i].exception then Rethrown else True)
  }

  // ---- every run ----

  datatype Call = Creates | Resumes(i: nat, does: Body)

  /** The pool after one call; only existing routines can be resumed. */
  function Apply(p: Pool, call: Call): Pool
    requires InRange(p)
  {
    match call
    case Creates => Create(p).0
    case Resumes(i, does) => if i < |p.routines| then Resume(p, i, does).0 else p
  }

  /** A routine is in the pool, once, exactly when it is finished. */
  predicate PoolInv(p: Pool) {
    && InRange(p)
    && (forall i, j :: 0 <= i < j < |p.finished| ==> p.finished[i] != p.finished[j])
    && (forall r :: 0 <= r < |p.routines| ==> (r in p.finished <==> p.routines[r].stage == Finished))
    && (forall r :: 0 <= r < |p.routines| && p.routines[r].stage == InBody ==> !p.routines[r].exception)
  }

  lemma ApplyKeepsInv(p: Pool, call: Call)
    requires PoolInv(p)
    ensures PoolInv(Apply(p, call))
  {
    match call
    case Creates => CreateKeepsInv(p);
    case Resumes(i, does) => if i < |p.routines| && p.routines[i].stage != Finished { SwitchKeepsInv(p, i, does); }
  }

  lemma CreateKeepsInv(p: Pool)
    requires PoolInv(p)
    ensures PoolInv(Create(p).0)
  {
    if p.finished != [] {
      assert forall q :: q in p.finished <==> q == p.finished[0] || q in p.finished[1..];
    }
  }

  lemma SwitchKeepsInv(p: Pool, i: nat, does: Body)
    requires PoolInv(p) && i < |p.routines| && p.routines[i].stage != Finished
    ensures PoolInv(SwitchTo(p, i, does))
  {
    assert forall q :: q in p.finished + [i] <==> q in p.finished || q == i;
  }

  /** What a creation does: the routine that finished first, or a new one, is handed out ready to
      run and leaves the pool; nothing else changes. */
  lemma CreateExact(p: Pool)
    requires PoolInv(p)
    ensures var (q, r) := Create(p);
            && r < |q.routines| && q.routines[r] == Routine(InBody, false) && r !in q.finished
            && (forall k :: 0 <= k < |p.routines| && k != r ==> k < |q.routines| && q.routines[k] == p.routines[k])
            && q.current == p.current
            && if p.finished == [] then r == |p.routines| && |q.routines| == r + 1 && q.finished == []
               else |q.routines| == |p.routines| && p.routines[r].stage == Finished && p.finished == [r] + q.finished
  {
    if p.finished != [] {
      assert p.finished[0] in p.finished;
    }
  }

  /** What a resume does: the routine goes one stage on if its body ends or has ended, only the end
      of the body leaves it the current one, only the resume behind the end pools it, and its
      exception is thrown by both. */
  lemma ResumeExact(p: Pool, i: nat, does: Body)
    requires PoolInv(p) && i < |p.routines|
    ensures var (q, answer) := Resume(p, i, does);
            var was := p.routines[i];
            && |q.routines| == |p.routines|
            && (forall k :: 0 <= k < |p.routines| && k != i ==> q.routines[k] == p.routines[k])
            && match was.stage
               case Finished => q == p && answer == False
               case Ended =>
                 && q.routines[i] == Routine(Finished, was.exception) && q.finished == p.finished + [i]
                 && q.current == None && answer == if was.exception then Rethrown else True
               case InBody =>
                 && q.finished == p.finished
                 && q.routines[i] == (if does == Pauses then was else Routine(Ended, does == Throws))
                 && q.current == (if does == Pauses then None else Some(i))
                 && answer == if does == Throws then Rethrown else True
  {
  }

  function Run(p: Pool, calls: seq<Call>): (q: Pool)
    requires PoolInv(p)
    ensures PoolInv(q)
    decreases |calls|
  {
    if calls == [] then p
    else
      ApplyKeepsInv(p, calls[0]);
      Run(Apply(p, calls[0]), calls[1..])
  }

  // ---- the size of the pool ----

  function Unfinished(routines: seq<Routine>): nat {
    if routines == [] then 0
    else Unfinished(routines[..|routines| - 1]) + if routines[|routines| - 1].stage == Finished then 0 else 1
  }

  function Max(a: nat, b: nat): nat {
    if a < b then b else a
  }

  /** The largest number of unfinished routines in any state of the run. */
  function Peak(p: Pool, calls: seq<Call>): nat
    requires PoolInv(p)
    decreases |calls|
  {
    var now := Unfinished(p.routines);
    if calls == [] then now
    else
      ApplyKeepsInv(p, calls[0]);
      Max(now, Peak(Apply(p, calls[0]), calls[1..]))
  }

  lemma {:induction false} UnfinishedPlusFinished(routines: seq<Routine>, finished: set<nat>)
    requires forall r: nat :: r in finished <==> r < |routines| && routines[r].stage == Finished
    ensures Unfinished(routines) + |finished| == |routines|
  {
    if routines == [] {
      assert finished == {};
    } else {
      var n := |routines| - 1;
      UnfinishedPlusFinished(routines[..n], finished - {n});
      if routines[n].stage != Finished {
        assert finished - {n} == finished;
      }
    }
  }

  lemma Accounting(p: Pool)
    requires PoolInv(p)
    ensures Unfinished(p.routines) + |p.finished| == |p.routines|
  {
    DistinctCount(p.finished);
    UnfinishedPlusFinished(p.routines, ToSet(p.finished));
  }

  lemma InvInRange(p: Pool)
    requires PoolInv(p)
    ensures InRange(p)
  {
  }

  /** The pool grows only when nothing in it is finished, and then everything is unfinished. */
  lemma ApplyGrows(p: Pool, call: Call)
    requires PoolInv(p)
    ensures var q := Apply(p, call);
            && |p.routines| <= |q.routines|
            && (|q.routines| > |p.routines| ==> q.finished == [])
  {
  }

  lemma {:induction false} SizeIsPeak(p: Pool, calls: seq<Call>)
    requires PoolInv(p)
    ensures |Run(p, calls).routines| == Max(|p.routines|, Peak(p, calls))
    decreases |calls|
  {
    hide PoolInv, Unfinished;
    Accounting(p);
    if calls != [] {
      InvInRange(p);
      var q := Apply(p, calls[0]);
      ApplyKeepsInv(p, calls[0]);
      Accounting(q);
      ApplyGrows(p, calls[0]);
      hide Apply;
      SizeIsPeak(q, calls[1..]);
    }
  }

  /** In every run the number of routines ever allocated is the peak of the unfinished ones. */
  lemma PoolSizeIsPeakLoad(calls: seq<Call>)
    ensures PoolInv(NoRoutines())
    ensures |Run(NoRoutines(), calls).routines| == Peak(NoRoutines(), calls)
  {
    SizeIsPeak(NoRoutines(), calls);
  }

  // ---- the number of resumes ----

  /** What the body of routine i is asked to do by the calls, one entry for each resume of it. */
  function BodyRuns(calls: seq<Call>, i: nat): seq<Body> {
    if calls == [] then []
    else
      var before := BodyRuns(calls[..|calls| - 1], i);
      var last := calls[|calls| - 1];
      if last.Resumes? && last.i == i then before + [last.does] else before
  }

  /** A body that yields k times and then returns, or throws. Behind its end it is not run. */
  predicate IsBody(runs: seq<Body>, k: nat, end: Body) {
    && end != Pauses
    && (forall n :: 0 <= n < |runs| && n < k ==> runs[n] == Pauses)
    && (k < |runs| ==> runs[k] == end)
  }

  lemma {:induction false} RunAppend(p: Pool, calls: seq<Call>, call: Call)
    requires PoolInv(p)
    ensures Run(p, calls + [call]) == Apply(Run(p, calls), call)
    decreases |calls|
  {
    hide Apply;
    var all := calls + [call];
    if calls == [] {
      assert all[1..] == [];
      ApplyKeepsInv(p, call);
      assert Run(Apply(p, call), []) == Apply(p, call);
    } else {
      ApplyKeepsInv(p, calls[0]);
      assert all[1..] == calls[1..] + [call];
      RunAppend(Apply(p, calls[0]), calls[1..], call);
    }
  }

  /** Whatever else is created or resumed in between, a routine that was just created advances by
      its own resumes only. With a body that yields k times it stays inside the body for k of them,
      is behind it after k + 1, and is not in the pool so far. */
  lemma {:induction false} OwnResumesCount(p: Pool, i: nat, calls: seq<Call>, k: nat, end: Body)
    requires PoolInv(p) && i < |p.routines| && p.routines[i] == FRESH
    requires IsBody(BodyRuns(calls, i), k, end) && |BodyRuns(calls, i)| <= k + 1
    ensures var q := Run(p, calls);
            && i < |q.routines| && i !in q.finished
            && q.routines[i] == if |BodyRuns(calls, i)| <= k then FRESH else Routine(Ended, end == Throws)
    decreases |calls|
  {
    if calls == [] {
      assert Run(p, []) == p;
    } else {
      var m := |calls| - 1;
      var before := BodyRuns(calls[..m], i);
      assert calls == calls[..m] + [calls[m]];
      assert forall n :: 0 <= n < |before| ==> before[n] == BodyRuns(calls, i)[n];
      OwnResumesCount(p, i, calls[..m], k, end);
      RunAppend(p, calls[..m], calls[m]);
      var q := Run(p, calls[..m]);
      if calls[m].Resumes? && calls[m].i == i {
        assert BodyRuns(calls, i) == before + [calls[m].does];
        assert BodyRuns(calls, i)[|before|] == calls[m].does;
        assert calls[m].does == if |before| < k then Pauses else end;
      } else {
        OthersLeaveAlone(q, i, calls[m]);
      }
    }
  }

  lemma OthersLeaveAlone(p: Pool, i: nat, call: Call)
    requires PoolInv(p) && i < |p.routines| && i !in p.finished && !(call.Resumes? && call.i == i)
    ensures i < |Apply(p, call).routines| && Apply(p, call).routines[i] == p.routines[i]
    ensures i !in Apply(p, call).finished
  {
  }

  /** The (k + 2)-th resume finishes the routine and puts it into the pool; a body that throws is
      reported by the last two resumes. Resumes after that change nothing. */
  lemma LastResumeFinishes(p: Pool, i: nat, calls: seq<Call>, k: nat, end: Body, does: Body)
    requires PoolInv(p) && i < |p.routines| && p.routines[i] == FRESH
    requires IsBody(BodyRuns(calls, i), k, end) && |BodyRuns(calls, i)| == k + 1
    ensures var q := Run(p, calls);
            i < |q.routines|
            && var (u, answer) := Resume(q, i, does);
               && u.routines[i].stage == Finished && u.finished == q.finished + [i]
               && answer == (if end == Throws then Rethrown else True)
               && forall more: Body :: Resume(u, i, more) == (u, False)
  {
    OwnResumesCount(p, i, calls, k, end);
  }

  /** The first k + 1 resumes return true, except that the one in which the body ends rethrows
      what the body has thrown; none of them puts the routine into the pool. */
  lemma EarlierResumesReturnTrue(p: Pool, i: nat, calls: seq<Call>, k: nat, end: Body)
    requires PoolInv(p) && i < |p.routines| && p.routines[i] == FRESH
    requires IsBody(BodyRuns(calls, i), k, end) && |BodyRuns(calls, i)| <= k
    ensures var q := Run(p, calls);
            var does := if |BodyRuns(calls, i)| < k then Pauses else end;
            i < |q.routines|
            && Resume(q, i, does).1 == (if does == Throws then Rethrown else True)
            && Resume(q, i, does).0.finished == q.finished
  {
    OwnResumesCount(p, i, calls, k, end);
  }

  // ---- the pool as an object ----

  class MainOrdinator {
    var routines: seq<Routine>
    var finished: seq<nat>
    var current: Option<nat>

    function Value(): Pool
      reads this
    {
      Pool(routines, finished, current)
    }

    constructor ()
      ensures Value() == NoRoutines()
    {
      routines, finished, current := [], [], None;
    }

    method CreateRoutine() returns (i: nat)
      requires InRange(Value())
      modifies this`routines, this`finished
      ensures (Value(), i) == Create(old(Value()))
    {
      if finished == [] {
        i := |routines|;
        routines := routines + [FRESH];
      } else {
        i := finished[0];
        finished := finished[1..];
        routines := routines[i := FRESH];
      }
    }

    method ResumeRoutine(i: nat, does: Body) returns (answer: Resumed)
      requires i < |routines|
      modifies this
      ensures (Value(), answer) == Resume(old(Value()), i, does)
    {
      if routines[i].stage == Finished {
        return False;
      }
      current := Some(i);
      SwitchIn(does);
      return if routines[i].exception then Rethrown else True;
    }

    /** Runs the current routine up to its next switch out. */
    method SwitchIn(does: Body)
      requires current.Some? && current.value < |routines|
      modifies this
      ensures Value() == SwitchTo(old(Value()), old(current.value), does)
    {
      var i := current.value;
      var r := routines[i];
      if r.stage != InBody {
        routines := routines[i := r.(stage := Finished)];
        current := None;
        finished := finished + [i];
      } else if does == Pauses {
        current := None;
      } else {
        routines := routines[i := Routine(Ended, does == Throws)];
      }
    }
  }
}
