/** The table of used blocks together with the ledger of live allocations, as values: first-fit
    search, allocation, release, and what every run of them keeps. */
module BlockHeap {
  import opened Text
  import opened Products
  import opened Counting

  const USED := '1'
  const FREE := '0'

  datatype Region = Region(pos: nat, len: nat)

  datatype Heap = Heap(table: seq<char>, live: seq<Region>)

  predicate IsFreeRun(table: seq<char>, p: nat, k: nat) {
    p + k <= |table| && forall b :: p <= b < p + k ==> table[b] == FREE
  }

  /** The first place at or behind p where k free blocks lie in a row, as `find` searches for a
      pattern of k zeros. An empty pattern is found at once. */
  function FitFrom(table: seq<char>, k: nat, p: nat): (r: Option<nat>)
    ensures r.Some? ==> p <= r.value && IsFreeRun(table, r.value, k)
    ensures r.Some? ==> forall q :: p <= q < r.value ==> !IsFreeRun(table, q, k)
    ensures r.None? ==> forall q: nat :: p <= q ==> !IsFreeRun(table, q, k)
    decreases |table| - p
  {
    if p + k > |table| then None
    else if IsFreeRun(table, p, k) then Some(p)
    else FitFrom(table, k, p + 1)
  }

  function FirstFit(table: seq<char>, k: nat): Option<nat> {
    FitFrom(table, k, 0)
  }

  /** `memset` on k places of the table. */
  function Fill(table: seq<char>, p: nat, k: nat, c: char): (r: seq<char>)
    requires p + k <= |table|
    ensures |r| == |table|
    ensures forall b :: 0 <= b < |table| ==> r[b] == if p <= b < p + k then c else table[b]
  {
    table[..p] + seq(k, _ => c) + table[p + k..]
  }

  function Empty(count: nat): Heap {
    Heap(seq(count, _ => FREE), [])
  }

  function Allocate(h: Heap, k: nat): Heap {
    match FirstFit(h.table, k)
    case None => h
    case Some(p) => Heap(Fill(h.table, p, k, USED), h.live + [Region(p, k)])
  }

  function Without<T>(s: seq<T>, i: nat): seq<T>
    requires i < |s|
  {
    s[..i] + s[i + 1..]
  }

  function Release(h: Heap, i: nat): Heap
    requires i < |h.live| && h.live[i].pos + h.live[i].len <= |h.table|
  {
    Heap(Fill(h.table, h.live[i].pos, h.live[i].len, FREE), Without(h.live, i))
  }

  // ---- the allocator invariant ----

  predicate Holds(r: Region, b: nat) {
    r.pos <= b < r.pos + r.len
  }

  predicate AreDisjoint(r: Region, s: Region) {
    r.len == 0 || s.len == 0 || r.pos + r.len <= s.pos || s.pos + s.len <= r.pos
  }

  predicate InUse(live: seq<Region>, b: nat) {
    exists i :: 0 <= i < |live| && Holds(live[i], b)
  }

  /** Live regions lie in the arena and share no block, and '1' stands exactly on their blocks. */
  predicate Inv(h: Heap) {
    && (forall i :: 0 <= i < |h.live| ==> h.live[i].pos + h.live[i].len <= |h.table|)
    && (forall i, j :: 0 <= i < j < |h.live| ==> AreDisjoint(h.live[i], h.live[j]))
    && (forall b :: 0 <= b < |h.table| ==> h.table[b] == if InUse(h.live, b) then USED else FREE)
  }

  lemma EmptyInv(count: nat)
    ensures Inv(Empty(count))
  {
  }

  lemma InUseAppend(live: seq<Region>, r: Region, b: nat)
    ensures InUse(live + [r], b) <==> InUse(live, b) || Holds(r, b)
  {
    assert (live + [r])[|live|] == r;
    if i :| 0 <= i < |live| && Holds(live[i], b) {
      assert (live + [r])[i] == live[i];
    }
  }

  lemma AllocateKeepsInv(h: Heap, k: nat)
    requires Inv(h)
    ensures Inv(Allocate(h, k))
  {
    var fit := FirstFit(h.table, k);
    if fit.Some? {
      var r := Region(fit.value, k);
      var h' := Allocate(h, k);
      forall b | 0 <= b < |h.table|
        ensures h'.table[b] == if InUse(h'.live, b) then USED else FREE
      {
        InUseAppend(h.live, r, b);
      }
      forall i | 0 <= i < |h.live|
        ensures AreDisjoint(h.live[i], r)
      {
        var b := if h.live[i].pos < r.pos then r.pos else h.live[i].pos;
        if Holds(h.live[i], b) && Holds(r, b) {
          assert InUse(h.live, b);
        }
      }
    }
  }

  lemma WithoutAt<T>(s: seq<T>, i: nat, j: nat)
    requires i < |s| && j < |s| - 1
    ensures Without(s, i)[j] == if j < i then s[j] else s[j + 1]
  {
  }

  lemma InUseWithout(h: Heap, i: nat, b: nat)
    requires Inv(h) && i < |h.live|
    ensures InUse(Without(h.live, i), b) <==> InUse(h.live, b) && !Holds(h.live[i], b)
  {
    var rest := Without(h.live, i);
    if j :| 0 <= j < |rest| && Holds(rest[j], b) {
      WithoutAt(h.live, i, j);
    }
    if InUse(h.live, b) && !Holds(h.live[i], b) {
      var j :| 0 <= j < |h.live| && Holds(h.live[j], b);
      var j' := if j < i then j else j - 1;
      WithoutAt(h.live, i, j');
      assert rest[j'] == h.live[j];
    }
  }

  lemma ReleaseKeepsInv(h: Heap, i: nat)
    requires Inv(h) && i < |h.live|
    ensures Inv(Release(h, i))
  {
    var h' := Release(h, i);
    forall b | 0 <= b < |h.table|
      ensures h'.table[b] == if InUse(h'.live, b) then USED else FREE
    {
      InUseWithout(h, i, b);
    }
    forall j, k | 0 <= j < k < |h'.live|
      ensures AreDisjoint(h'.live[j], h'.live[k])
    {
      WithoutAt(h.live, i, j);
      WithoutAt(h.live, i, k);
    }
    forall j | 0 <= j < |h'.live|
      ensures h'.live[j].pos + h'.live[j].len <= |h'.table|
    {
      WithoutAt(h.live, i, j);
    }
  }

  /** Releasing what was just allocated restores table and ledger. */
  lemma ReleaseUndoesAllocate(h: Heap, k: nat)
    requires Inv(h) && FirstFit(h.table, k).Some?
    ensures Inv(Allocate(h, k)) && |Allocate(h, k).live| == |h.live| + 1
    ensures Release(Allocate(h, k), |h.live|) == h
  {
    AllocateKeepsInv(h, k);
    var h' := Allocate(h, k);
    assert Release(h', |h.live|).table == h.table;
    assert Without(h'.live, |h.live|) == h.live;
  }

  /** What a release does to the table and to the ledger: the blocks of the region are free, no
      other block changes, and the other regions stay in their order. */
  predicate IsReleased(table: seq<char>, live: seq<Region>, i: nat, after: seq<char>, liveAfter: seq<Region>)
    requires i < |live|
  {
    && |after| == |table|
    && (forall b :: 0 <= b < |table| ==>
          after[b] == if live[i].pos <= b < live[i].pos + live[i].len then '0' else table[b])
    && |liveAfter| == |live| - 1
    && (forall j :: 0 <= j < i ==> liveAfter[j] == live[j])
    && (forall j :: i < j < |live| ==> liveAfter[j - 1] == live[j])
  }

  /** The same for a request that is granted: the region is the first free run. */
  predicate IsGranted(table: seq<char>, live: seq<Region>, k: nat, after: seq<char>, liveAfter: seq<Region>) {
    && |after| == |table| && |liveAfter| == |live| + 1 && liveAfter[..|live|] == live
    && var r := liveAfter[|live|];
       && r.len == k && IsFreeRun(table, r.pos, k)
       && (forall p :: 0 <= p < r.pos ==> !IsFreeRun(table, p, k))
       && (forall b :: 0 <= b < |table| ==> after[b] == if r.pos <= b < r.pos + k then '1' else table[b])
  }

  predicate HasFreeRun(table: seq<char>, k: nat) {
    exists p :: 0 <= p <= |table| && IsFreeRun(table, p, k)
  }

  lemma ReleaseFrees(h: Heap, i: nat)
    requires Inv(h) && i < |h.live|
    ensures IsReleased(h.table, h.live, i, Release(h, i).table, Release(h, i).live)
  {
  }

  lemma AllocateTakesFirstFit(h: Heap, k: nat)
    ensures if HasFreeRun(h.table, k) then IsGranted(h.table, h.live, k, Allocate(h, k).table, Allocate(h, k).live)
            else Allocate(h, k) == h
  {
    var fit := FirstFit(h.table, k);
    assert fit.Some? ==> IsFreeRun(h.table, fit.value, k) && fit.value <= |h.table|;
  }

  /** Room that is given back can be taken at once. */
  lemma ReleaseMakesRoom(h: Heap, i: nat, k: nat)
    requires Inv(h) && i < |h.live| && k <= h.live[i].len
    ensures HasFreeRun(Release(h, i).table, k)
  {
    assert IsFreeRun(Release(h, i).table, h.live[i].pos, k);
  }

  // ---- runs ----

  /** A request for k blocks, or the release of the i-th live allocation. */
  datatype Op = Take(k: nat) | Give(i: nat)

  function Step(h: Heap, op: Op): Heap
    requires Inv(h)
  {
    match op
    case Take(k) => Allocate(h, k)
    case Give(i) => if i < |h.live| then Release(h, i) else h
  }

  lemma StepKeepsInv(h: Heap, op: Op)
    requires Inv(h)
    ensures Inv(Step(h, op)) && |Step(h, op).table| == |h.table|
  {
    match op
    case Take(k) => AllocateKeepsInv(h, k);
    case Give(i) => if i < |h.live| { ReleaseKeepsInv(h, i); }
  }

  function Run(h: Heap, ops: seq<Op>): (r: Heap)
    requires Inv(h)
    ensures Inv(r) && |r.table| == |h.table|
    decreases |ops|
  {
    if ops == [] then h
    else
      StepKeepsInv(h, ops[0]);
      Run(Step(h, ops[0]), ops[1..])
  }

  /** The requests of a run that find room. */
  function Granted(h: Heap, ops: seq<Op>): nat
    requires Inv(h)
    decreases |ops|
  {
    if ops == [] then 0
    else
      StepKeepsInv(h, ops[0]);
      Granted(Step(h, ops[0]), ops[1..]) + if ops[0].Take? && HasFreeRun(h.table, ops[0].k) then 1 else 0
  }

  /** The releases of a run that name a live allocation. */
  function GivenBack(h: Heap, ops: seq<Op>): nat
    requires Inv(h)
    decreases |ops|
  {
    if ops == [] then 0
    else
      StepKeepsInv(h, ops[0]);
      GivenBack(Step(h, ops[0]), ops[1..]) + if ops[0].Give? && ops[0].i < |h.live| then 1 else 0
  }

  lemma {:induction false} LiveCount(h: Heap, ops: seq<Op>)
    requires Inv(h)
    ensures |Run(h, ops).live| == |h.live| + Granted(h, ops) - GivenBack(h, ops)
    decreases |ops|
  {
    hide Inv, Allocate, Release, HasFreeRun;
    if ops != [] {
      StepKeepsInv(h, ops[0]);
      match ops[0] {
        case Take(k) => AllocateTakesFirstFit(h, k);
        case Give(i) => if i < |h.live| { ReleaseFrees(h, i); }
      }
      LiveCount(Step(h, ops[0]), ops[1..]);
    }
  }

  /** Nothing leaks: in every run what is live is what was granted and not given back, and when
      everything was given back all blocks are free again. */
  lemma NothingLeaks(count: nat, ops: seq<Op>)
    ensures Inv(Empty(count))
    ensures var h := Run(Empty(count), ops);
            var live := Granted(Empty(count), ops) - GivenBack(Empty(count), ops);
            && |h.live| == live
            && (live == 0 ==> h.live == [] && h.table == seq(count, _ => '0'))
  {
    EmptyInv(count);
    LiveCount(Empty(count), ops);
    var h := Run(Empty(count), ops);
    if h.live == [] {
      assert forall b :: 0 <= b < |h.table| ==> !InUse(h.live, b);
    }
  }

  // ---- equal sizes ----

  /** Every live region has k blocks and starts at a multiple of k. */
  predicate IsUniform(h: Heap, k: nat)
    requires k > 0
  {
    forall i :: 0 <= i < |h.live| ==> h.live[i].len == k && h.live[i].pos % k == 0
  }

  predicate AsksFor(ops: seq<Op>, k: nat) {
    forall i :: 0 <= i < |ops| && ops[i].Take? ==> ops[i].k == k
  }

  /** Every block of an aligned slot is used by the same allocation. */
  lemma SlotIsShared(h: Heap, k: nat, slot: nat, b: nat, c: nat)
    requires k > 0 && Inv(h) && IsUniform(h, k)
    requires slot * k <= b < slot * k + k && slot * k <= c < slot * k + k
    ensures InUse(h.live, c) ==> InUse(h.live, b)
  {
    if i :| 0 <= i < |h.live| && Holds(h.live[i], c) {
      SameSlot(h.live[i].pos, slot, k, c);
      assert Holds(h.live[i], b);
    }
  }

  lemma SlotIsFree(h: Heap, k: nat, slot: nat, b: nat)
    requires k > 0 && Inv(h) && IsUniform(h, k)
    requires slot * k <= b < slot * k + k <= |h.table|
    requires !InUse(h.live, b)
    ensures IsFreeRun(h.table, slot * k, k)
  {
    forall c | slot * k <= c < slot * k + k
      ensures h.table[c] == FREE
    {
      SlotIsShared(h, k, slot, b, c);
    }
  }

  lemma SameSlot(pos: nat, slot: nat, k: nat, c: nat)
    requires k > 0 && pos % k == 0
    requires pos <= c < pos + k && slot * k <= c < slot * k + k
    ensures pos == slot * k
  {
    DivIs(pos, k);
    QuotientIs(c, k, pos / k);
    QuotientIs(c, k, slot);
  }

  /** First fit lands on a slot: a run that starts inside a slot has the slot in front of it. */
  lemma FitIsAligned(h: Heap, k: nat)
    requires k > 0 && Inv(h) && IsUniform(h, k)
    ensures FirstFit(h.table, k).Some? ==> FirstFit(h.table, k).value % k == 0
  {
    var fit := FirstFit(h.table, k);
    if fit.Some? {
      var p := fit.value;
      DivIs(p, k);
      assert h.table[p] == FREE;
      SlotIsFree(h, k, p / k, p);
    }
  }

  /** The slots in use. */
  function Slots(live: seq<Region>, k: nat): set<nat>
    requires k > 0
  {
    set i | 0 <= i < |live| :: live[i].pos / k
  }

  lemma SlotsCount(h: Heap, k: nat)
    requires k > 0 && Inv(h) && IsUniform(h, k)
    ensures |Slots(h.live, k)| == |h.live|
  {
    hide Slots;
    SlotsCountOf(h.live, k);
  }

  lemma SlotsAppend(live: seq<Region>, r: Region, k: nat)
    requires k > 0
    ensures Slots(live + [r], k) == Slots(live, k) + {r.pos / k}
  {
    var all := live + [r];
    forall s | s in Slots(live, k) + {r.pos / k}
      ensures s in Slots(all, k)
    {
      if s in Slots(live, k) {
        var i :| 0 <= i < |live| && s == live[i].pos / k;
        assert all[i].pos / k == s;
      } else {
        assert all[|live|].pos / k == s;
      }
    }
  }

  lemma SlotIsNew(live: seq<Region>, r: Region, k: nat)
    requires k > 0 && r.len == k && r.pos % k == 0
    requires forall i :: 0 <= i < |live| ==> live[i].len == k && live[i].pos % k == 0 && AreDisjoint(live[i], r)
    ensures r.pos / k !in Slots(live, k)
  {
    if i :| 0 <= i < |live| && r.pos / k == live[i].pos / k {
      DivIs(r.pos, k);
      DivIs(live[i].pos, k);
      assert false;
    }
  }

  lemma {:induction false} SlotsCountOf(live: seq<Region>, k: nat)
    requires k > 0
    requires forall i :: 0 <= i < |live| ==> live[i].len == k && live[i].pos % k == 0
    requires forall i, j :: 0 <= i < j < |live| ==> AreDisjoint(live[i], live[j])
    ensures |Slots(live, k)| == |live|
  {
    if live != [] {
      var n := |live| - 1;
      var rest := live[..n];
      assert live == rest + [live[n]];
      SlotsAppend(rest, live[n], k);
      SlotIsNew(rest, live[n], k);
      hide Slots, AreDisjoint;
      SlotsCountOf(rest, k);
    }
  }

  lemma SlotInRange(pos: nat, k: nat, total: nat)
    requires k > 0 && pos % k == 0 && pos + k <= total
    ensures pos / k < total / k
  {
    DivIs(pos, k);
    DivIs(total, k);
    MulStep(total / k, pos / k + 1, k);
    assert (pos / k + 1) * k == pos / k * k + k;
  }

  lemma SlotFits(slot: nat, k: nat, total: nat)
    requires k > 0 && slot < total / k
    ensures slot * k + k <= total
  {
    DivIs(total, k);
    MulStep(slot, total / k, k);
  }

  lemma SlotsInRange(h: Heap, k: nat)
    requires k > 0 && Inv(h) && IsUniform(h, k)
    ensures Slots(h.live, k) <= Below(|h.table| / k)
  {
    forall s | s in Slots(h.live, k)
      ensures s in Below(|h.table| / k)
    {
      var i :| 0 <= i < |h.live| && s == h.live[i].pos / k;
      SlotInRange(h.live[i].pos, k, |h.table|);
    }
  }

  /** No fragmentation: a request succeeds exactly when a slot is not live. */
  lemma FitsIffSlotLeft(h: Heap, k: nat)
    requires k > 0 && Inv(h) && IsUniform(h, k)
    ensures FirstFit(h.table, k).Some? <==> |h.live| < |h.table| / k
  {
    hide Inv, IsUniform, Slots;
    var all := Below(|h.table| / k);
    var used := Slots(h.live, k);
    SlotsCount(h, k);
    SlotsInRange(h, k);
    SubsetCount(used, all);
    if used != all {
      var slot :| slot in all && slot !in used;
      FreeSlotIsRun(h, k, slot);
    }
    if FirstFit(h.table, k).Some? {
      FitLeavesSlot(h, k);
    }
  }

  lemma FreeSlotIsRun(h: Heap, k: nat, slot: nat)
    requires k > 0 && Inv(h) && IsUniform(h, k)
    requires slot < |h.table| / k && slot !in Slots(h.live, k)
    ensures IsFreeRun(h.table, slot * k, k)
  {
    SlotFits(slot, k, |h.table|);
    var b := slot * k;
    if i :| 0 <= i < |h.live| && Holds(h.live[i], b) {
      SameSlot(h.live[i].pos, slot, k, b);
      QuotientIs(b, k, slot);
      assert false;
    }
    SlotIsFree(h, k, slot, b);
  }

  lemma FitLeavesSlot(h: Heap, k: nat)
    requires k > 0 && Inv(h) && IsUniform(h, k) && FirstFit(h.table, k).Some?
    ensures Slots(h.live, k) != Below(|h.table| / k)
  {
    var p := FirstFit(h.table, k).value;
    FitIsAligned(h, k);
    SlotInRange(p, k, |h.table|);
    assert p / k in Below(|h.table| / k);
    FitIsNew(h, k);
  }

  lemma FitIsNew(h: Heap, k: nat)
    requires k > 0 && Inv(h) && IsUniform(h, k) && FirstFit(h.table, k).Some?
    ensures FirstFit(h.table, k).value / k !in Slots(h.live, k)
  {
    var p := FirstFit(h.table, k).value;
    FitIsAligned(h, k);
    assert h.table[p] == FREE && !InUse(h.live, p);
    hide Inv, InUse;
    if i :| 0 <= i < |h.live| && p / k == h.live[i].pos / k {
      DivIs(p, k);
      DivIs(h.live[i].pos, k);
      HoldsIsInUse(h.live, i, p);
      assert false;
    }
  }

  lemma HoldsIsInUse(live: seq<Region>, i: nat, b: nat)
    requires i < |live| && Holds(live[i], b)
    ensures InUse(live, b)
  {
  }

  lemma StepKeepsUniform(h: Heap, op: Op, k: nat)
    requires k > 0 && Inv(h) && IsUniform(h, k)
    requires op.Take? ==> op.k == k
    ensures IsUniform(Step(h, op), k)
  {
    match op
    case Take(_) => FitIsAligned(h, k);
    case Give(i) =>
      if i < |h.live| {
        forall j | 0 <= j < |h.live| - 1
          ensures var r := Without(h.live, i)[j]; r.len == k && r.pos % k == 0
        {
          WithoutAt(h.live, i, j);
        }
      }
  }

  lemma {:induction false} RunKeepsUniform(h: Heap, ops: seq<Op>, k: nat)
    requires k > 0 && Inv(h) && IsUniform(h, k) && AsksFor(ops, k)
    ensures IsUniform(Run(h, ops), k)
    decreases |ops|
  {
    if ops != [] {
      StepKeepsInv(h, ops[0]);
      StepKeepsUniform(h, ops[0], k);
      RunKeepsUniform(Step(h, ops[0]), ops[1..], k);
    }
  }

  /** In every run of requests of one size, with releases in any order, all live regions start
      at multiples of that size, and the next request fails only when count / k are live. */
  lemma UniformRunsNeverFragment(count: nat, ops: seq<Op>, k: nat)
    requires k > 0 && AsksFor(ops, k)
    ensures Inv(Empty(count))
    ensures var h := Run(Empty(count), ops);
            && IsUniform(h, k)
            && |h.live| <= count / k
            && (FirstFit(h.table, k).Some? <==> |h.live| < count / k)
  {
    EmptyInv(count);
    var h := Run(Empty(count), ops);
    RunKeepsUniform(Empty(count), ops, k);
    FitsIffSlotLeft(h, k);
    SlotsCount(h, k);
    SlotsInRange(h, k);
    SubsetCount(Slots(h.live, k), Below(count / k));
  }
}
