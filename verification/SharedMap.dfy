/** The map shared between processes: its layout in the mapping, and the protocol by which the
    processes take the semaphore, work on the map and give the semaphore back. */
module SharedMap {
  import opened Products
  import opened Binary32
  import opened BlockCount
  import ShAlloc

  // ---- layout ----

  /** `sizeof` of the three headers, and the two arguments of the constructor. */
  datatype Sizes = Sizes(semaphore: nat, state: nat, mapHeader: nat, blockSize: nat, blockCount: nat)

  function TableAt(z: Sizes): nat {
    z.semaphore + z.state
  }

  function MapAt(z: Sizes): nat {
    TableAt(z) + z.blockCount
  }

  function FirstBlock(z: Sizes): nat {
    TableAt(z) + z.blockCount + z.mapHeader
  }

  /** The length that the mapping is created with, in `size_t`. */
  function Mapped(z: Sizes): nat {
    (z.semaphore + z.state + z.blockCount + z.mapHeader + z.blockSize * z.blockCount) % ShAlloc.SIZE_RANGE
  }

  /** A part of the mapping: where it starts and how long it is. */
  datatype Part = Part(at: nat, size: nat)

  /** Semaphore, allocator state, block table, map header and arena, as they are placed. */
  function Parts(z: Sizes): seq<Part> {
    [Part(0, z.semaphore), Part(z.semaphore, z.state), Part(TableAt(z), z.blockCount), Part(MapAt(z), z.mapHeader),
     Part(FirstBlock(z), z.blockSize * z.blockCount)]
  }

  /** The parts lie side by side, from the start of the mapping, and the mapping is as long as all
      of them, in `size_t`. */
  lemma PartsTile(z: Sizes)
    ensures var parts := Parts(z);
            && parts[0].at == 0
            && (forall i :: 0 <= i < 4 ==> parts[i].at + parts[i].size == parts[i + 1].at)
            && Mapped(z) == (parts[4].at + parts[4].size) % 0x1_0000_0000_0000_0000
  {
  }

  /** The bytes of a grant lie behind all headers and inside the mapping. */
  predicate IsInside(z: Sizes, g: ShAlloc.Grant) {
    var p := FirstBlock(z) + g.region.pos * z.blockSize;
    z.semaphore + z.state + z.blockCount + z.mapHeader <= p && p + g.bytes <= Mapped(z)
  }

  /** Whatever the allocator grants stays clear of the headers and inside the mapping if the length
      of the mapping does not wrap around; a grant that reaches the end of the arena is inside only
      then. */
  lemma ArenaIsMapped(z: Sizes, g: ShAlloc.Grant)
    requires z.blockSize > 0 && ShAlloc.IsGrant(g, z.blockSize) && 0 < g.bytes <= FULL
    requires g.region.pos + g.region.len <= z.blockCount
    ensures FirstBlock(z) + z.blockSize * z.blockCount < ShAlloc.SIZE_RANGE ==> IsInside(z, g)
    ensures g.region.pos * z.blockSize + g.bytes == z.blockSize * z.blockCount && IsInside(z, g)
            ==> FirstBlock(z) + z.blockSize * z.blockCount < ShAlloc.SIZE_RANGE
  {
    ShAlloc.EndOfGrant(g, z.blockSize);
    hide Blocks;
    MulMono(g.region.pos + g.region.len, z.blockCount, z.blockSize);
    var total := FirstBlock(z) + z.blockSize * z.blockCount;
    assert Mapped(z) == total % ShAlloc.SIZE_RANGE;
    assert z.blockSize * z.blockCount == z.blockCount * z.blockSize;
  }

  // ---- operations ----

  datatype Op = Insert(k: int, v: int) | Update(k: int, v: int) | Erase(k: int) | At(k: int) | Count(k: int) | Size

  datatype Answer = Flag(b: bool) | Number(n: nat) | Value(v: int) | Done | OutOfRange | BadAlloc

  /** One operation on the map alone. A conversion or a node allocation that fails leaves the map
      as it is. */
  function Perform(m: map<int, int>, op: Op, allocates: bool): (map<int, int>, Answer) {
    if !allocates && !op.Size? then (m, BadAlloc)
    else
      match op
      case Insert(k, v) => if k in m then (m, Flag(false)) else (m[k := v], Flag(true))
      case Update(k, v) => if k in m then (m[k := v], Done) else (m, OutOfRange)
      case Erase(k) => (m - {k}, Number(if k in m then 1 else 0))
      case At(k) => (m, if k in m then Value(m[k]) else OutOfRange)
      case Count(k) => (m, Number(if k in m then 1 else 0))
      case Size => (m, Number(|m|))
  }

  datatype Entry = Entry(process: nat, op: Op, allocates: bool, answer: Answer)

  /** The map after a sequential history, provided every answer in it is the right one. */
  function Replay(history: seq<Entry>): (r: (map<int, int>, bool)) {
    if history == [] then (map[], true)
    else
      var (m, ok) := Replay(history[..|history| - 1]);
      var last := history[|history| - 1];
      var (m', answer) := Perform(m, last.op, last.allocates);
      (m', ok && answer == last.answer)
  }

  // ---- the protocol ----

  /** A process is outside, waits for the semaphore, holds it, has loaded the map, or has stored
      it and is about to leave, with an answer or an exception. */
  datatype Pc =
    Outside | Waiting(op: Op) | Holding(op: Op) | Loaded(op: Op, local: map<int, int>) | Stored(answer: Answer)

  datatype System = System(semaphore: nat, shared: map<int, int>, pcs: seq<Pc>, history: seq<Entry>)

  /** Interrupt is a wait that fails: the lock is not constructed, so nothing is posted later. */
  datatype Step =
    | Call(p: nat, op: Op)
    | Wait(p: nat)
    | Interrupt(p: nat)
    | Load(p: nat)
    | Store(p: nat, allocates: bool)
    | Post(p: nat)

  function Initial(processes: nat): System {
    System(1, map[], seq(processes, _ => Outside), [])
  }

  /** A step of one process; one that is not enabled changes nothing. */
  function Take(s: System, step: Step): System {
    if step.p >= |s.pcs| then s
    else
      var pc := s.pcs[step.p];
      match step
      case Call(p, op) => if pc.Outside? then s.(pcs := s.pcs[p := Waiting(op)]) else s
      case Wait(p) =>
        if pc.Waiting? && s.semaphore > 0
        then s.(semaphore := s.semaphore - 1, pcs := s.pcs[p := Holding(pc.op)]) else s
      case Interrupt(p) => if pc.Waiting? then s.(pcs := s.pcs[p := Outside]) else s
      case Load(p) => if pc.Holding? then s.(pcs := s.pcs[p := Loaded(pc.op, s.shared)]) else s
      case Store(p, allocates) =>
        if pc.Loaded? then
          var (m, answer) := Perform(pc.local, pc.op, allocates);
          s.(shared := m, pcs := s.pcs[p := Stored(answer)],
             history := s.history + [Entry(p, pc.op, allocates, answer)])
        else s
      case Post(p) => if pc.Stored? then s.(semaphore := s.semaphore + 1, pcs := s.pcs[p := Outside]) else s
  }

  predicate IsHolder(pc: Pc) {
    pc.Holding? || pc.Loaded? || pc.Stored?
  }

  function Holders(pcs: seq<Pc>): nat {
    if pcs == [] then 0 else Holders(pcs[..|pcs| - 1]) + if IsHolder(pcs[|pcs| - 1]) then 1 else 0
  }

  /** The semaphore and its holders add up to one, what a holder has loaded is still what the map
      holds, and the map is the outcome of the history in the order of the locks. */
  predicate SystemInv(s: System) {
    && s.semaphore + Holders(s.pcs) == 1
    && (forall p :: 0 <= p < |s.pcs| && s.pcs[p].Loaded? ==> s.pcs[p].local == s.shared)
    && Replay(s.history) == (s.shared, true)
  }

  lemma {:induction false} HoldersUpdate(pcs: seq<Pc>, p: nat, pc: Pc)
    requires p < |pcs|
    ensures Holders(pcs[p := pc]) + (if IsHolder(pcs[p]) then 1 else 0)
            == Holders(pcs) + (if IsHolder(pc) then 1 else 0)
  {
    var n := |pcs| - 1;
    if p < n {
      HoldersUpdate(pcs[..n], p, pc);
      assert pcs[p := pc][..n] == pcs[..n][p := pc];
    } else {
      assert pcs[p := pc][..n] == pcs[..n];
    }
  }

  lemma {:induction false} HolderCounts(pcs: seq<Pc>, p: nat)
    requires p < |pcs| && IsHolder(pcs[p])
    ensures Holders(pcs) >= 1
  {
    if p < |pcs| - 1 {
      HolderCounts(pcs[..|pcs| - 1], p);
    }
  }

  /** No two processes hold the semaphore. */
  lemma {:induction false} OneHolder(pcs: seq<Pc>, p: nat, q: nat)
    requires p < q < |pcs| && IsHolder(pcs[p]) && IsHolder(pcs[q])
    ensures Holders(pcs) >= 2
  {
    var n := |pcs| - 1;
    if q < n {
      OneHolder(pcs[..n], p, q);
    } else {
      HolderCounts(pcs[..n], p);
    }
  }

  lemma SoleHolder(s: System, p: nat)
    requires SystemInv(s) && p < |s.pcs| && IsHolder(s.pcs[p])
    ensures forall q :: 0 <= q < |s.pcs| && q != p ==> !IsHolder(s.pcs[q])
  {
    forall q | 0 <= q < |s.pcs| && q != p
      ensures !IsHolder(s.pcs[q])
    {
      if IsHolder(s.pcs[q]) {
        OneHolder(s.pcs, if p < q then p else q, if p < q then q else p);
        assert false;
      }
    }
  }

  lemma Recorded(history: seq<Entry>, e: Entry)
    ensures var (m, ok) := Replay(history);
            var (m', answer) := Perform(m, e.op, e.allocates);
            Replay(history + [e]) == (m', ok && answer == e.answer)
  {
    hide Perform;
    var all := history + [e];
    assert all[..|all| - 1] == history && all[|all| - 1] == e;
  }

  lemma StoreKeepsInv(s: System, p: nat, allocates: bool)
    requires SystemInv(s) && p < |s.pcs| && s.pcs[p].Loaded?
    ensures SystemInv(Take(s, Store(p, allocates)))
  {
    var u := Take(s, Store(p, allocates));
    var (m, answer) := Perform(s.pcs[p].local, s.pcs[p].op, allocates);
    HoldersUpdate(s.pcs, p, Stored(answer));
    SoleHolder(s, p);
    hide Perform, Holders;
    assert forall q :: 0 <= q < |u.pcs| ==> !u.pcs[q].Loaded?;
    hide IsHolder;
    Recorded(s.history, u.history[|s.history|]);
  }

  lemma TakeKeepsInv(s: System, step: Step)
    requires SystemInv(s)
    ensures SystemInv(Take(s, step))
  {
    hide Perform, Replay;
    if step.p < |s.pcs| {
      var pc := s.pcs[step.p];
      if step.Store? && pc.Loaded? {
        StoreKeepsInv(s, step.p, step.allocates);
      } else if !step.Store? {
        HoldersUpdate(s.pcs, step.p, Take(s, step).pcs[step.p]);
      }
    }
  }

  function TakeAll(s: System, steps: seq<Step>): System
    decreases |steps|
  {
    if steps == [] then s else TakeAll(Take(s, steps[0]), steps[1..])
  }

  lemma {:induction false} NoHolderYet(n: nat)
    ensures Holders(seq(n, _ => Outside)) == 0
  {
    if n > 0 {
      NoHolderYet(n - 1);
      assert (seq(n, _ => Outside))[..n - 1] == seq(n - 1, _ => Outside);
    }
  }

  lemma {:induction false} TakeAllKeepsInv(s: System, steps: seq<Step>)
    requires SystemInv(s)
    ensures SystemInv(TakeAll(s, steps))
    decreases |steps|
  {
    hide SystemInv, Take;
    if steps != [] {
      TakeKeepsInv(s, steps[0]);
      TakeAllKeepsInv(Take(s, steps[0]), steps[1..]);
    }
  }

  /** In every interleaving of any number of processes, throwing operations and failing waits
      included, at most one process holds the semaphore, all answers are those of the sequential map
      in the order of the locks, and the shared map is the outcome of that sequence. */
  lemma EveryHistoryIsSequential(processes: nat, steps: seq<Step>)
    ensures var s := TakeAll(Initial(processes), steps);
            && s.semaphore + Holders(s.pcs) == 1
            && Replay(s.history) == (s.shared, true)
  {
    NoHolderYet(processes);
    assert SystemInv(Initial(processes));
    TakeAllKeepsInv(Initial(processes), steps);
  }
}
