/** The allocator over the shared block state, with its pointers and byte counts. */
module ShAlloc {
  import opened Text
  import opened Products
  import opened Binary32
  import opened BlockCount
  import opened BlockHeap

  const SIZE_RANGE: nat := 0x1_0000_0000_0000_0000

  /** `sizeof(value_type) * n` in `size_t`. */
  function Bytes(elemSize: nat, n: nat): nat {
    (elemSize * n) % SIZE_RANGE
  }

  class ShMemState {
    const blockSize: nat
    const firstBlock: nat
    const table: array<char>
    /** The allocations that have not been given back. */
    ghost var live: seq<Region>

    ghost function State(): Heap
      reads this, table
    {
      Heap(table[..], live)
    }

    ghost predicate Valid()
      reads this, table
    {
      Inv(State())
    }

    constructor (blockSize: nat, blocksCount: nat, firstBlock: nat)
      ensures this.blockSize == blockSize && this.firstBlock == firstBlock
      ensures fresh(table) && table.Length == blocksCount
      ensures Valid() && State() == Empty(blocksCount)
    {
      this.blockSize, this.firstBlock := blockSize, firstBlock;
      table := new char[blocksCount](_ => FREE);
      live := [];
      new;
      assert table[..] == Empty(blocksCount).table;
      EmptyInv(blocksCount);
    }
  }

  class ShAlloc {
    const elemSize: nat
    const state: ShMemState

    constructor (elemSize: nat, state: ShMemState)
      ensures this.elemSize == elemSize && this.state == state
    {
      this.elemSize, this.state := elemSize, state;
    }

    /** The converting constructor: another element type over the same state. */
    constructor Rebind(elemSize: nat, other: ShAlloc)
      ensures this.elemSize == elemSize && this.state == other.state
    {
      this.elemSize, this.state := elemSize, other.state;
    }

    /** None stands for `bad_alloc`. The conversion of the block count to `size_t` is defined
        only below 2^64, which the caller has to see to. */
    method Allocate(n: nat) returns (p: Option<nat>)
      requires state.Valid()
      requires state.blockSize > 0 ==> Blocks(Bytes(elemSize, n), state.blockSize) < SIZE_RANGE
      modifies state, state.table
      ensures state.Valid()
      ensures state.blockSize == 0 ==> p.None? && state.State() == old(state.State())
      ensures state.blockSize > 0 ==>
                var k := Blocks(Bytes(elemSize, n), state.blockSize);
                && state.State() == BlockHeap.Allocate(old(state.State()), k)
                && p == match FirstFit(old(state.table[..]), k) {
                          case None => None
                          case Some(pos) => Some(state.firstBlock + pos * state.blockSize)
                        }
                && (if HasFreeRun(old(state.table[..]), k)
                    then IsGranted(old(state.table[..]), old(state.live), k, state.table[..], state.live)
                    else p.None? && state.State() == old(state.State()))
    {
      if state.blockSize == 0 {
        return None;
      }
      var blocksNeeded := Blocks(Bytes(elemSize, n), state.blockSize);
      ghost var before := state.State();
      var pos := FirstFit(state.table[..], blocksNeeded);
      AllocateKeepsInv(before, blocksNeeded);
      AllocateTakesFirstFit(before, blocksNeeded);
      if pos.None? {
        return None;
      }
      SetBlocks(state.table, pos.value, blocksNeeded, USED);
      state.live := state.live + [Region(pos.value, blocksNeeded)];
      return Some(state.firstBlock + pos.value * state.blockSize);
    }

    /** Gives back the i-th live allocation: the pointer and the element count must be those of
        that allocation, the element type may be another one of the same size. */
    method Deallocate(p: nat, n: nat, ghost i: nat)
      requires state.Valid() && state.blockSize > 0
      requires i < |state.live|
      requires p == state.firstBlock + state.live[i].pos * state.blockSize
      requires Blocks(Bytes(elemSize, n), state.blockSize) == state.live[i].len
      modifies state, state.table
      ensures state.Valid()
      ensures state.State() == Release(old(state.State()), i)
      ensures IsReleased(old(state.table[..]), old(state.live), i, state.table[..], state.live)
    {
      var offset := (p - state.firstBlock) / state.blockSize;
      QuotientIs(p - state.firstBlock, state.blockSize, state.live[i].pos);
      var blocksCount := Blocks(Bytes(elemSize, n), state.blockSize);
      ReleaseKeepsInv(state.State(), i);
      ReleaseFrees(state.State(), i);
      SetBlocks(state.table, offset, blocksCount, FREE);
      state.live := Without(state.live, i);
    }
  }

  method SetBlocks(table: array<char>, pos: nat, count: nat, c: char)
    requires pos + count <= table.Length
    modifies table
    ensures table[..] == Fill(old(table[..]), pos, count, c)
  {
    forall i | pos <= i < pos + count {
      table[i] := c;
    }
  }

  // ---- bytes ----

  /** What a caller was promised: where its memory starts and how many bytes it asked for. */
  datatype Grant = Grant(region: Region, bytes: nat)

  predicate IsGrant(g: Grant, blockSize: nat)
    requires blockSize > 0
  {
    g.region.len == Blocks(g.bytes, blockSize)
  }

  /** The two stretches of memory have no byte in common. */
  predicate BytesDisjoint(g: Grant, h: Grant, blockSize: nat) {
    || g.bytes == 0 || h.bytes == 0
    || g.region.pos * blockSize + g.bytes <= h.region.pos * blockSize
    || h.region.pos * blockSize + h.bytes <= g.region.pos * blockSize
  }

  /** Disjoint blocks are disjoint memory as long as every request is within the exact range,
      and then every request lies inside the arena. */
  lemma GrantsDoNotOverlap(g: Grant, h: Grant, blockSize: nat, count: nat)
    requires blockSize > 0 && IsGrant(g, blockSize) && IsGrant(h, blockSize)
    requires g.bytes <= FULL && h.bytes <= FULL
    requires AreDisjoint(g.region, h.region)
    requires g.region.pos + g.region.len <= count
    ensures BytesDisjoint(g, h, blockSize)
    ensures g.region.pos * blockSize + g.bytes <= count * blockSize
  {
    EndOfGrant(g, blockSize);
    EndOfGrant(h, blockSize);
    hide Blocks;
    MulMono(g.region.pos + g.region.len, count, blockSize);
    if g.region.pos + g.region.len <= h.region.pos {
      MulMono(g.region.pos + g.region.len, h.region.pos, blockSize);
    } else if h.region.pos + h.region.len <= g.region.pos {
      MulMono(h.region.pos + h.region.len, g.region.pos, blockSize);
    }
  }

  lemma EndOfGrant(g: Grant, blockSize: nat)
    requires blockSize > 0 && IsGrant(g, blockSize) && g.bytes <= FULL
    ensures g.region.pos * blockSize + g.bytes <= (g.region.pos + g.region.len) * blockSize
    ensures g.region.len == 0 ==> g.bytes == 0
  {
    hide Blocks;
    BlocksCover(g.bytes, blockSize);
    Distribute(g.region.pos, g.region.len, blockSize);
  }

  /** In every state the allocator can reach, the memory of all live allocations within the
      exact range lies in the arena and no two of them share a byte. */
  lemma LiveMemoryIsSafe(h: Heap, grants: seq<Grant>, blockSize: nat)
    requires blockSize > 0 && Inv(h) && |grants| == |h.live|
    requires forall i :: 0 <= i < |grants| ==>
               grants[i].region == h.live[i] && IsGrant(grants[i], blockSize) && grants[i].bytes <= FULL
    ensures forall i, j :: 0 <= i < j < |grants| ==> BytesDisjoint(grants[i], grants[j], blockSize)
    ensures forall i :: 0 <= i < |grants| ==>
              grants[i].region.pos * blockSize + grants[i].bytes <= |h.table| * blockSize
  {
    hide Blocks, BytesDisjoint;
    forall i, j | 0 <= i < j < |grants|
      ensures BytesDisjoint(grants[i], grants[j], blockSize)
    {
      GrantsDoNotOverlap(grants[i], grants[j], blockSize, |h.table|);
    }
    forall i | 0 <= i < |grants|
      ensures grants[i].region.pos * blockSize + grants[i].bytes <= |h.table| * blockSize
    {
      EndOfGrant(grants[i], blockSize);
      MulMono(h.live[i].pos + h.live[i].len, |h.table|, blockSize);
    }
  }

  /** Two requests, of 2^24 + 1 bytes and of one, in an arena of that many blocks of one byte. */
  function OverlapRequests(): seq<Op> {
    [Take(Blocks(FULL + 1, 1)), Take(Blocks(1, 1))]
  }

  /** The allocator grants both, with blocks that lie side by side. */
  lemma OverlapRun()
    ensures Inv(Empty(FULL + 1))
    ensures Run(Empty(FULL + 1), OverlapRequests()).live == [Region(0, FULL), Region(FULL, 1)]
    ensures Blocks(FULL + 1, 1) == FULL && Blocks(1, 1) == 1
  {
    FirstInexact();
    BlocksExact(1, 1);
    CeilDivIs(1, 1, 1);
    hide Blocks, CeilDiv, Empty, Allocate, Inv, Run;
    EmptyInv(FULL + 1);
    OverlapSteps();
    RunOfTwoTakes(Empty(FULL + 1), FULL, 1);
  }

  lemma RunOfTwoTakes(h: Heap, a: nat, b: nat)
    requires Inv(h)
    ensures Run(h, [Take(a), Take(b)]) == Allocate(Allocate(h, a), b)
  {
    AllocateKeepsInv(h, a);
    AllocateKeepsInv(Allocate(h, a), b);
    hide Inv, Allocate;
    var ops := [Take(a), Take(b)];
    assert ops[1..] == [Take(b)] && [Take(b)][1..] == [];
    assert Run(Allocate(h, a), ops[1..]) == Run(Allocate(Allocate(h, a), b), []);
  }

  lemma OverlapSteps()
    ensures var one := Allocate(Empty(FULL + 1), FULL);
            one.live == [Region(0, FULL)] && Allocate(one, 1).live == [Region(0, FULL), Region(FULL, 1)]
  {
    var h := Empty(FULL + 1);
    assert IsFreeRun(h.table, 0, FULL);
    var one := Allocate(h, FULL);
    hide Empty;
    assert IsFreeRun(one.table, FULL, 1);
    forall q: nat | q < FULL
      ensures !IsFreeRun(one.table, q, 1)
    {
      assert one.table[q] == USED;
    }
    assert FirstFit(one.table, 1) == Some(FULL);
  }

  /** What the callers of a run hold: one grant for each live allocation, none beyond the limit. */
  predicate IsLedger(limit: nat, count: nat, blockSize: nat, ops: seq<Op>, grants: seq<Grant>)
    requires blockSize > 0
  {
    EmptyInv(count);
    var live := Run(Empty(count), ops).live;
    && |grants| == |live|
    && forall i :: 0 <= i < |grants| ==>
         grants[i].region == live[i] && IsGrant(grants[i], blockSize) && grants[i].bytes <= limit
  }

  predicate AreSafe(count: nat, blockSize: nat, grants: seq<Grant>) {
    && (forall i, j :: 0 <= i < j < |grants| ==> BytesDisjoint(grants[i], grants[j], blockSize))
    && (forall i :: 0 <= i < |grants| ==> grants[i].region.pos * blockSize + grants[i].bytes <= count * blockSize)
  }

  /** Requests up to the limit are safe from each other in every run of every arena. */
  ghost predicate SafeUpTo(limit: nat) {
    forall count: nat, blockSize: nat, ops: seq<Op>, grants: seq<Grant> ::
      blockSize > 0 && IsLedger(limit, count, blockSize, ops, grants) ==> AreSafe(count, blockSize, grants)
  }

  lemma WithinRangeIsSafe(limit: nat, count: nat, blockSize: nat, ops: seq<Op>, grants: seq<Grant>)
    requires limit <= FULL && blockSize > 0 && IsLedger(limit, count, blockSize, ops, grants)
    ensures AreSafe(count, blockSize, grants)
  {
    EmptyInv(count);
    hide Blocks, BytesDisjoint;
    LiveMemoryIsSafe(Run(Empty(count), ops), grants, blockSize);
  }

  /** Two live allocations that a run has granted share a byte. */
  lemma GrantsOverlapBeyondRange()
    ensures var grants := [Grant(Region(0, FULL), FULL + 1), Grant(Region(FULL, 1), 1)];
            IsLedger(FULL + 1, FULL + 1, 1, OverlapRequests(), grants) && !AreSafe(FULL + 1, 1, grants)
  {
    OverlapRun();
    hide Blocks, Run, OverlapRequests;
    var grants := [Grant(Region(0, FULL), FULL + 1), Grant(Region(FULL, 1), 1)];
    assert !BytesDisjoint(grants[0], grants[1], 1);
  }

  lemma LargerLimit(a: nat, b: nat, count: nat, blockSize: nat, ops: seq<Op>, grants: seq<Grant>)
    requires a <= b && blockSize > 0 && IsLedger(a, count, blockSize, ops, grants)
    ensures IsLedger(b, count, blockSize, ops, grants)
  {
    hide Blocks, Run;
  }

  /** 2^24 bytes is the largest limit under which the allocator keeps its promise. */
  lemma MemorySafeExactly(limit: nat)
    ensures SafeUpTo(limit) <==> limit <= FULL
  {
    hide IsLedger, AreSafe, OverlapRequests;
    if limit <= FULL {
      forall count: nat, blockSize: nat, ops: seq<Op>, grants: seq<Grant> |
        blockSize > 0 && IsLedger(limit, count, blockSize, ops, grants)
        ensures AreSafe(count, blockSize, grants)
      {
        WithinRangeIsSafe(limit, count, blockSize, ops, grants);
      }
    } else {
      var grants := [Grant(Region(0, FULL), FULL + 1), Grant(Region(FULL, 1), 1)];
      GrantsOverlapBeyondRange();
      LargerLimit(FULL + 1, limit, FULL + 1, 1, OverlapRequests(), grants);
    }
  }

  // ---- elements ----

  /** Requests of up to so many bytes get blocks for all of their elements, whatever the size of a
      block. */
  ghost predicate HoldsElementsUpTo(limit: nat) {
    forall elemSize: nat, n: nat, blockSize: nat ::
      blockSize > 0 && elemSize * n <= limit ==> Blocks(Bytes(elemSize, n), blockSize) * blockSize >= elemSize * n
  }

  lemma ElementsAreHeld(elemSize: nat, n: nat, blockSize: nat)
    requires blockSize > 0 && elemSize * n <= FULL
    ensures Blocks(Bytes(elemSize, n), blockSize) * blockSize >= elemSize * n
  {
    BlocksCover(elemSize * n, blockSize);
    hide Blocks;
    assert Bytes(elemSize, n) == elemSize * n;
  }

  lemma ElementsHeldExactly(limit: nat)
    ensures HoldsElementsUpTo(limit) <==> limit <= FULL
  {
    hide Blocks, Bytes;
    if limit <= FULL {
      forall elemSize: nat, n: nat, blockSize: nat | blockSize > 0 && elemSize * n <= limit
        ensures Blocks(Bytes(elemSize, n), blockSize) * blockSize >= elemSize * n
      {
        ElementsAreHeld(elemSize, n, blockSize);
      }
    } else {
      FirstInexact();
      assert 1 * (FULL + 1) <= limit;
      assert Bytes(1, FULL + 1) == FULL + 1 by { OneByteElements(FULL + 1); }
      assert Blocks(Bytes(1, FULL + 1), 1) * 1 < 1 * (FULL + 1);
    }
  }

  lemma OneByteElements(n: nat)
    requires n < SIZE_RANGE
    ensures Bytes(1, n) == n
  {
  }

  /** The byte count itself wraps around: 2^32 elements of 2^32 bytes are granted no block at all,
      at the start of the arena, whatever is live there. */
  lemma WrappedRequest(h: Heap, blockSize: nat)
    requires blockSize > 0
    ensures Bytes(0x1_0000_0000, 0x1_0000_0000) == 0
    ensures Blocks(0, blockSize) == 0
    ensures FirstFit(h.table, 0) == Some(0) && Allocate(h, 0).table == h.table
  {
    BlocksExact(0, blockSize);
    CeilDivIs(0, blockSize, 0);
    hide Blocks, CeilDiv;
    assert IsFreeRun(h.table, 0, 0);
  }
}
