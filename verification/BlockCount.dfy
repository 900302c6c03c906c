/** `get_size_in_blocks`: the number of blocks as the ceiling of a single-precision quotient,
    and the range in which that number is the exact one. */
module BlockCount {
  import opened Products
  import opened Binary32

  /** Both operands are converted to `float` before they are divided. */
  function Blocks(bytes: nat, blockSize: nat): nat
    requires blockSize > 0
  {
    OfNatPositive(blockSize);
    OfNatPositive(bytes);
    if bytes == 0 then 0 else Ceil(RoundQuotient(OfNat(bytes), OfNat(blockSize)))
  }

  lemma OfNatPositive(n: nat)
    ensures n > 0 ==> OfNat(n) > 0
    ensures n <= FULL ==> OfNat(n) == n
    ensures n >= FULL ==> OfNat(n) >= FULL
  {
    if n == FULL {
      assert RoundScaled(FULL, 2, 1, 0) == Float(HALF, 1, 0);
      assert Pow2(1) == 2;
    } else if n > FULL {
      var f := RoundQuotient(n, 1);
      RoundScaledIs(n, 1, 0, 0);
      SignificandInRange(n * Pow2(f.down), 1 * Pow2(f.up));
      assert n * Pow2(0) == n;
      RoundedUp(n, f.up);
      Pow2Grows(0, f.up);
      MulMono(HALF, f.m, Pow2(f.up));
    }
  }

  lemma RoundedUp(n: nat, up: nat)
    requires n > FULL && n < FULL * Pow2(up)
    ensures up > 0
  {
    if up == 0 {
      assert false;
    }
  }

  /** Rounding cannot leave the interval between two integers. */
  lemma NearestEvenUpper(n: nat, d: nat, k: nat)
    requires d > 0 && n <= k * d
    ensures NearestEven(n, d) <= k
    ensures n == k * d ==> NearestEven(n, d) == k
  {
    var m := NearestEven(n, d);
    NearestEvenIsClose(n, d);
    hide NearestEven;
    MulStep(k, m, d);
    MulStep(m, k, d);
  }

  /** The quotient of an integer by a larger power of two than its distance to the next one
      below would need a significand of more than 24 bits. */
  lemma NearestEvenLower(n: nat, d: nat, s: nat, c: nat)
    requires d > 0 && 0 < n <= FULL && c > 0
    requires (c - 1) * d < n < c * d
    requires HALF * d <= n * Pow2(s) < FULL * d
    ensures (c - 1) * Pow2(s) < NearestEven(n * Pow2(s), d)
  {
    var N := n * Pow2(s);
    var m := NearestEven(N, d);
    var K := (c - 1) * Pow2(s);
    SignificandInRange(N, d);
    NearestEvenIsClose(N, d);
    hide NearestEven;
    if m <= K {
      MulMono(m, K, d);
      GapScales(n, d, s, c);
      assert 2 * Pow2(s) <= d;
      HalfFits(n, d, s);
      PowerDivides(n, d, s, c);
      assert false;
    }
  }

  lemma GapScales(n: nat, d: nat, s: nat, c: nat)
    requires c > 0 && (c - 1) * d < n
    ensures ((c - 1) * Pow2(s)) * d + Pow2(s) <= n * Pow2(s)
  {
    hide Pow2;
    MulMono((c - 1) * d + 1, n, Pow2(s));
    Regroup(c - 1, Pow2(s), 1, d);
    Regroup(c - 1, d, 1, Pow2(s));
    assert ((c - 1) * d + 1) * Pow2(s) == (c - 1) * d * Pow2(s) + Pow2(s);
  }

  lemma HalfFits(n: nat, d: nat, s: nat)
    requires n <= FULL && 2 * Pow2(s) <= d && HALF * d <= n * Pow2(s)
    ensures n == FULL && d == 2 * Pow2(s)
  {
    hide Pow2;
    var p := Pow2(s);
    assert FULL * p <= HALF * d;
    MulCancelLe(FULL, n, p);
  }

  lemma PowerDivides(n: nat, d: nat, s: nat, c: nat)
    requires n == FULL && d == 2 * Pow2(s) && c > 0
    requires (c - 1) * d < n < c * d
    ensures c == 1
  {
    assert d == Pow2(s + 1);
    hide Pow2;
    FullIsPower();
    if c > 1 {
      MulStep(0, c - 1, d);
      Pow2Less(s + 1, 24);
      var e := Pow2(24 - (s + 1));
      Pow2Adds(24 - (s + 1), s + 1);
      MulCancel(c - 1, e, d);
      MulCancel(e, c, d);
      assert false;
    }
  }

  lemma Pow2Less(a: nat, b: nat)
    requires Pow2(a) < Pow2(b)
    ensures a < b
  {
    if b < a {
      Pow2Grows(b, a);
    }
  }

  lemma FullIsPower()
    ensures FULL == Pow2(24)
  {
    assert Pow2(8) == 256;
    Pow2Adds(8, 8);
    Pow2Adds(16, 8);
  }

  /** Up to 2^24 the ceiling of the rounded quotient is the ceiling of the quotient. */
  lemma CeilOfRounded(n: nat, d: nat)
    requires 0 < n <= FULL && d > 0
    ensures Ceil(RoundQuotient(n, d)) == CeilDiv(n, d)
  {
    var f := RoundQuotient(n, d);
    var c := CeilDiv(n, d);
    CeilDivIs(n, d, c);
    if n >= FULL * d {
      assert n == FULL && d == 1;
      assert RoundScaled(FULL, 2, 1, 0) == Float(HALF, 1, 0);
      assert Pow2(1) == 2 && Pow2(0) == 1;
    } else {
      RoundScaledIs(n, d, 0, 0);
      assert d * Pow2(0) == d && f.up == 0;
      RoundedCeil(n, d, f.down, c);
      CeilDivIs(f.m * Pow2(f.up), Pow2(f.down), c);
    }
  }

  lemma RoundedCeil(n: nat, d: nat, s: nat, c: nat)
    requires 0 < n <= FULL && d > 0
    requires n <= c * d < n + d
    requires HALF * d <= n * Pow2(s) < FULL * d
    ensures var m := NearestEven(n * Pow2(s), d); m <= c * Pow2(s) < m + Pow2(s)
  {
    hide Pow2, NearestEven;
    MulMono(n, c * d, Pow2(s));
    Regroup(c, d, 1, Pow2(s));
    Regroup(c, Pow2(s), 1, d);
    NearestEvenUpper(n * Pow2(s), d, c * Pow2(s));
    if n < c * d {
      assert c * d == (c - 1) * d + d;
      NearestEvenLower(n, d, s, c);
      assert c * Pow2(s) == (c - 1) * Pow2(s) + Pow2(s);
    }
  }

  predicate IsExact(bytes: nat, blockSize: nat)
    requires blockSize > 0
  {
    Blocks(bytes, blockSize) == CeilDiv(bytes, blockSize)
  }

  /** Exact for every request of at most 2^24 bytes, whatever the block size. */
  lemma BlocksExact(bytes: nat, blockSize: nat)
    requires bytes <= FULL && blockSize > 0
    ensures IsExact(bytes, blockSize)
  {
    OfNatPositive(bytes);
    OfNatPositive(blockSize);
    hide OfNat, RoundQuotient, Ceil, CeilDiv;
    CeilDivIs(0, blockSize, 0);
    if bytes > 0 {
      CeilOfRounded(bytes, OfNat(blockSize));
      if blockSize > FULL {
        CeilDivIs(bytes, blockSize, 1);
        CeilDivIs(bytes, OfNat(blockSize), 1);
      }
    }
  }

  /** One byte more, in blocks of one byte, is rounded down to 2^24 blocks. */
  lemma FirstInexact()
    ensures Blocks(FULL + 1, 1) == FULL
  {
    assert RoundScaled(FULL + 1, 2, 1, 0) == Float(HALF, 1, 0);
    assert Pow2(1) == 2;
    assert OfNat(FULL + 1) == FULL;
    CeilOfRounded(FULL, 1);
  }

  ghost predicate ExactUpTo(limit: nat) {
    forall bytes: nat, blockSize: nat :: bytes <= limit && blockSize > 0 ==> IsExact(bytes, blockSize)
  }

  /** 2^24 is the largest such limit. */
  lemma ExactLimit(limit: nat)
    ensures ExactUpTo(limit) <==> limit <= FULL
  {
    hide Blocks, CeilDiv;
    if limit <= FULL {
      forall bytes: nat, blockSize: nat | bytes <= limit && blockSize > 0
        ensures IsExact(bytes, blockSize)
      {
        BlocksExact(bytes, blockSize);
      }
    } else {
      FirstInexact();
      CeilDivIs(FULL + 1, 1, FULL + 1);
      assert !IsExact(FULL + 1, 1);
    }
  }

  /** Within the limit the blocks hold the bytes, with less than one block to spare. */
  lemma BlocksCover(bytes: nat, blockSize: nat)
    requires bytes <= FULL && blockSize > 0
    ensures bytes <= Blocks(bytes, blockSize) * blockSize < bytes + blockSize
  {
    BlocksExact(bytes, blockSize);
    CeilDivIs(bytes, blockSize, CeilDiv(bytes, blockSize));
  }

  // ---- all inputs ----

  /** The conversion of an integer is the nearest number with 24 binary digits. */
  lemma OfNatIsNearest(n: nat, m: nat, p: nat)
    requires m < FULL
    ensures Distance(n, OfNat(n)) <= Distance(n, m * Pow2(p))
  {
    if n >= FULL {
      var f := RoundQuotient(n, 1);
      RoundQuotientIsNearest(n, 1, m, p, 0);
      NoHalving(n, 1, 0);
      hide RoundQuotient, Distance;
      assert Pow2(0) == 1;
      assert n * Pow2(0) == n && m * Pow2(p) * 1 == m * Pow2(p) && 1 * Pow2(f.up) == Pow2(f.up);
    }
  }

  /** It has no more than 24 binary digits, and on a tie the last of them is zero. */
  lemma OfNatHasDigits(n: nat) returns (k: nat, q: nat)
    ensures k < FULL && OfNat(n) == k * Pow2(q) && (q > 0 ==> k >= HALF)
    ensures 2 * Distance(n, OfNat(n)) == Pow2(q) ==> k % 2 == 0
  {
    if n < FULL {
      k, q := n, 0;
    } else {
      var f := RoundQuotient(n, 1);
      RoundQuotientIsNearest(n, 1, 0, 0, 0);
      NoHalving(n, 1, 0);
      hide RoundQuotient;
      assert Pow2(0) == 1;
      assert n * Pow2(0) == n && 1 * Pow2(f.up) == Pow2(f.up);
      if f.m < FULL {
        k, q := f.m, f.up;
      } else {
        k, q := HALF, f.up + 1;
        assert FULL * Pow2(f.up) == HALF * Pow2(f.up + 1);
      }
    }
  }

  lemma {:induction false} NoHalving(n: nat, d: nat, up: nat)
    requires d > 0 && n >= HALF * d
    ensures RoundScaled(n, d, up, 0).down == 0
    decreases if n >= FULL * d then n - FULL * d + 1 else 0
  {
    if n >= FULL * d {
      NoHalving(n, 2 * d, up + 1);
    }
  }

  /** For every request, also beyond the exact range: the count is the rounded quotient of the two
      rounded numbers, rounded up. */
  lemma BlocksAreRoundedUp(bytes: nat, blockSize: nat)
    requires bytes > 0 && blockSize > 0
    ensures OfNat(bytes) > 0 && OfNat(blockSize) > 0
    ensures var f := RoundQuotient(OfNat(bytes), OfNat(blockSize));
            var count := Blocks(bytes, blockSize) * Pow2(f.down);
            f.m * Pow2(f.up) <= count < f.m * Pow2(f.up) + Pow2(f.down)
  {
    OfNatPositive(bytes);
    OfNatPositive(blockSize);
    hide OfNat, RoundQuotient, CeilDiv;
    var f := RoundQuotient(OfNat(bytes), OfNat(blockSize));
    CeilDivIs(f.m * Pow2(f.up), Pow2(f.down), Blocks(bytes, blockSize));
  }
}
