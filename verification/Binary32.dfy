/** Positive binary32 numbers (IEEE 754-2008, sections 3.4 and 4.3.1) without an upper or lower
    exponent limit, which no quotient of two `size_t` values can reach. All comparisons of
    fractions are multiplied out, so the whole file works on natural numbers. */
module Binary32 {
  import opened Products

  function Pow2(n: nat): (p: nat)
    ensures p > 0
  {
    if n == 0 then 1 else 2 * Pow2(n - 1)
  }

  const HALF := 0x80_0000
  const FULL := 0x100_0000

  /** The number m * 2^up / 2^down, with a 24-bit significand. */
  datatype Float = Float(m: nat, up: nat, down: nat)

  /** n / d rounded to an integer, ties to even. */
  function NearestEven(n: nat, d: nat): nat
    requires d > 0
  {
    var q := n / d;
    var r := n % d;
    if 2 * r < d || (2 * r == d && q % 2 == 0) then q else q + 1
  }

  /** Doubles the numerator or the denominator until the quotient has 24 binary digits before
      the point, and rounds there. */
  function RoundScaled(n: nat, d: nat, up: nat, down: nat): Float
    requires n > 0 && d > 0
    decreases if n >= FULL * d then n - FULL * d + 1 else if n < HALF * d then HALF * d - n else 0
  {
    if n >= FULL * d then RoundScaled(n, 2 * d, up + 1, down)
    else if n < HALF * d then RoundScaled(2 * n, d, up, down + 1)
    else Float(NearestEven(n, d), up, down)
  }

  function RoundQuotient(n: nat, d: nat): Float
    requires n > 0 && d > 0
  {
    RoundScaled(n, d, 0, 0)
  }

  /** Conversion of an integer to binary32. Up to 24 digits fit; beyond, the value is even. */
  function OfNat(n: nat): nat {
    if n < FULL then n
    else
      var f := RoundQuotient(n, 1);
      f.m * Pow2(f.up)
  }

  function CeilDiv(n: nat, d: nat): nat
    requires d > 0
  {
    (n + d - 1) / d
  }

  /** `std::ceil` of a float. */
  function Ceil(f: Float): nat {
    CeilDiv(f.m * Pow2(f.up), Pow2(f.down))
  }

  // ---- powers and ceilings ----

  lemma {:induction false} Pow2Adds(a: nat, b: nat)
    ensures Pow2(a + b) == Pow2(a) * Pow2(b)
  {
    if a > 0 {
      Pow2Adds(a - 1, b);
    }
  }

  lemma {:induction false} Pow2Grows(a: nat, b: nat)
    requires a < b
    ensures 2 * Pow2(a) <= Pow2(b)
  {
    if a + 1 < b {
      Pow2Grows(a, b - 1);
    }
  }

  /** Ceiling division in terms of products. */
  lemma CeilDivIs(n: nat, d: nat, c: nat)
    requires d > 0
    ensures CeilDiv(n, d) == c <==> n <= c * d < n + d
  {
    var q := CeilDiv(n, d);
    DivIs(n + d - 1, d);
    assert q * d < n + d <= (q + 1) * d by {
      assert (q + 1) * d == q * d + d;
    }
    if n <= c * d < n + d {
      assert (c + 1) * d == c * d + d;
      MulCancel(c, q + 1, d);
      MulCancel(q, c + 1, d);
    }
  }

  // ---- rounding ----

  function Distance(a: nat, b: nat): nat {
    if a < b then b - a else a - b
  }

  lemma NearestEvenIsClose(n: nat, d: nat)
    requires d > 0
    ensures var m := NearestEven(n, d);
            && 2 * Distance(n, m * d) <= d
            && (2 * Distance(n, m * d) == d ==> m % 2 == 0)
  {
    var q := n / d;
    DivIs(n, d);
    assert n % d == n - q * d;
    assert (q + 1) * d == q * d + d;
  }

  /** An integer within half a unit is a nearest one. */
  lemma CloseIsNearest(n: nat, d: nat, m: nat, k: nat)
    requires 2 * Distance(n, m * d) <= d
    ensures Distance(n, m * d) <= Distance(n, k * d)
  {
    if k < m {
      MulMono(k + 1, m, d);
      assert (k + 1) * d == k * d + d;
    } else if m < k {
      MulMono(m + 1, k, d);
      assert (m + 1) * d == m * d + d;
    }
  }

  /** The scaled quotient: same value as n / d, with the significand in its range. */
  lemma {:induction false} RoundScaledIs(n: nat, d: nat, up: nat, down: nat)
    requires n > 0 && d > 0
    ensures var f := RoundScaled(n, d, up, down);
            && up <= f.up && down <= f.down
            && var N := n * Pow2(f.down - down);
               var D := d * Pow2(f.up - up);
               D > 0 && HALF * D <= N < FULL * D && f.m == NearestEven(N, D)
    ensures n >= HALF * d ==> RoundScaled(n, d, up, down).down == down
    ensures n < FULL * d ==> RoundScaled(n, d, up, down).up == up
    decreases if n >= FULL * d then n - FULL * d + 1 else if n < HALF * d then HALF * d - n else 0
  {
    var f := RoundScaled(n, d, up, down);
    if n >= FULL * d {
      RoundScaledIs(n, 2 * d, up + 1, down);
      Shift(d, f.up - up);
    } else if n < HALF * d {
      RoundScaledIs(2 * n, d, up, down + 1);
      Shift(n, f.down - down);
    } else {
      assert n * Pow2(0) == n && d * Pow2(0) == d;
    }
  }

  lemma Shift(x: nat, k: nat)
    requires k > 0
    ensures (2 * x) * Pow2(k - 1) == x * Pow2(k)
  {
  }

  lemma DistanceScales(a: nat, b: nat, c: nat)
    ensures Distance(a, b) * c == Distance(a * c, b * c)
  {
    if a < b {
      MulMono(a, b, c);
      assert (b - a) * c == b * c - a * c;
    } else {
      MulMono(b, a, c);
      assert (a - b) * c == a * c - b * c;
    }
  }

  /** Both sides of the comparison below, brought to the denominator of the rounded value. */
  lemma CommonDenominator(m: nat, p: nat, q: nat, d: nat, up: nat, down: nat)
    ensures (m * Pow2(p) * d) * Pow2(down) == (m * d) * Pow2(p + down)
    ensures (d * Pow2(up)) * Pow2(q) == d * Pow2(q + up)
  {
    hide Pow2;
    Pow2Adds(p, down);
    Pow2Adds(up, q);
    Regroup(m, Pow2(p), d, Pow2(down));
    Assoc(d, Pow2(up), Pow2(q));
  }

  lemma OnGrid(m: nat, a: nat, b: nat, d: nat, D: nat, c: nat)
    requires b <= a && D * c == d * Pow2(b)
    ensures (m * d) * Pow2(a) == (m * Pow2(a - b)) * D * c
  {
    hide Pow2;
    var e := Pow2(a - b);
    Pow2Adds(a - b, b);
    Assoc(m * e, D, c);
    Regroup(m, e, d, Pow2(b));
    Assoc(m * e, d, Pow2(b));
  }

  lemma SmallProduct(m: nat, d: nat, low: nat, high: nat)
    requires m < FULL && 2 * low <= high
    ensures (m * d) * low <= HALF * (d * high)
  {
    MulMono(m, FULL, low);
    assert m * low <= HALF * high;
    MulMono(m * low, HALF * high, d);
    assert (m * d) * low == (m * low) * d;
    assert (HALF * high) * d == HALF * (d * high);
  }

  lemma Small(m: nat, a: nat, b: nat, d: nat, D: nat, c: nat)
    requires a < b && m < FULL && D * c == d * Pow2(b)
    ensures (m * d) * Pow2(a) <= HALF * D * c
  {
    hide Pow2;
    Pow2Grows(a, b);
    SmallProduct(m, d, Pow2(a), Pow2(b));
    Assoc(HALF, D, c);
  }

  /** A number with a 24-bit significand is a multiple of the unit D or at most HALF units. */
  lemma OnGridOrSmall(m: nat, p: nat, q: nat, d: nat, up: nat, down: nat)
    requires m < FULL
    ensures var D := d * Pow2(up);
            var y := (m * Pow2(p) * d) * Pow2(down);
            if q + up <= p + down then y == (m * Pow2(p + down - (q + up))) * D * Pow2(q)
            else y <= HALF * D * Pow2(q)
  {
    hide Pow2;
    CommonDenominator(m, p, q, d, up, down);
    if q + up <= p + down {
      OnGrid(m, p + down, q + up, d, d * Pow2(up), Pow2(q));
    } else {
      Small(m, p + down, q + up, d, d * Pow2(up), Pow2(q));
    }
  }

  /** Rounding to nearest: no number m / 2^q * 2^p with a 24-bit significand is closer to n / d
      than the rounded value, and on a tie the significand is even. Both distances are
      multiplied by d * 2^down * 2^q. */
  lemma RoundQuotientIsNearest(n: nat, d: nat, m: nat, p: nat, q: nat)
    requires n > 0 && d > 0 && m < FULL
    ensures var f := RoundQuotient(n, d);
            && HALF <= f.m <= FULL
            && Distance(n * Pow2(f.down), f.m * (d * Pow2(f.up))) * Pow2(q)
               <= Distance(n * Pow2(q), m * Pow2(p) * d) * Pow2(f.down)
    ensures var f := RoundQuotient(n, d);
            2 * Distance(n * Pow2(f.down), f.m * (d * Pow2(f.up))) == d * Pow2(f.up) ==> f.m % 2 == 0
  {
    hide Pow2, NearestEven, Distance;
    var f := RoundQuotient(n, d);
    RoundScaledIs(n, d, 0, 0);
    NearestEvenIsClose(n * Pow2(f.down), d * Pow2(f.up));
    SignificandInRange(n * Pow2(f.down), d * Pow2(f.up));
    OnGridOrSmall(m, p, q, d, f.up, f.down);
    var k := if q + f.up <= p + f.down then m * Pow2(p + f.down - (q + f.up)) else HALF;
    NearerThan(n, d, f, m, p, q, k);
  }

  lemma NearerThan(n: nat, d: nat, f: Float, m: nat, p: nat, q: nat, k: nat)
    requires var N := n * Pow2(f.down);
             var D := d * Pow2(f.up);
             var y := (m * Pow2(p) * d) * Pow2(f.down);
             && 2 * Distance(N, f.m * D) <= D
             && HALF * D <= N
             && (y == k * D * Pow2(q) || (k == HALF && y <= HALF * D * Pow2(q)))
    ensures Distance(n * Pow2(f.down), f.m * (d * Pow2(f.up))) * Pow2(q)
            <= Distance(n * Pow2(q), m * Pow2(p) * d) * Pow2(f.down)
  {
    hide Pow2;
    var N := n * Pow2(f.down);
    var D := d * Pow2(f.up);
    CloserToGrid(N, D, f.m, k, Pow2(q));
    DistanceScales(n * Pow2(q), m * Pow2(p) * d, Pow2(f.down));
    assert (n * Pow2(q)) * Pow2(f.down) == N * Pow2(q) by {
      Regroup(n, Pow2(q), 1, Pow2(f.down));
      Regroup(n, Pow2(f.down), 1, Pow2(q));
    }
    MulMono(HALF * D, N, Pow2(q));
  }

  lemma CloserToGrid(n: nat, d: nat, m: nat, k: nat, c: nat)
    requires 2 * Distance(n, m * d) <= d
    ensures Distance(n, m * d) * c <= Distance(n * c, k * d * c)
  {
    CloseIsNearest(n, d, m, k);
    MulMono(Distance(n, m * d), Distance(n, k * d), c);
    DistanceScales(n, k * d, c);
  }

  lemma SignificandInRange(n: nat, d: nat)
    requires d > 0 && HALF * d <= n < FULL * d
    ensures HALF <= NearestEven(n, d) <= FULL
  {
    var q := n / d;
    DivIs(n, d);
    assert (q + 1) * d == q * d + d;
    MulCancel(HALF, q + 1, d);
    MulCancel(q, FULL, d);
  }
}
