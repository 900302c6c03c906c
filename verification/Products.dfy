/** The few facts about products and quotients of natural numbers that the block proofs use. */
module Products {

  lemma MulMono(a: nat, b: nat, c: nat)
    requires a <= b
    ensures a * c <= b * c
  {
  }

  lemma MulStep(a: nat, b: nat, d: nat)
    ensures a < b ==> a * d + d <= b * d
  {
    if a < b {
      MulMono(a + 1, b, d);
      assert (a + 1) * d == a * d + d;
    }
  }

  lemma MulCancel(a: nat, b: nat, c: nat)
    requires a * c < b * c
    ensures a < b
  {
  }

  lemma MulCancelLe(a: nat, b: nat, c: nat)
    requires c > 0 && a * c <= b * c
    ensures a <= b
  {
  }

  lemma Distribute(a: nat, b: nat, c: nat)
    ensures (a + b) * c == a * c + b * c
  {
  }

  lemma Assoc(a: nat, b: nat, c: nat)
    ensures (a * b) * c == a * (b * c)
  {
  }

  lemma Regroup(a: nat, b: nat, c: nat, e: nat)
    ensures (a * b * c) * e == (a * c) * (b * e)
  {
    assert a * b * c == a * c * b;
    Assoc(a * c, b, e);
  }

  lemma DivIs(n: nat, d: nat)
    requires d > 0
    ensures n == (n / d) * d + n % d && n % d < d
  {
  }

  /** Only one multiple of d lies in a stretch of d numbers. */
  lemma QuotientIs(n: nat, d: nat, q: nat)
    requires q * d <= n < q * d + d
    ensures n / d == q && n % d == n - q * d
  {
    DivIs(n, d);
    MulStep(n / d, q, d);
    MulStep(q, n / d, d);
  }
}
