/** Facts about products, quotients and remainders that several components share. */
module Arith {

  lemma MulMono(x: int, y: int, p: nat)
    requires x <= y
    ensures x * p <= y * p
  {
    assert (y - x) * p >= 0;
  }

  /** Quotient and remainder are determined by `a == q * p + r`. */
  lemma DivModUnique(a: int, p: nat, q: int, r: nat)
    requires r < p && a == q * p + r
    ensures a % p == r && a / p == q
  {
    var q', r' := a / p, a % p;
    assert a == p * q' + r';
    if q < q' {
      MulMono(q + 1, q', p);
    } else if q' < q {
      MulMono(q' + 1, q, p);
    }
  }

  lemma ModSmall(a: nat, p: nat)
    requires a < p
    ensures a % p == a && a / p == 0
  {
    DivModUnique(a, p, 0, a);
  }

  lemma ModAdd(a: int, k: int, p: nat)
    requires p > 0
    ensures (a + k * p) % p == a % p
    ensures (a + k * p) / p == a / p + k
  {
    DivModUnique(a + k * p, p, a / p + k, a % p);
  }

  lemma ModSucc(a: nat, p: nat)
    requires p > 0
    ensures (a + 1) % p == if a % p + 1 == p then 0 else a % p + 1
  {
    if a % p + 1 == p {
      DivModUnique(a + 1, p, a / p + 1, 0);
    } else {
      DivModUnique(a + 1, p, a / p, a % p + 1);
    }
  }

  /** The bytes of `k` regions of `size` bytes, which is where region `k` starts. */
  function Span(k: nat, size: nat): nat {
    if k == 0 then 0 else Span(k - 1, size) + size
  }

  lemma {:induction false} SpanIsProduct(k: nat, size: nat)
    ensures Span(k, size) == k * size
  {
    if k > 0 {
      SpanIsProduct(k - 1, size);
      assert k * size == (k - 1) * size + size;
    }
  }

  /** Region `k` ends before a later region starts. */
  lemma {:induction false} SpanApart(k: nat, l: nat, size: nat)
    requires k < l
    ensures Span(k, size) + size <= Span(l, size)
  {
    if k + 1 < l {
      SpanApart(k, l - 1, size);
    }
  }
}
