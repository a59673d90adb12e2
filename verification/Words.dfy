/** Unsigned words as natural numbers: shifts, exclusive or, or, and their bit strings. */
module Words {
  import opened Arith

  /** A bit string, most significant bit first. */
  type Bits = seq<bool>

  function Xor(a: Bits, b: Bits): (r: Bits)
    requires |a| == |b|
    ensures |r| == |a|
  {
    seq(|a|, i requires 0 <= i < |a| => a[i] != b[i])
  }

  function Pow2(k: nat): (r: nat)
    ensures r > 0
  {
    if k == 0 then 1 else 2 * Pow2(k - 1)
  }

  function BitXor(a: nat, b: nat): (r: nat)
    decreases a + b
  {
    if a == 0 && b == 0 then 0 else 2 * BitXor(a / 2, b / 2) + if a % 2 != b % 2 then 1 else 0
  }

  function BitOr(a: nat, b: nat): (r: nat)
    decreases a + b
  {
    if a == 0 && b == 0 then 0 else 2 * BitOr(a / 2, b / 2) + if a % 2 == 1 || b % 2 == 1 then 1 else 0
  }

  function Shr(v: nat, i: nat): (r: nat) {
    if i == 0 then v else Shr(v / 2, i - 1)
  }

  /** The low `k` bits of `v`, most significant first. */
  function ToBits(v: nat, k: nat): (r: Bits)
    ensures |r| == k
  {
    if k == 0 then [] else ToBits(v / 2, k - 1) + [v % 2 == 1]
  }

  lemma {:induction false} ToBitsXor(a: nat, b: nat, k: nat)
    ensures ToBits(BitXor(a, b), k) == Xor(ToBits(a, k), ToBits(b, k))
  {
    if k > 0 {
      var x := BitXor(a, b);
      assert x / 2 == BitXor(a / 2, b / 2) && (x % 2 == 1) == (a % 2 != b % 2);
      ToBitsXor(a / 2, b / 2, k - 1);
      assert Xor(ToBits(a, k), ToBits(b, k))
          == Xor(ToBits(a / 2, k - 1), ToBits(b / 2, k - 1)) + [(a % 2 == 1) != (b % 2 == 1)];
    }
  }

  lemma ToBitsDouble(v: nat, k: nat)
    requires k > 0
    ensures ToBits(2 * v, k) == ToBits(v, k - 1) + [false]
  {
  }

  /** The leading bit can be dropped. */
  lemma {:induction false} ToBitsTail(v: nat, k: nat)
    requires k > 0
    ensures ToBits(v, k)[1..] == ToBits(v, k - 1)
    ensures ToBits(v, k)[0] == (Shr(v, k - 1) % 2 == 1)
  {
    if k > 1 {
      ToBitsTail(v / 2, k - 1);
      assert ToBits(v, k)[1..] == ToBits(v / 2, k - 1)[1..] + [v % 2 == 1];
    }
  }

  /** Reducing modulo a higher power of two keeps the low bits. */
  lemma {:induction false} ToBitsMod(v: nat, m: nat, k: nat)
    requires k <= m
    ensures ToBits(v % Pow2(m), k) == ToBits(v, k)
  {
    if k > 0 {
      HalfMod(v, Pow2(m - 1));
      ToBitsMod(v / 2, m - 1, k - 1);
    }
  }

  lemma HalfMod(v: nat, p: nat)
    requires p > 0
    ensures (v % (2 * p)) / 2 == (v / 2) % p && (v % (2 * p)) % 2 == v % 2
    ensures v / 2 / p == v / (2 * p)
  {
    var q, r := v / (2 * p), v % (2 * p);
    assert v == 2 * (q * p) + r by { assert v == (2 * p) * q + r; assert (2 * p) * q == 2 * (q * p); }
    DivModUnique(v / 2, p, q, r / 2);
  }

  lemma {:induction false} ShrIsDiv(v: nat, i: nat)
    ensures Shr(v, i) == v / Pow2(i)
  {
    if i > 0 {
      ShrIsDiv(v / 2, i - 1);
      HalfMod(v, Pow2(i - 1));
    }
  }

  /** The low bits of a number are those of its lower part behind those of its upper part. */
  lemma {:induction false} ToBitsSplit(v: nat, k: nat, j: nat)
    ensures ToBits(v, k + j) == ToBits(Shr(v, j), k) + ToBits(v, j)
    decreases j
  {
    if j > 0 {
      ToBitsSplit(v / 2, k, j - 1);
    }
  }

  /** Numbers that agree in their low bits and above are equal. */
  lemma {:induction false} ToBitsInjective(a: nat, b: nat, j: nat)
    requires ToBits(a, j) == ToBits(b, j) && Shr(a, j) == Shr(b, j)
    ensures a == b
  {
    if j > 0 {
      assert ToBits(a, j)[j - 1] == ToBits(b, j)[j - 1];
      assert ToBits(a, j)[..j - 1] == ToBits(a / 2, j - 1) && ToBits(b, j)[..j - 1] == ToBits(b / 2, j - 1);
      ToBitsInjective(a / 2, b / 2, j - 1);
    }
  }

  /** Fields that do not overlap are combined by addition. */
  lemma {:induction false} OrIsSum(a: nat, k: nat, b: nat)
    requires b < Pow2(k)
    ensures BitOr(a * Pow2(k), b) == a * Pow2(k) + b
  {
    if k == 0 {
      OrZero(a);
    } else {
      var half := a * Pow2(k - 1);
      assert a * Pow2(k) == 2 * half;
      OrIsSum(a, k - 1, b / 2);
    }
  }

  lemma {:induction false} OrZero(a: nat)
    ensures BitOr(a, 0) == a
  {
    if a > 0 {
      OrZero(a / 2);
    }
  }
}
