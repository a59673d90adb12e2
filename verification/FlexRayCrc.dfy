/** The FlexRay header CRC (section 4.5 of the FlexRay Protocol Specification): the bit-serial
    register of the driver, the polynomial division it computes, and what it detects.  A bit string is
    read as a polynomial over GF(2) when convenient. */
module FlexRayCrc {
  import opened Words

  const CRC_SIZE := 11

  /** x^9 + x^8 + x^7 + x^2 + 1: the generator 0x385 without its leading x^11. */
  const TAPS: Bits := [false, true, true, true, false, false, false, false, true, false, true]

  /** The start value 0x1A. */
  const INIT: Bits := [false, false, false, false, false, false, true, true, false, true, false]

  function Zeros(n: nat): (r: Bits)
    ensures |r| == n
  {
    seq(n, _ => false)
  }

  /** One step of the shift register. */
  function Step(r: Bits, bit: bool): (r': Bits)
    requires |r| == CRC_SIZE
    ensures |r'| == CRC_SIZE
  {
    var shifted := r[1..] + [false];
    if bit != r[0] then Xor(shifted, TAPS) else shifted
  }

  /** The register after shifting in `data`. */
  function Register(r: Bits, data: Bits): (r': Bits)
    requires |r| == CRC_SIZE
    ensures |r'| == CRC_SIZE
    decreases |data|
  {
    if data == [] then r else Register(Step(r, data[0]), data[1..])
  }

  // ---------------------------------------------------------------- polynomial division

  /** A coefficient times the generator, shifted to the top of a product with `n` quotient bits. */
  function Top(b: bool, n: nat): (r: Bits)
    requires n > 0
    ensures |r| == n + CRC_SIZE
  {
    if b then [true] + TAPS + Zeros(n - 1) else Zeros(n + CRC_SIZE)
  }

  /** The product of `q` and the generator, by schoolbook multiplication. */
  function Times(q: Bits): (r: Bits)
    ensures |r| == |q| + CRC_SIZE
  {
    if q == [] then Zeros(CRC_SIZE)
    else Xor(Top(q[0], |q|), [false] + Times(q[1..]))
  }

  /** `p` is `q` times the generator plus `rem`. */
  predicate Divides(p: Bits, q: Bits, rem: Bits) {
    |rem| == CRC_SIZE && |p| == |q| + CRC_SIZE && p == Xor(Times(q), Zeros(|q|) + rem)
  }

  /** The polynomial r * x^n + data * x^11, where n is the number of data bits. */
  function Dividend(r: Bits, data: Bits): (p: Bits)
    requires |r| == CRC_SIZE
    ensures |p| == |data| + CRC_SIZE
  {
    Xor(r + Zeros(|data|), data + Zeros(CRC_SIZE))
  }

  /** The register holds the remainder of the division of the dividend by the generator, for bit
      strings of every length. */
  lemma {:induction false} RegisterIsRemainder(r: Bits, data: Bits) returns (q: Bits)
    requires |r| == CRC_SIZE
    ensures |q| == |data| && Divides(Dividend(r, data), q, Register(r, data))
    decreases |data|
  {
    if data == [] {
      q := [];
      assert Dividend(r, data) == r == Xor(Times(q), Zeros(0) + r);
    } else {
      var rest := data[1..];
      var r1 := Step(r, data[0]);
      var q1 := RegisterIsRemainder(r1, rest);
      q := [data[0] != r[0]] + q1;
      assert q[1..] == q1;
      assert Dividend(r, data) == Xor(Times(q), Zeros(|q|) + Register(r1, rest)) by {
        LeadingStep(r, data, q1);
      }
    }
  }

  /** Cancelling the leading coefficient of the dividend is one register step. */
  lemma LeadingStep(r: Bits, data: Bits, q1: Bits)
    requires |r| == CRC_SIZE && data != [] && |q1| == |data| - 1
    requires Divides(Dividend(Step(r, data[0]), data[1..]), q1, Register(Step(r, data[0]), data[1..]))
    ensures var q := [data[0] != r[0]] + q1;
      Dividend(r, data) == Xor(Times(q), Zeros(|q|) + Register(r, data))
  {
    var n := |data|;
    var q := [data[0] != r[0]] + q1;
    assert q[1..] == q1;
    var lower := Dividend(Step(r, data[0]), data[1..]);
    var rem := Register(r, data);
    assert Times(q) == Xor(Top(q[0], n), [false] + Times(q1));
    forall i | 0 <= i < n + CRC_SIZE
      ensures Dividend(r, data)[i] == Xor(Times(q), Zeros(n) + rem)[i]
    {
      if i > 0 {
        assert lower[i - 1] == (Times(q1)[i - 1] != (Zeros(n - 1) + rem)[i - 1]);
        assert (Zeros(n) + rem)[i] == (Zeros(n - 1) + rem)[i - 1];
        LowerBit(r, data, i);
      }
    }
  }

  /** Below its leading coefficient, the dividend differs from the next one exactly by the taps. */
  lemma LowerBit(r: Bits, data: Bits, i: nat)
    requires |r| == CRC_SIZE && data != [] && 0 < i < |data| + CRC_SIZE
    ensures Dividend(r, data)[i]
         == (Top(data[0] != r[0], |data|)[i] != Dividend(Step(r, data[0]), data[1..])[i - 1])
  {
    var r1 := Step(r, data[0]);
    var n := |data|;
    assert (data + Zeros(CRC_SIZE))[i] == (data[1..] + Zeros(CRC_SIZE))[i - 1];
    if i < CRC_SIZE {
      assert (r1 + Zeros(n - 1))[i - 1] == r1[i - 1];
      assert (r + Zeros(n))[i] == r[i] == (r[1..] + [false])[i - 1];
    } else if i == CRC_SIZE {
      assert (r1 + Zeros(n - 1))[i - 1] == r1[i - 1];
    }
  }

  /** The leading coefficients of dividend and quotient agree; without them the rest divides. */
  lemma WithoutLeading(p: Bits, q: Bits, rem: Bits)
    requires q != [] && Divides(p, q, rem)
    ensures p[0] == q[0] && Divides(Xor(p, Top(q[0], |q|))[1..], q[1..], rem)
  {
    var n := |q|;
    var lower := Xor(p, Top(q[0], n))[1..];
    forall i | 0 <= i < n - 1 + CRC_SIZE
      ensures lower[i] == Xor(Times(q[1..]), Zeros(n - 1) + rem)[i]
    {
      assert (Zeros(n) + rem)[i + 1] == (Zeros(n - 1) + rem)[i];
      assert p[i + 1] == (Times(q)[i + 1] != (Zeros(n) + rem)[i + 1]);
    }
  }

  /** Quotient and remainder are unique, so the register's value is the remainder. */
  lemma {:induction false} RemainderIsUnique(p: Bits, q1: Bits, rem1: Bits, q2: Bits, rem2: Bits)
    requires Divides(p, q1, rem1) && Divides(p, q2, rem2)
    ensures q1 == q2 && rem1 == rem2
    decreases |q1|
  {
    if q1 == [] {
      forall i | 0 <= i < CRC_SIZE
        ensures rem1[i] == rem2[i]
      {
        assert p[i] == (Times(q1)[i] != (Zeros(0) + rem1)[i]);
        assert p[i] == (Times(q2)[i] != (Zeros(0) + rem2)[i]);
      }
    } else {
      WithoutLeading(p, q1, rem1);
      WithoutLeading(p, q2, rem2);
      RemainderIsUnique(Xor(p, Top(q1[0], |q1|))[1..], q1[1..], rem1, q2[1..], rem2);
      assert q1 == [q1[0]] + q1[1..] && q2 == [q2[0]] + q2[1..];
    }
  }

  // ---------------------------------------------------------------- what the CRC detects

  /** Two registers that agree after the same bit agreed before it. */
  lemma StepInjective(r1: Bits, r2: Bits, bit: bool)
    requires |r1| == |r2| == CRC_SIZE && Step(r1, bit) == Step(r2, bit)
    ensures r1 == r2
  {
    StepBack(r1, bit, r2, bit);
    forall i | 0 <= i < CRC_SIZE
      ensures r1[i] == r2[i]
    {
      if i > 0 {
        assert (r1[(i - 1) + 1] != r2[(i - 1) + 1]) == (Step(r1, bit)[i - 1] != Step(r2, bit)[i - 1]);
      }
    }
  }

  /** The last bit of the new register tells whether the taps were applied. */
  lemma StepBack(r1: Bits, b1: bool, r2: Bits, b2: bool)
    requires |r1| == |r2| == CRC_SIZE
    requires Step(r1, b1)[10] == Step(r2, b2)[10]
    ensures (b1 != r1[0]) == (b2 != r2[0])
    ensures forall i :: 0 <= i < 10 ==> (r1[i + 1] != r2[i + 1]) == (Step(r1, b1)[i] != Step(r2, b2)[i])
  {
  }

  lemma {:induction false} RegisterInjective(r1: Bits, r2: Bits, data: Bits)
    requires |r1| == |r2| == CRC_SIZE && Register(r1, data) == Register(r2, data)
    ensures r1 == r2
    decreases |data|
  {
    if data != [] {
      RegisterInjective(Step(r1, data[0]), Step(r2, data[0]), data[1..]);
      StepInjective(r1, r2, data[0]);
    }
  }

  lemma {:induction false} RegisterAppend(r: Bits, a: Bits, b: Bits)
    requires |r| == CRC_SIZE
    ensures Register(r, a + b) == Register(Register(r, a), b)
    decreases |a|
  {
    if a == [] {
      assert a + b == b;
    } else {
      assert (a + b)[1..] == a[1..] + b;
      RegisterAppend(Step(r, a[0]), a[1..], b);
    }
  }

  /** At most eleven bits that lead to equal registers differ exactly as the registers did before. */
  lemma {:induction false} ShortInputs(r1: Bits, e1: Bits, r2: Bits, e2: Bits)
    requires |r1| == |r2| == CRC_SIZE && |e1| == |e2| <= CRC_SIZE
    requires Register(r1, e1) == Register(r2, e2)
    ensures forall i :: 0 <= i < |e1| ==> (r1[i] != r2[i]) == (e1[i] != e2[i])
    ensures forall i :: |e1| <= i < CRC_SIZE ==> r1[i] == r2[i]
    decreases |e1|
  {
    if e1 != [] {
      var s1, s2 := Step(r1, e1[0]), Step(r2, e2[0]);
      ShortInputs(s1, e1[1..], s2, e2[1..]);
      StepBack(r1, e1[0], r2, e2[0]);
      forall i | 0 <= i < |e1|
        ensures (r1[i] != r2[i]) == (e1[i] != e2[i])
      {
        if i > 0 {
          assert e1[1..][i - 1] == e1[i] && e2[1..][i - 1] == e2[i];
          assert (s1[i - 1] != s2[i - 1]) == (r1[i] != r2[i]);
        }
      }
      forall i | |e1| <= i < CRC_SIZE
        ensures r1[i] == r2[i]
      {
        assert s1[i - 1] == s2[i - 1];
      }
    }
  }

  /** Every burst is detected: bit strings that differ only inside a window of eleven bits, and do
      differ, have different registers. */
  lemma BurstDetected(r: Bits, before: Bits, e1: Bits, e2: Bits, after: Bits)
    requires |r| == CRC_SIZE && |e1| == |e2| <= CRC_SIZE && e1 != e2
    ensures Register(r, before + e1 + after) != Register(r, before + e2 + after)
  {
    var s := Register(r, before);
    RegisterAppend(r, before, e1);
    RegisterAppend(r, before, e2);
    ShortWindow(s, e1, e2);
    SplitEnd(r, before + e1, before + e2, after);
  }

  lemma ShortWindow(s: Bits, e1: Bits, e2: Bits)
    requires |s| == CRC_SIZE && |e1| == |e2| <= CRC_SIZE && e1 != e2
    ensures Register(s, e1) != Register(s, e2)
  {
    if Register(s, e1) == Register(s, e2) {
      ShortInputs(s, e1, s, e2);
    }
  }

  /** Equal further bits cannot hide a difference. */
  lemma SplitEnd(r: Bits, d1: Bits, d2: Bits, after: Bits)
    requires |r| == CRC_SIZE && Register(r, d1) != Register(r, d2)
    ensures Register(r, d1 + after) != Register(r, d2 + after)
  {
    RegisterAppend(r, d1, after);
    RegisterAppend(r, d2, after);
    if Register(r, d1 + after) == Register(r, d2 + after) {
      RegisterInjective(Register(r, d1), Register(r, d2), after);
    }
  }

  /** Whether the number of ones is odd. */
  function Odd(a: Bits): bool {
    if a == [] then false else a[0] != Odd(a[1..])
  }

  /** Positions in which two strings differ. */
  function Distance(a: Bits, b: Bits): nat
    requires |a| == |b|
  {
    if a == [] then 0 else (if a[0] != b[0] then 1 else 0) + Distance(a[1..], b[1..])
  }

  lemma {:induction false} OddDistance(a: Bits, b: Bits)
    requires |a| == |b|
    ensures (Odd(a) != Odd(b)) == (Distance(a, b) % 2 == 1)
  {
    if a != [] {
      OddDistance(a[1..], b[1..]);
    }
  }

  lemma {:induction false} OddXor(a: Bits, b: Bits)
    requires |a| == |b|
    ensures Odd(Xor(a, b)) == (Odd(a) != Odd(b))
  {
    if a != [] {
      OddXor(a[1..], b[1..]);
      assert Xor(a, b)[1..] == Xor(a[1..], b[1..]);
    }
  }

  lemma {:induction false} OddAppend(a: Bits, bit: bool)
    ensures Odd(a + [bit]) == (Odd(a) != bit)
  {
    if a == [] {
      assert [bit][1..] == [];
    } else {
      OddAppend(a[1..], bit);
      assert (a + [bit])[1..] == a[1..] + [bit];
    }
  }

  lemma OddFrom(a: Bits, i: nat)
    requires i < |a|
    ensures Odd(a[i..]) == (a[i] != Odd(a[i + 1..]))
  {
    assert a[i..][1..] == a[i + 1..];
  }

  lemma OddTaps()
    ensures Odd(TAPS)
  {
    OddFrom(TAPS, 10); OddFrom(TAPS, 9); OddFrom(TAPS, 8); OddFrom(TAPS, 7); OddFrom(TAPS, 6); OddFrom(TAPS, 5);
    OddFrom(TAPS, 4); OddFrom(TAPS, 3); OddFrom(TAPS, 2); OddFrom(TAPS, 1); OddFrom(TAPS, 0);
    assert TAPS[0..] == TAPS;
  }

  /** Each step changes the parity of the register by exactly the input bit. */
  lemma StepParity(r: Bits, bit: bool)
    requires |r| == CRC_SIZE
    ensures Odd(Step(r, bit)) == (Odd(r) != bit)
  {
    OddAppend(r[1..], false);
    OddXor(r[1..] + [false], TAPS);
    OddTaps();
  }

  lemma {:induction false} RegisterParity(r: Bits, data: Bits)
    requires |r| == CRC_SIZE
    ensures Odd(Register(r, data)) == (Odd(r) != Odd(data))
    decreases |data|
  {
    if data != [] {
      StepParity(r, data[0]);
      RegisterParity(Step(r, data[0]), data[1..]);
    }
  }

  /** Every odd number of wrong bits is detected. */
  lemma OddErrorDetected(r: Bits, d1: Bits, d2: Bits)
    requires |r| == CRC_SIZE && |d1| == |d2| && Distance(d1, d2) % 2 == 1
    ensures Register(r, d1) != Register(r, d2)
  {
    OddDistance(d1, d2);
    RegisterParity(r, d1);
    RegisterParity(r, d2);
  }
}
