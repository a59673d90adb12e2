/** How many wrong bits the FlexRay header CRC always detects.  Strings of twenty bits with equal registers
    differ by a multiple of the generator, and every such multiple has at least six ones. */
module FlexRayDistance {
  import opened Words
  import opened FlexRayCrc
  import opened FlexRayHeader

  const HEADER_SIZE := 20

  // ---------------------------------------------------------------- the register is linear

  lemma StepXor(r1: Bits, b1: bool, r2: Bits, b2: bool)
    requires |r1| == |r2| == CRC_SIZE
    ensures Xor(Step(r1, b1), Step(r2, b2)) == Step(Xor(r1, r2), b1 != b2)
  {
  }

  lemma {:induction false} RegisterXor(r1: Bits, d1: Bits, r2: Bits, d2: Bits)
    requires |r1| == |r2| == CRC_SIZE && |d1| == |d2|
    ensures Xor(Register(r1, d1), Register(r2, d2)) == Register(Xor(r1, r2), Xor(d1, d2))
    decreases |d1|
  {
    if d1 != [] {
      StepXor(r1, d1[0], r2, d2[0]);
      RegisterXor(Step(r1, d1[0]), d1[1..], Step(r2, d2[0]), d2[1..]);
      assert Xor(d1, d2)[1..] == Xor(d1[1..], d2[1..]);
    }
  }

  lemma XorSelf(a: Bits)
    ensures Xor(a, a) == Zeros(|a|)
  {
  }

  /** Equal registers: the difference of the inputs leads from zero to zero. */
  lemma SameRegister(r: Bits, d1: Bits, d2: Bits)
    requires |r| == CRC_SIZE && |d1| == |d2|
    ensures Register(r, d1) == Register(r, d2) <==> Register(Zeros(CRC_SIZE), Xor(d1, d2)) == Zeros(CRC_SIZE)
  {
    RegisterXor(r, d1, r, d2);
    XorSelf(r);
    XorSelf(Register(r, d1));
    if Xor(Register(r, d1), Register(r, d2)) == Zeros(CRC_SIZE) {
      ZeroDifference(Register(r, d1), Register(r, d2));
    }
  }

  lemma ZeroDifference(a: Bits, b: Bits)
    requires |a| == |b| && Xor(a, b) == Zeros(|a|)
    ensures a == b
  {
    forall i | 0 <= i < |a|
      ensures a[i] == b[i]
    {
      assert Xor(a, b)[i] == Zeros(|a|)[i];
    }
  }

  // ---------------------------------------------------------------- multiples of the generator

  /** A factor x. */
  lemma {:induction false} TimesShift(q: Bits)
    ensures Times(q + [false]) == Times(q) + [false]
  {
    if q == [] {
      assert [false][1..] == [];
    } else {
      TimesShift(q[1..]);
      assert (q + [false])[1..] == q[1..] + [false];
    }
  }

  /** The constant term of a product is that of the factor. */
  lemma {:induction false} LastTerm(q: Bits, b: bool)
    ensures Times(q + [b])[|q| + CRC_SIZE] == b
  {
    if q == [] {
      assert [b][1..] == [];
    } else {
      LastTerm(q[1..], b);
      assert (q + [b])[1..] == q[1..] + [b];
    }
  }

  /** A product that ends with zeros has a factor that does. */
  lemma {:induction false} TrailingZeros(q: Bits, e: Bits, n: nat) returns (p: Bits)
    requires n <= |q| && Times(q) == e + Zeros(n)
    ensures |p| == |q| - n && Times(p) == e
    decreases n
  {
    p := q;
    if n > 0 {
      var front, last := q[..|q| - 1], q[|q| - 1];
      assert q == front + [last];
      LastTerm(front, last);
      assert !last;
      TimesShift(front);
      assert (e + Zeros(n))[..|e| + n - 1] == e + Zeros(n - 1);
      p := TrailingZeros(front, e, n - 1);
    } else {
      assert e + Zeros(0) == e;
    }
  }

  /** An input that leads from zero to zero is a multiple of the generator. */
  lemma ZeroRegisterIsMultiple(e: Bits) returns (q: Bits)
    requires |e| >= CRC_SIZE && Register(Zeros(CRC_SIZE), e) == Zeros(CRC_SIZE)
    ensures |q| == |e| - CRC_SIZE && Times(q) == e
  {
    var q1 := RegisterIsRemainder(Zeros(CRC_SIZE), e);
    var p := Dividend(Zeros(CRC_SIZE), e);
    assert p == e + Zeros(CRC_SIZE);
    assert p == Times(q1) by {
      assert Zeros(|q1|) + Zeros(CRC_SIZE) == Zeros(|p|);
    }
    q := TrailingZeros(q1, e, CRC_SIZE);
  }

  function At(q: Bits, j: int): bool {
    0 <= j < |q| && q[j]
  }

  /** The coefficients that the taps of the generator bring to place `i` of a product. */
  function Tapped(q: Bits, i: int): bool {
    At(q, i) != (At(q, i - 2) != (At(q, i - 3) != (At(q, i - 4) != (At(q, i - 9) != At(q, i - 11)))))
  }

  lemma AtTail(q: Bits, j: int)
    requires q != []
    ensures At(q, j) == if j == 0 then q[0] else At(q[1..], j - 1)
  {
  }

  lemma TappedStep(q: Bits, i: nat)
    requires q != [] && i > 0
    ensures Tapped(q, i) == ((q[0] && (i == 2 || i == 3 || i == 4 || i == 9 || i == 11)) != Tapped(q[1..], i - 1))
  {
    AtTail(q, i);
    AtTail(q, i - 2);
    AtTail(q, i - 3);
    AtTail(q, i - 4);
    AtTail(q, i - 9);
    AtTail(q, i - 11);
  }

  lemma TopAt(b: bool, n: nat, i: nat)
    requires 0 < i < n + CRC_SIZE && n > 0
    ensures Top(b, n)[i] == (b && (i == 2 || i == 3 || i == 4 || i == 9 || i == 11))
  {
  }

  /** One coefficient of a product. */
  lemma {:induction false} TimesAt(q: Bits, i: nat)
    requires i < |q| + CRC_SIZE
    ensures Times(q)[i] == Tapped(q, i)
  {
    if q != [] && i > 0 {
      TimesAt(q[1..], i - 1);
      TappedStep(q, i);
      TopAt(q[0], |q|, i);
    }
  }

  // ---------------------------------------------------------------- six ones

  function One(b: bool): nat {
    if b then 1 else 0
  }

  /** The number of ones. */
  function Ones(a: Bits): nat {
    if a == [] then 0 else One(a[0]) + Ones(a[1..])
  }

  lemma {:induction false} DistanceIsOnes(a: Bits, b: Bits)
    requires |a| == |b|
    ensures Distance(a, b) == Ones(Xor(a, b))
  {
    if a != [] {
      DistanceIsOnes(a[1..], b[1..]);
      assert Xor(a, b)[1..] == Xor(a[1..], b[1..]);
    }
  }

  /** The twenty coefficients of a multiple of the generator by a polynomial below degree nine. */
  lemma SixOnes(q0: bool, q1: bool, q2: bool, q3: bool, q4: bool, q5: bool, q6: bool, q7: bool, q8: bool)
    requires q0 || q1 || q2 || q3 || q4 || q5 || q6 || q7 || q8
    ensures One(q0) + One(q1) + One(q2 != q0) + One(q3 != (q1 != q0)) + One(q4 != (q2 != (q1 != q0)))
          + One(q5 != (q3 != (q2 != q1))) + One(q6 != (q4 != (q3 != q2))) + One(q7 != (q5 != (q4 != q3)))
          + One(q8 != (q6 != (q5 != q4))) + One(q7 != (q6 != (q5 != q0))) + One(q8 != (q7 != (q6 != q1)))
          + One(q8 != (q7 != (q2 != q0))) + One(q8 != (q3 != q1)) + One(q4 != q2) + One(q5 != q3)
          + One(q6 != q4) + One(q7 != q5) + One(q8 != q6) + One(q7) + One(q8) >= 6
  {
  }

  /** `e` consists of the coefficients of the product of `q` and the generator. */
  predicate IsProduct(q: Bits, e: Bits) {
    && |q| == 9 && |e| == HEADER_SIZE
    && e[0] == q[0] && e[1] == q[1] && e[2] == (q[2] != q[0]) && e[3] == (q[3] != (q[1] != q[0]))
    && e[4] == (q[4] != (q[2] != (q[1] != q[0]))) && e[5] == (q[5] != (q[3] != (q[2] != q[1])))
    && e[6] == (q[6] != (q[4] != (q[3] != q[2]))) && e[7] == (q[7] != (q[5] != (q[4] != q[3])))
    && e[8] == (q[8] != (q[6] != (q[5] != q[4]))) && e[9] == (q[7] != (q[6] != (q[5] != q[0])))
    && e[10] == (q[8] != (q[7] != (q[6] != q[1]))) && e[11] == (q[8] != (q[7] != (q[2] != q[0])))
    && e[12] == (q[8] != (q[3] != q[1])) && e[13] == (q[4] != q[2]) && e[14] == (q[5] != q[3])
    && e[15] == (q[6] != q[4]) && e[16] == (q[7] != q[5]) && e[17] == (q[8] != q[6]) && e[18] == q[7] && e[19] == q[8]
  }

  lemma TappedIsProduct(q: Bits, e: Bits)
    requires |q| == 9 && |e| == HEADER_SIZE && forall i | 0 <= i < HEADER_SIZE :: e[i] == Tapped(q, i)
    ensures IsProduct(q, e)
  {
  }

  lemma TimesNine(q: Bits)
    requires |q| == 9
    ensures IsProduct(q, Times(q))
  {
    forall i | 0 <= i < HEADER_SIZE
      ensures Times(q)[i] == Tapped(q, i)
    {
      TimesAt(q, i);
    }
    TappedIsProduct(q, Times(q));
  }

  lemma OnesFrom(a: Bits, i: nat)
    requires i < |a|
    ensures Ones(a[i..]) == One(a[i]) + Ones(a[i + 1..])
  {
    assert a[i..][1..] == a[i + 1..];
  }

  lemma FourOnes(a: Bits, i: nat)
    requires i + 4 <= |a|
    ensures Ones(a[i..]) == One(a[i]) + One(a[i + 1]) + One(a[i + 2]) + One(a[i + 3]) + Ones(a[i + 4..])
  {
    OnesFrom(a, i);
    OnesFrom(a, i + 1);
    OnesFrom(a, i + 2);
    OnesFrom(a, i + 3);
  }

  lemma OnesTwenty(e: Bits)
    requires |e| == HEADER_SIZE
    ensures Ones(e) == One(e[0]) + One(e[1]) + One(e[2]) + One(e[3]) + One(e[4]) + One(e[5]) + One(e[6]) + One(e[7])
      + One(e[8]) + One(e[9]) + One(e[10]) + One(e[11]) + One(e[12]) + One(e[13]) + One(e[14]) + One(e[15])
      + One(e[16]) + One(e[17]) + One(e[18]) + One(e[19])
  {
    FourOnes(e, 0);
    FourOnes(e, 4);
    FourOnes(e, 8);
    FourOnes(e, 12);
    FourOnes(e, 16);
    assert e[0..] == e && e[20..] == [];
  }

  lemma {:induction false} NoOnes(a: Bits)
    requires forall i | 0 <= i < |a| :: !a[i]
    ensures Ones(a) == 0
  {
    if a != [] {
      NoOnes(a[1..]);
    }
  }

  lemma ProductIsHeavy(q: Bits, e: Bits)
    requires IsProduct(q, e) && Ones(e) > 0
    ensures Ones(e) >= 6
  {
    OnesTwenty(e);
    if q[0] || q[1] || q[2] || q[3] || q[4] || q[5] || q[6] || q[7] || q[8] {
      SixOnes(q[0], q[1], q[2], q[3], q[4], q[5], q[6], q[7], q[8]);
    }
  }

  // ---------------------------------------------------------------- shorter strings

  lemma {:induction false} ZerosStay(n: nat)
    ensures Register(Zeros(CRC_SIZE), Zeros(n)) == Zeros(CRC_SIZE)
  {
    if n > 0 {
      assert Step(Zeros(CRC_SIZE), false) == Zeros(CRC_SIZE) && Zeros(n)[1..] == Zeros(n - 1);
      ZerosStay(n - 1);
    }
  }

  lemma {:induction false} OnesAppend(a: Bits, b: Bits)
    ensures Ones(a + b) == Ones(a) + Ones(b)
  {
    if a == [] {
      assert a + b == b;
    } else {
      assert (a + b)[1..] == a[1..] + b;
      OnesAppend(a[1..], b);
    }
  }

  /** Zeros in front change neither the register nor the number of ones. */
  lemma ZerosInFront(n: nat, e: Bits)
    ensures Register(Zeros(CRC_SIZE), Zeros(n) + e) == Register(Zeros(CRC_SIZE), e)
    ensures Ones(Zeros(n) + e) == Ones(e)
  {
    RegisterAppend(Zeros(CRC_SIZE), Zeros(n), e);
    ZerosStay(n);
    OnesAppend(Zeros(n), e);
    NoOnes(Zeros(n));
  }

  // ---------------------------------------------------------------- the distance

  /** Strings of up to twenty bits that differ in one to five places have different registers. */
  lemma FewErrorsDetected(r: Bits, d1: Bits, d2: Bits)
    requires |r| == CRC_SIZE && |d1| == |d2| <= HEADER_SIZE && 1 <= Distance(d1, d2) <= 5
    ensures Register(r, d1) != Register(r, d2)
  {
    if Register(r, d1) == Register(r, d2) {
      var e := Xor(d1, d2);
      var n := HEADER_SIZE - |e|;
      SameRegister(r, d1, d2);
      DistanceIsOnes(d1, d2);
      ZerosInFront(n, e);
      var q := ZeroRegisterIsMultiple(Zeros(n) + e);
      TimesNine(q);
      ProductIsHeavy(q, Times(q));
    }
  }

  /** The generator itself. */
  const GENERATOR: Bits := [true] + TAPS

  lemma GeneratorOnes()
    ensures Ones(GENERATOR) == 6
  {
    OnesTwelve(GENERATOR);
  }

  lemma OnesTwelve(g: Bits)
    requires |g| == 12
    ensures Ones(g) == One(g[0]) + One(g[1]) + One(g[2]) + One(g[3]) + One(g[4]) + One(g[5]) + One(g[6]) + One(g[7])
      + One(g[8]) + One(g[9]) + One(g[10]) + One(g[11])
  {
    FourOnes(g, 0);
    FourOnes(g, 4);
    FourOnes(g, 8);
    assert g[0..] == g && g[12..] == [];
  }

  /** A register that meets its own bits is cleared. */
  lemma {:induction false} ShiftedOut(r: Bits, data: Bits)
    requires |r| == CRC_SIZE && |data| <= CRC_SIZE && forall i | 0 <= i < CRC_SIZE :: r[i] == (i < |data| && data[i])
    ensures Register(r, data) == Zeros(CRC_SIZE)
    decreases |data|
  {
    if data == [] {
      assert r == Zeros(CRC_SIZE);
    } else {
      ShiftedOut(Step(r, data[0]), data[1..]);
    }
  }

  /** The leading one of the generator sets the taps in a zero register, the rest clears them. */
  lemma GeneratorIsZero()
    ensures Register(Zeros(CRC_SIZE), GENERATOR) == Zeros(CRC_SIZE)
  {
    assert GENERATOR[0] && GENERATOR[1..] == TAPS && Step(Zeros(CRC_SIZE), true) == TAPS;
    ShiftedOut(TAPS, TAPS);
  }

  /** Six is exact: every string of at least twelve bits has one with the same register six places away. */
  lemma SixErrorsMissed(r: Bits, d: Bits) returns (d': Bits)
    requires |r| == CRC_SIZE && |d| >= |GENERATOR|
    ensures d' == Xor(d, Zeros(|d| - |GENERATOR|) + GENERATOR)
    ensures Distance(d, d') == 6 && Register(r, d') == Register(r, d)
  {
    var e := Zeros(|d| - |GENERATOR|) + GENERATOR;
    d' := Xor(d, e);
    assert Xor(d, d') == e;
    GeneratorIsZero();
    GeneratorOnes();
    ZerosInFront(|d| - |GENERATOR|, GENERATOR);
    DistanceIsOnes(d, d');
    SameRegister(r, d, d');
  }

  // ---------------------------------------------------------------- the header word

  /** Header words that differ in one to five of their twenty bits have different CRCs. */
  lemma HeaderErrorsDetected(a: nat, b: nat)
    requires 1 <= Distance(ToBits(a, HEADER_SIZE), ToBits(b, HEADER_SIZE)) <= 5
    ensures HeaderCrc(a) != HeaderCrc(b)
  {
    var _ := HeaderCrcIsRemainder(a);
    var _ := HeaderCrcIsRemainder(b);
    FewErrorsDetected(INIT, ToBits(a, HEADER_SIZE), ToBits(b, HEADER_SIZE));
  }

  /** The generator as a word: changing those six bits never changes the CRC. */
  const GENERATOR_WORD := 0xB85

  lemma {:induction false} ZeroBits(k: nat)
    ensures ToBits(0, k) == Zeros(k)
  {
    if k > 0 {
      ZeroBits(k - 1);
    }
  }

  lemma GeneratorParts()
    ensures ToBits(GENERATOR_WORD, HEADER_SIZE) == ToBits(1, 9) + ToBits(0x385, CRC_SIZE)
  {
    Powers();
    ShrIsDiv(GENERATOR_WORD, 11);
    ToBitsSplit(GENERATOR_WORD, 9, 11);
    ToBitsMod(GENERATOR_WORD, 11, CRC_SIZE);
  }

  lemma GeneratorBits()
    ensures ToBits(GENERATOR_WORD, HEADER_SIZE) == Zeros(8) + GENERATOR
  {
    GeneratorParts();
    ConstantBits();
    SingleBit(8);
    Regroup(Zeros(8), [true], TAPS);
  }

  lemma SingleBit(k: nat)
    ensures ToBits(1, k + 1) == Zeros(k) + [true]
  {
    ZeroBits(k);
    LastBit(1, k + 1);
  }

  lemma Regroup(a: Bits, b: Bits, c: Bits)
    ensures a + b + c == a + (b + c)
  {
  }

  lemma LastBit(v: nat, k: nat)
    requires k > 0
    ensures ToBits(v, k) == ToBits(v / 2, k - 1) + [v % 2 == 1]
  {
  }

  lemma HeaderErrorMissed(a: nat)
    ensures var b := BitXor(a, GENERATOR_WORD);
      Distance(ToBits(a, HEADER_SIZE), ToBits(b, HEADER_SIZE)) == 6 && HeaderCrc(b) == HeaderCrc(a)
  {
    var b := BitXor(a, GENERATOR_WORD);
    var d := ToBits(a, HEADER_SIZE);
    ToBitsXor(a, GENERATOR_WORD, HEADER_SIZE);
    GeneratorBits();
    var d' := SixErrorsMissed(INIT, d);
    SameCrc(a, b);
  }

  lemma SameCrc(a: nat, b: nat)
    requires Register(INIT, ToBits(a, HEADER_SIZE)) == Register(INIT, ToBits(b, HEADER_SIZE))
    ensures HeaderCrc(a) == HeaderCrc(b)
  {
    var _ := HeaderCrcIsRemainder(a);
    var _ := HeaderCrcIsRemainder(b);
    Powers();
    ShrIsDiv(HeaderCrc(a), CRC_SIZE);
    ShrIsDiv(HeaderCrc(b), CRC_SIZE);
    ToBitsInjective(HeaderCrc(a), HeaderCrc(b), CRC_SIZE);
  }
}
