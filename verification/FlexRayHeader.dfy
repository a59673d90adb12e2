/** getHeaderCrc on 32-bit words: the unmasked register, the packed header word, and how the
    computed value relates to polynomial division. */
module FlexRayHeader {
  import opened Arith
  import opened Common
  import opened FlexRayCrc
  import opened Words

  // ---------------------------------------------------------------- the register

  /** The loop body of getHeaderCrc: a 32-bit register of which only the low eleven bits matter. */
  function RegStep(reg: nat, nextBit: nat): (r: nat) {
    var shifted := (2 * reg) % U32;
    if nextBit % 2 != Shr(reg, 10) % 2 then BitXor(shifted, 0x385) else shifted
  }

  lemma {:induction false} Pow2Sum(a: nat, b: nat)
    ensures Pow2(a + b) == Pow2(a) * Pow2(b)
  {
    if a > 0 {
      Pow2Sum(a - 1, b);
    }
  }

  lemma Powers()
    ensures Pow2(7) == 0x80 && Pow2(11) == 0x800 && Pow2(18) == 0x4_0000 && Pow2(19) == 0x8_0000
    ensures Pow2(32) == U32
  {
    assert Pow2(1) == 2 && Pow2(2) == 4;
    Pow2Sum(2, 2); Pow2Sum(2, 1); Pow2Sum(4, 3); Pow2Sum(7, 4); Pow2Sum(7, 7); Pow2Sum(14, 4); Pow2Sum(18, 1);
    Pow2Sum(18, 14);
  }

  lemma ConstantBits()
    ensures ToBits(0x385, CRC_SIZE) == TAPS && ToBits(0x1A, CRC_SIZE) == INIT
  {
    TapBits();
    StartBits();
  }

  lemma TapBits()
    ensures ToBits(0x385, CRC_SIZE) == TAPS
  {
    assert ToBits(0, 1) == [false];
    assert ToBits(1, 2) == [false, true];
    assert ToBits(3, 3) == [false, true, true];
    assert ToBits(7, 4) == [false, true, true, true];
    assert ToBits(14, 5) == [false, true, true, true, false];
    assert ToBits(28, 6) == [false, true, true, true, false, false];
    assert ToBits(56, 7) == [false, true, true, true, false, false, false];
    assert ToBits(112, 8) == [false, true, true, true, false, false, false, false];
    assert ToBits(225, 9) == [false, true, true, true, false, false, false, false, true];
    assert ToBits(450, 10) == [false, true, true, true, false, false, false, false, true, false];
  }

  lemma StartBits()
    ensures ToBits(0x1A, CRC_SIZE) == INIT
  {
    assert ToBits(0, 6) == Zeros(6);
    assert ToBits(1, 7) == Zeros(6) + [true];
    assert ToBits(3, 8) == Zeros(6) + [true, true];
    assert ToBits(6, 9) == Zeros(6) + [true, true, false];
    assert ToBits(13, 10) == Zeros(6) + [true, true, false, true];
  }

  /** Doubling a 32-bit word shifts its low bits up. */
  lemma ShiftedBits(reg: nat, k: nat)
    requires 0 < k <= 32
    ensures ToBits((2 * reg) % U32, k) == ToBits(reg, k)[1..] + [false]
    ensures ToBits(reg, k)[0] == (Shr(reg, k - 1) % 2 == 1)
  {
    Powers();
    ToBitsMod(2 * reg, 32, k);
    ToBitsDouble(reg, k);
    ToBitsTail(reg, k);
  }

  /** One loop iteration is one step of the eleven-bit register, whatever the upper bits hold. */
  lemma RegStepIsStep(reg: nat, nextBit: nat)
    requires nextBit < 2
    ensures ToBits(RegStep(reg, nextBit), CRC_SIZE) == Step(ToBits(reg, CRC_SIZE), nextBit == 1)
  {
    ShiftedBits(reg, CRC_SIZE);
    TapBits();
    ToBitsXor((2 * reg) % U32, 0x385, CRC_SIZE);
  }

  /** The unmasked register after shifting in `bits`. */
  function RegAfter(reg: nat, bits: Bits): (r: nat)
    decreases |bits|
  {
    if bits == [] then reg else RegAfter(RegStep(reg, if bits[0] then 1 else 0), bits[1..])
  }

  /** For bit strings of every length, the low bits of the unmasked register hold the remainder of
      0x1A * x^n + data * x^11 by the generator. */
  lemma UnmaskedRegister(bits: Bits) returns (q: Bits)
    ensures Divides(Dividend(INIT, bits), q, ToBits(RegAfter(0x1A, bits), CRC_SIZE))
  {
    RegAfterIsRegister(0x1A, bits);
    ConstantBits();
    q := RegisterIsRemainder(INIT, bits);
  }

  lemma {:induction false} RegAfterIsRegister(reg: nat, bits: Bits)
    ensures ToBits(RegAfter(reg, bits), CRC_SIZE) == Register(ToBits(reg, CRC_SIZE), bits)
    decreases |bits|
  {
    if bits != [] {
      var b := if bits[0] then 1 else 0;
      RegStepIsStep(reg, b);
      RegAfterIsRegister(RegStep(reg, b), bits[1..]);
    }
  }

  lemma {:induction false} RegAfterAppend(reg: nat, bits: Bits, bit: bool)
    ensures RegAfter(reg, bits + [bit]) == RegStep(RegAfter(reg, bits), if bit then 1 else 0)
    decreases |bits|
  {
    if bits == [] {
      assert [bit][1..] == [];
    } else {
      assert (bits + [bit])[1..] == bits[1..] + [bit];
      RegAfterAppend(RegStep(reg, if bits[0] then 1 else 0), bits[1..], bit);
    }
  }

  /** The CRC of a header word. */
  function HeaderCrc(data: nat): (crc: nat) {
    RegAfter(0x1A, ToBits(data, 20)) % 0x800
  }

  lemma {:induction false} FirstBits(data: nat, n: nat, i: nat)
    requires i < n
    ensures ToBits(data, n)[n - 1 - i] == (Shr(data, i) % 2 == 1)
    decreases i
  {
    if i > 0 {
      FirstBits(data / 2, n - 1, i - 1);
    }
  }

  /** Shifting in bit `i` of the data word, from the top. */
  lemma NextBit(start: nat, data: nat, n: nat, i: nat)
    requires i < n
    ensures RegAfter(start, ToBits(data, n)[..n - i])
         == RegStep(RegAfter(start, ToBits(data, n)[..n - 1 - i]), Shr(data, i) % 2)
  {
    var bits, bit := ToBits(data, n), Shr(data, i) % 2 == 1;
    FirstBits(data, n, i);
    RegAfterAppend(start, bits[..n - 1 - i], bit);
    assert bits[..n - i] == bits[..n - 1 - i] + [bit];
  }

  /** getHeaderCrc from its data word on. */
  method ComputeCrc(data: nat) returns (crc: nat)
    ensures crc == HeaderCrc(data)
  {
    ghost var bits := ToBits(data, 20);
    var reg := 0x1A;
    var i := 19;
    while i >= 0
      invariant -1 <= i <= 19
      invariant reg == RegAfter(0x1A, bits[..19 - i])
    {
      var nextBit := Shr(data, i) % 2;
      NextBit(0x1A, data, 20, i);
      reg := RegStep(reg, nextBit);
      i := i - 1;
    }
    assert bits[..20] == bits;
    crc := reg % 0x800;
  }

  /** The value of getHeaderCrc has eleven bits, and they are the remainder for the header word. */
  lemma HeaderCrcIsRemainder(data: nat) returns (q: Bits)
    ensures HeaderCrc(data) < 0x800
    ensures ToBits(HeaderCrc(data), CRC_SIZE) == Register(INIT, ToBits(data, 20))
    ensures Divides(Dividend(INIT, ToBits(data, 20)), q, ToBits(HeaderCrc(data), CRC_SIZE))
  {
    var bits := ToBits(data, 20);
    q := UnmaskedRegister(bits);
    RegAfterIsRegister(0x1A, bits);
    ConstantBits();
    Powers();
    ToBitsMod(RegAfter(0x1A, bits), 11, CRC_SIZE);
  }

  // ---------------------------------------------------------------- the header word

  /** What the CRC covers: sync and startup indicator, frame id, payload length in words. */
  datatype Fields = Fields(sync: bool, startup: bool, id: nat, length: nat)

  function Flag(b: bool): nat {
    if b then 1 else 0
  }

  predicate Sized(f: Fields) {
    f.id < 0x800 && f.length < 0x80
  }

  /** The header word of fields of the right size. */
  function Word(f: Fields): (d: nat) {
    Flag(f.sync) * 0x8_0000 + Flag(f.startup) * 0x4_0000 + f.id * 0x80 + f.length
  }

  /** The header word as the driver builds it, with shifts and or. */
  function Pack(f: Fields): (d: nat) {
    BitOr(BitOr(BitOr(Flag(f.sync) * 0x8_0000, Flag(f.startup) * 0x4_0000), (f.id * 0x80) % U32), f.length)
  }

  function Unpack(d: nat): (f: Fields) {
    Fields((d / 0x8_0000) % 2 == 1, (d / 0x4_0000) % 2 == 1, (d / 0x80) % 0x800, d % 0x80)
  }

  lemma OrFlags(s: nat, t: nat)
    requires t < 2
    ensures BitOr(s * 0x8_0000, t * 0x4_0000) == (2 * s + t) * 0x4_0000
  {
    Powers();
    OrIsSum(s, 19, t * 0x4_0000);
  }

  lemma OrId(flags: nat, id: nat)
    requires id < 0x800
    ensures BitOr(flags * 0x4_0000, id * 0x80) == (flags * 0x800 + id) * 0x80
  {
    Powers();
    OrIsSum(flags, 18, id * 0x80);
  }

  lemma OrLength(upper: nat, length: nat)
    requires length < 0x80
    ensures BitOr(upper * 0x80, length) == upper * 0x80 + length
  {
    Powers();
    OrIsSum(upper, 7, length);
  }

  lemma OrFields(s: nat, t: nat, id: nat, length: nat)
    requires t < 2 && id < 0x800 && length < 0x80
    ensures BitOr(BitOr(BitOr(s * 0x8_0000, t * 0x4_0000), id * 0x80), length)
         == s * 0x8_0000 + t * 0x4_0000 + id * 0x80 + length
  {
    OrFlags(s, t);
    OrId(2 * s + t, id);
    OrLength((2 * s + t) * 0x800 + id, length);
  }

  /** Fields of the right size do not overlap: the or is a sum. */
  lemma PackIsWord(f: Fields)
    requires Sized(f)
    ensures Pack(f) == Word(f)
  {
    ModSmall(f.id * 0x80, U32);
    OrFields(Flag(f.sync), Flag(f.startup), f.id, f.length);
  }

  lemma WordParts(f: Fields)
    requires Sized(f)
    ensures Word(f) / 0x80 == Flag(f.sync) * 0x1000 + Flag(f.startup) * 0x800 + f.id
    ensures Unpack(Word(f)) == f
  {
    var s, t := Flag(f.sync), Flag(f.startup);
    DivModUnique(Word(f), 0x80, s * 0x1000 + t * 0x800 + f.id, f.length);
    DivModUnique(s * 0x1000 + t * 0x800 + f.id, 0x800, 2 * s + t, f.id);
    DivModUnique(Word(f), 0x4_0000, 2 * s + t, f.id * 0x80 + f.length);
    DivModUnique(Word(f), 0x8_0000, s, t * 0x4_0000 + f.id * 0x80 + f.length);
  }

  lemma UnpackSized(d: nat)
    ensures Sized(Unpack(d))
  {
  }

  /** The four packed fields can be read back exactly when the id has 11 bits and the length 7. */
  lemma PackRoundTrip(f: Fields)
    ensures Unpack(Pack(f)) == f <==> Sized(f)
  {
    UnpackSized(Pack(f));
    if Sized(f) {
      PackIsWord(f);
      WordParts(f);
    }
  }

  /** Words that differ only in their low seven bits have different CRCs. */
  lemma LowBitsChangeCrc(a: nat, b: nat)
    requires a != b && a / 0x80 == b / 0x80
    ensures HeaderCrc(a) != HeaderCrc(b)
  {
    Powers();
    ShrIsDiv(a, 7);
    ShrIsDiv(b, 7);
    var high, low, low' := ToBits(a / 0x80, 13), ToBits(a, 7), ToBits(b, 7);
    if low == low' {
      ToBitsInjective(a, b, 7);
    }
    ToBitsSplit(a, 13, 7);
    ToBitsSplit(b, 13, 7);
    assert ToBits(a, 20) == high + low + [] && ToBits(b, 20) == high + low' + [];
    BurstDetected(INIT, high, low, low', []);
    var _ := HeaderCrcIsRemainder(a);
    var _ := HeaderCrcIsRemainder(b);
  }

  /** A header whose length field alone is changed has a different CRC. */
  lemma LengthChangesCrc(f: Fields, length: nat)
    requires Sized(f) && length < 0x80 && length != f.length
    ensures HeaderCrc(Word(f)) != HeaderCrc(Word(f.(length := length)))
  {
    WordParts(f);
    WordParts(f.(length := length));
    LowBitsChangeCrc(Word(f), Word(f.(length := length)));
  }
}
