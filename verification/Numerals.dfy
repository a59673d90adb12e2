/** xtoa, ultoa and itoa: numbers to text, written backwards and reversed in place. */
module Numerals {
  import opened Arith
  import opened Common
  import opened Sequences

  /** The bases for which the digit table is long enough and the digit loop ends. */
  predicate ValidBase(base: nat) {
    2 <= base <= 16
  }

  function DigitChar(d: nat): (c: char)
    requires d < 16
  {
    "0123456789abcdef"[d]
  }

  function DigitValue(c: char): (d: int) {
    if '0' <= c <= '9' then c as int - '0' as int
    else if 'a' <= c <= 'f' then c as int - 'a' as int + 10
    else -1
  }

  lemma DigitRoundTrip(d: nat)
    requires d < 16
    ensures DigitValue(DigitChar(d)) == d && (DigitChar(d) == '0' <==> d == 0) && DigitChar(d) != '-'
  {
  }

  lemma DivSmaller(v: nat, base: nat)
    requires base >= 2 && v > 0
    ensures v / base < v
  {
    assert v == base * (v / base) + v % base;
    if v / base >= v {
      MulMono(2, base, v / base);
    }
  }

  /** The digits in the order in which the loop produces them, least significant first. */
  function LowFirst(v: nat, base: nat): (s: string)
    requires ValidBase(base)
    ensures |s| > 0
    decreases v
  {
    if v / base == 0 then [DigitChar(v % base)]
    else
      DivSmaller(v, base);
      [DigitChar(v % base)] + LowFirst(v / base, base)
  }

  /** The text that xtoa leaves for a magnitude and a sign. */
  function Text(v: nat, base: nat, negative: bool): (s: string)
    requires ValidBase(base)
  {
    Reverse(LowFirst(v, base) + if negative then "-" else "")
  }

  /** xtoa.  `val` is an unsigned 32-bit number; a negative one is passed in two's complement. */
  method Xtoa(val: nat, str: array<char>, base: nat, negative: bool)
    requires ValidBase(base) && val < U32
    requires str.Length > |Text(if negative then (U32 - val) % U32 else val, base, negative)|
    modifies str
    ensures var text := Text(if negative then (U32 - val) % U32 else val, base, negative);
      str[..] == text + ['\0'] + old(str[..])[|text| + 1..]
  {
    var v := val;
    if negative {
      v := (U32 - val) % U32;
    }
    ghost var low := LowFirst(v, base) + if negative then "-" else "";
    var i := WriteDigits(v, str, base);
    if negative {
      str[i] := '-';
      i := i + 1;
    }
    assert str[..i] == low && str[i..] == old(str[..])[i..];
    Terminate(str, i);
  }

  /** The terminator and the reversal. */
  method Terminate(str: array<char>, i: nat)
    requires i < str.Length
    modifies str
    ensures str[..] == Reverse(old(str[..i])) + ['\0'] + old(str[..])[i + 1..]
  {
    str[i] := '\0';
    assert str[..i] == old(str[..i]);
    ReverseInPlace(str, i);
    assert str[..] == str[..i] + [str[i]] + str[i + 1..];
  }

  /** The last digit, and the number without it. */
  method NextDigit(v: nat, base: nat) returns (c: char, upper: nat)
    requires ValidBase(base)
    ensures v > 0 ==> upper < v
    ensures v == 0 ==> upper == 0
    ensures LowFirst(v, base)[0] == c && LowFirst(v, base)[1..] == if upper == 0 then [] else LowFirst(upper, base)
  {
    if v > 0 {
      DivSmaller(v, base);
    }
    c, upper := DigitChar(v % base), v / base;
  }

  /** The digit loop. */
  method WriteDigits(v0: nat, str: array<char>, base: nat) returns (i: nat)
    requires ValidBase(base) && |LowFirst(v0, base)| <= str.Length
    modifies str
    ensures i == |LowFirst(v0, base)| && str[..i] == LowFirst(v0, base)
    ensures forall k | i <= k < str.Length :: str[k] == old(str[k])
  {
    ghost var digits := LowFirst(v0, base);
    var v: nat := v0;
    i := 0;
    var more := true;
    while more
      invariant i <= |digits| && digits[i..] == if more then LowFirst(v, base) else []
      invariant forall k | 0 <= k < i :: str[k] == digits[k]
      invariant forall k | i <= k < str.Length :: str[k] == old(str[k])
      decreases more, v
    {
      assert digits[i..][1..] == digits[i + 1..];
      str[i], v := NextDigit(v, base);
      i := i + 1;
      more := v > 0;
    }
  }

  /** The two-pointer swap loop. */
  method ReverseInPlace(str: array<char>, n: nat)
    requires n <= str.Length
    modifies str
    ensures str[..n] == Reverse(old(str[..n]))
    ensures forall k | n <= k < str.Length :: str[k] == old(str[k])
  {
    var lo, hi := 0, n - 1;
    while lo < hi
      invariant 0 <= lo <= n && hi == n - 1 - lo && lo <= hi + 1
      invariant forall k | 0 <= k < lo :: str[k] == old(str[n - 1 - k]) && str[n - 1 - k] == old(str[k])
      invariant forall k | lo <= k <= hi :: str[k] == old(str[k])
      invariant forall k | n <= k < str.Length :: str[k] == old(str[k])
    {
      var c := str[hi];
      str[hi] := str[lo];
      str[lo] := c;
      hi := hi - 1;
      lo := lo + 1;
    }
    ghost var was := old(str[..n]);
    forall k | 0 <= k < n
      ensures str[..n][k] == Reverse(was)[k]
    {
      ReverseAt(was, k);
    }
  }

  // ---------------------------------------------------------------- meaning

  /** The value of a string of digits, most significant first; None if a character is no digit of the
      base. */
  function ReadDigits(s: string, base: nat): (r: Option<nat>)
    ensures r.Some? ==> forall i | 0 <= i < |s| :: 0 <= DigitValue(s[i]) < base
  {
    if s == [] then Some(0)
    else WithDigit(ReadDigits(s[..|s| - 1], base), DigitValue(s[|s| - 1]), base)
  }

  /** One more digit behind a value. */
  function WithDigit(r: Option<nat>, d: int, base: nat): Option<nat> {
    if r.Some? && 0 <= d < base then Some(base * r.value + d) else None
  }

  /** Reads a numeral: at least one digit, with a minus sign in front or not. */
  function Parse(s: string, base: nat): (r: Option<int>) {
    var negative := s != [] && s[0] == '-';
    var digits := if negative then s[1..] else s;
    if digits == [] then None
    else
      match ReadDigits(digits, base)
      case None => None
      case Some(v) => Some(Signed(v, negative))
  }

  function Signed(v: int, negative: bool): int {
    if negative then -v else v
  }

  lemma ReadDigitsAppend(s: string, c: char, base: nat)
    ensures ReadDigits(s + [c], base) == WithDigit(ReadDigits(s, base), DigitValue(c), base)
  {
    assert (s + [c])[..|s|] == s;
  }

  /** The digits of a number, reversed, are read as the number. */
  lemma {:induction false} LowFirstValue(v: nat, base: nat)
    requires ValidBase(base)
    ensures ReadDigits(Reverse(LowFirst(v, base)), base) == Some(v)
    decreases v
  {
    var q, d := DigitStep(v, base);
    if q != 0 {
      LowFirstValue(q, base);
    }
    DigitBehind(Reverse(LowFirst(v, base)[1..]), q, d, base);
  }

  /** The last digit of a number and the number without it. */
  lemma DigitStep(v: nat, base: nat) returns (q: nat, d: nat)
    requires ValidBase(base)
    ensures v == base * q + d && d < base && (q > 0 ==> q < v)
    ensures LowFirst(v, base)[0] == DigitChar(d) && LowFirst(v, base)[1..] == if q == 0 then [] else LowFirst(q, base)
  {
    q, d := v / base, v % base;
    if v > 0 {
      DivSmaller(v, base);
    }
  }

  lemma DigitBehind(s: string, q: nat, d: nat, base: nat)
    requires ValidBase(base) && d < base && ReadDigits(s, base) == Some(q)
    ensures ReadDigits(s + [DigitChar(d)], base) == Some(base * q + d)
  {
    DigitRoundTrip(d);
    ReadDigitsAppend(s, DigitChar(d), base);
  }

  /** No digit is a sign, and the most significant digit is zero only in the numeral of zero. */
  lemma {:induction false} LastDigit(v: nat, base: nat)
    requires ValidBase(base)
    ensures forall i | 0 <= i < |LowFirst(v, base)| :: LowFirst(v, base)[i] != '-'
    ensures LowFirst(v, base)[|LowFirst(v, base)| - 1] == '0' <==> v == 0
    decreases v
  {
    DigitRoundTrip(v % base);
    assert v == base * (v / base) + v % base;
    if v / base != 0 {
      DivSmaller(v, base);
      LastDigit(v / base, base);
    }
  }

  /** The text of a number: the sign if there is one, then the digits. */
  lemma TextParts(v: nat, base: nat, negative: bool)
    requires ValidBase(base)
    ensures var digits := Reverse(LowFirst(v, base));
      && Text(v, base, negative) == (if negative then "-" else "") + digits
      && digits != [] && digits[0] != '-' && (digits[0] == '0' <==> v == 0)
  {
    var low := LowFirst(v, base);
    LastDigit(v, base);
    ReverseAt(low, 0);
    if negative {
      ReverseAppend(low, '-');
    } else {
      assert low + "" == low;
    }
  }

  /** Reading back what was written gives the number. */
  lemma TextRoundTrip(v: nat, base: nat, negative: bool)
    requires ValidBase(base)
    ensures Parse(Text(v, base, negative), base) == Some(Signed(v, negative))
  {
    var digits := Reverse(LowFirst(v, base));
    LowFirstValue(v, base);
    TextParts(v, base, negative);
    assert negative ==> ("-" + digits)[1..] == digits;
    assert !negative ==> "" + digits == digits;
  }

  /** A sign if asked for, then digits without a superfluous leading zero. */
  lemma TextShape(v: nat, base: nat, negative: bool)
    requires ValidBase(base)
    ensures var s := Text(v, base, negative);
      && s != [] && (s[0] == '-' <==> negative)
      && var digits := if negative then s[1..] else s;
         digits != [] && ReadDigits(digits, base).Some? && (digits[0] == '0' <==> v == 0)
  {
    var digits := Reverse(LowFirst(v, base));
    TextParts(v, base, negative);
    LowFirstValue(v, base);
    assert negative ==> ("-" + digits)[1..] == digits;
    assert !negative ==> "" + digits == digits;
  }

  lemma ZeroText(base: nat)
    requires ValidBase(base)
    ensures Text(0, base, false) == "0"
  {
    assert LowFirst(0, base) == "0";
    assert "0" + "" == "0" && "0"[1..] == [];
  }

  lemma {:induction false} LowerCaseDigits(v: nat, base: nat)
    requires ValidBase(base)
    ensures forall c | c in LowFirst(v, base) :: c in "0123456789abcdef"
    decreases v
  {
    if v / base != 0 {
      DivSmaller(v, base);
      LowerCaseDigits(v / base, base);
    }
  }

  /** Nothing but lower-case digits and, in front, a sign. */
  lemma TextCharacters(v: nat, base: nat, negative: bool)
    requires ValidBase(base)
    ensures forall c | c in Text(v, base, negative) :: c in "-0123456789abcdef"
  {
    LowerCaseDigits(v, base);
    var low := LowFirst(v, base) + if negative then "-" else "";
    forall k | 0 <= k < |low|
      ensures Reverse(low)[k] in "-0123456789abcdef"
    {
      ReverseAt(low, k);
      assert low[|low| - 1 - k] in LowFirst(v, base) || low[|low| - 1 - k] == '-';
    }
  }

  lemma NoNul(v: nat, base: nat, negative: bool)
    requires ValidBase(base)
    ensures '\0' !in Text(v, base, negative)
  {
    TextCharacters(v, base, negative);
  }

  /** What itoa leaves for a 32-bit integer: the argument is converted to unsigned, then negated. */
  function ItoaText(value: int, base: nat): (s: string)
    requires ValidBase(base) && -0x8000_0000 <= value < 0x8000_0000
  {
    var val := value % U32;
    Text(if value < 0 then (U32 - val) % U32 else val, base, value < 0)
  }

  lemma ItoaIsText(value: int, base: nat)
    requires ValidBase(base) && -0x8000_0000 <= value < 0x8000_0000
    ensures ItoaText(value, base) == Text(if value < 0 then -value else value, base, value < 0)
  {
  }

  /** itoa is read back exactly, the most negative integer included. */
  lemma ItoaRoundTrip(value: int, base: nat)
    requires ValidBase(base) && -0x8000_0000 <= value < 0x8000_0000
    ensures Parse(ItoaText(value, base), base) == Some(value)
  {
    ItoaIsText(value, base);
    TextRoundTrip(if value < 0 then -value else value, base, value < 0);
  }

  /** The text of an integer is a sign exactly if it is negative, then digits without a superfluous
      leading zero. */
  lemma NoLeadingZero(value: int, base: nat)
    requires ValidBase(base) && -0x8000_0000 <= value < 0x8000_0000
    ensures var s := ItoaText(value, base);
      && s != [] && (s[0] == '-' <==> value < 0)
      && var digits := if value < 0 then s[1..] else s;
         && digits != [] && ReadDigits(digits, base).Some?
         && (digits[0] == '0' <==> value == 0) && (value == 0 <==> s == "0")
  {
    ItoaIsText(value, base);
    TextShape(if value < 0 then -value else value, base, value < 0);
    if value == 0 {
      ZeroText(base);
    }
  }

  /** itoa: the string at `str` is read back as the number. */
  method Itoa(value: int, str: array<char>, base: nat) returns (ghost text: string)
    requires ValidBase(base) && -0x8000_0000 <= value < 0x8000_0000 && str.Length > |ItoaText(value, base)|
    modifies str
    ensures Parse(text, base) == Some(value) && '\0' !in text
    ensures |text| < str.Length && str[..] == text + ['\0'] + old(str[..])[|text| + 1..]
  {
    text := ItoaText(value, base);
    ItoaRoundTrip(value, base);
    ItoaIsText(value, base);
    NoNul(if value < 0 then -value else value, base, value < 0);
    Xtoa(value % U32, str, base, value < 0);
  }

  /** ultoa, on a 32-bit unsigned number. */
  method Ultoa(value: nat, str: array<char>, base: nat) returns (ghost text: string)
    requires ValidBase(base) && value < 0x1_0000_0000 && str.Length > |Text(value, base, false)|
    modifies str
    ensures Parse(text, base) == Some(value) && '\0' !in text
    ensures |text| < str.Length && str[..] == text + ['\0'] + old(str[..])[|text| + 1..]
  {
    text := Text(value, base, false);
    TextRoundTrip(value, base, false);
    NoNul(value, base, false);
    Xtoa(value, str, base, false);
  }

  function Power(base: nat, k: nat): (p: nat) {
    if k == 0 then 1 else base * Power(base, k - 1)
  }

  lemma DivBelow(v: nat, base: nat, p: nat)
    requires base > 0 && v < base * p
    ensures v / base < p
  {
    assert v == base * (v / base) + v % base;
    if v / base >= p {
      MulMono(p, v / base, base);
    }
  }

  lemma {:induction false} DigitCount(v: nat, base: nat, k: nat)
    requires ValidBase(base) && k > 0 && v < Power(base, k)
    ensures |LowFirst(v, base)| <= k
    decreases k
  {
    if v / base != 0 {
      DivBelow(v, base, Power(base, k - 1));
      DigitCount(v / base, base, k - 1);
    }
  }

  /** Any 32-bit value in base 10 or 16 fits a buffer of 12 characters with sign and terminator. */
  lemma FitsTwelve(v: nat, base: nat, negative: bool)
    requires v < U32 && (base == 10 || base == 16)
    ensures |Text(v, base, negative)| + 1 <= 12
  {
    if base == 10 {
      PowerOfTen();
      DigitCount(v, 10, 10);
    } else {
      PowerOfSixteen();
      DigitCount(v, 16, 8);
    }
  }

  lemma PowerOfTen()
    ensures Power(10, 10) == 10_000_000_000
  {
    assert Power(10, 5) == 100_000;
  }

  lemma PowerOfSixteen()
    ensures Power(16, 8) == U32
  {
    assert Power(16, 4) == 0x1_0000;
  }
}
