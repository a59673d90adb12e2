/** The bounded formatter behind snprintf: print, emitString, emitInt, emitChar. */
module Printf {
  import opened CStrings
  import opened Common
  import opened Numerals

  /** One variable argument: a 32-bit integer, or a string pointer that may be NULL. */
  datatype Arg = IntArg(v: int) | StrArg(s: Option<string>)

  datatype Flag = NoFlag | ZeroFlag | SpaceFlag | LeftFlag

  /** What a conversion asks for. */
  datatype Spec = Spec(flag: Flag, width: nat, conv: char)

  /** A conversion and the index behind it in the format. */
  datatype Directive = Directive(spec: Spec, next: nat)

  // ---------------------------------------------------------------- the format language

  predicate IsDigit(c: char) {
    '0' <= c <= '9'
  }

  function DigitsEnd(f: string, i: nat): (j: nat)
    requires i <= |f|
    ensures i <= j <= |f|
    decreases |f| - i
  {
    if i < |f| && IsDigit(f[i]) then DigitsEnd(f, i + 1) else i
  }

  /** strtoul on the digits from `i` to `j`. */
  function Decimal(s: string, i: nat, j: nat): nat
    requires i <= j <= |s|
    decreases j
  {
    if j == i then 0 else 10 * Decimal(s, i, j - 1) + DecimalDigit(s[j - 1])
  }

  function DecimalDigit(c: char): nat {
    if IsDigit(c) then c as int - '0' as int else 0
  }

  function WidthOf(f: string, i: nat): nat
    requires i <= |f|
  {
    Decimal(f, i, DigitsEnd(f, i))
  }

  lemma {:induction false} DecimalElsewhere(s: string, i: nat, t: string, j: nat, n: nat)
    requires i + n <= |s| && j + n <= |t| && s[i..i + n] == t[j..j + n]
    ensures Decimal(s, i, i + n) == Decimal(t, j, j + n)
    decreases n
  {
    if n > 0 {
      assert s[i..i + n][n - 1] == t[j..j + n][n - 1];
      assert s[i..i + n][..n - 1] == s[i..i + (n - 1)] && t[j..j + n][..n - 1] == t[j..j + (n - 1)];
      DecimalElsewhere(s, i, t, j, n - 1);
    }
  }

  predicate IsLength(c: char) {
    c == 'h' || c == 'l' || c == 'L'
  }

  /** The index of the character behind the width and the length modifier.  Running into the
      terminator, or a width of more than the three digits that wBuff holds, is not a format. */
  function Decisive(f: string, i: nat): (k: Option<nat>)
    requires i <= |f|
    ensures k.Some? ==> i <= k.value < |f|
  {
    var j := DigitsEnd(f, i);
    if j - i > 3 || j >= |f| then None
    else
      var k := if IsLength(f[j]) then j + 1 else j;
      if k >= |f| then None else Some(k)
  }

  /** From the width on.  A precision restarts the width. */
  function ParseWidth(f: string, i: nat, flag: Flag): (d: Option<Directive>)
    requires i <= |f|
    ensures d.Some? ==> i < d.value.next <= |f|
    decreases |f| - i
  {
    match Decisive(f, i)
    case None => None
    case Some(k) =>
      if f[k] == '.' then ParseWidth(f, k + 1, flag) else Some(Directive(Spec(flag, WidthOf(f, i), f[k]), k + 1))
  }

  function FlagOf(c: char): Flag {
    if c == '0' then ZeroFlag else if c == ' ' then SpaceFlag else if c == '-' then LeftFlag else NoFlag
  }

  function ParseDirective(f: string, i: nat): (d: Option<Directive>)
    requires i < |f|
    ensures d.Some? ==> i < d.value.next <= |f|
  {
    var flag := FlagOf(f[i]);
    ParseWidth(f, if flag == NoFlag then i else i + 1, flag)
  }

  function Repeat(c: char, n: nat): (s: string)
    ensures |s| == n
  {
    if n == 0 then [] else [c] + Repeat(c, n - 1)
  }

  /** A string padded to `width`: on the right if left-aligned, else on the left. */
  function Padded(s: string, width: nat, flag: Flag): (t: string)
    ensures |t| == if |s| < width then width else |s|
  {
    var fill := Repeat(if flag == ZeroFlag then '0' else ' ', if |s| < width then width - |s| else 0);
    if flag == LeftFlag then s + fill else fill + s
  }

  predicate IsInt32(v: int) {
    -0x8000_0000 <= v < 0x8000_0000
  }

  predicate TakesInt(conv: char) {
    conv == 'c' || conv == 'd' || conv == 'u' || conv == 'x' || conv == 'p'
  }

  /** The argument that a conversion takes is there and of the right kind. */
  predicate ArgFits(conv: char, args: seq<Arg>) {
    && (TakesInt(conv) ==> args != [] && args[0].IntArg? && IsInt32(args[0].v))
    && (conv == 's' ==> args != [] && args[0].StrArg? && (args[0].s.Some? ==> NUL !in args[0].s.value))
  }

  function IntText(conv: char, v: int): string
    requires IsInt32(v)
  {
    if conv == 'd' then ItoaText(v, 10) else Text(v % U32, if conv == 'u' then 10 else 16, false)
  }

  function StrText(s: Option<string>): string {
    if s.Some? then s.value else "(null)"
  }

  /** Printed characters and the arguments that are left. */
  datatype Printed = Printed(text: string, rest: seq<Arg>)

  /** What one conversion prints; unknown conversions print nothing and take no argument. */
  function Converted(d: Spec, args: seq<Arg>): (r: Printed)
    requires ArgFits(d.conv, args)
  {
    if d.conv == 'c' then Printed([(args[0].v % 256) as char], args[1..])
    else if TakesInt(d.conv) then Printed(Padded(IntText(d.conv, args[0].v), d.width, d.flag), args[1..])
    else if d.conv == 's' then Printed(Padded(StrText(args[0].s), d.width, d.flag), args[1..])
    else Printed("", args)
  }

  /** A format is a sequence of plain characters and conversions; "%%" is a plain character. */
  datatype Piece = Plain(c: char) | Conversion(spec: Spec)

  /** The piece at `i` and the index behind it. */
  function NextPiece(f: string, i: nat): (r: Option<(Piece, nat)>)
    requires i < |f|
    ensures r.Some? ==> i < r.value.1 <= |f|
  {
    if f[i] != '%' then Some((Plain(f[i]), i + 1))
    else if i + 1 == |f| then None
    else if f[i + 1] == '%' then Some((Plain('%'), i + 2))
    else
      match ParseDirective(f, i + 1)
      case None => None
      case Some(d) => Some((Conversion(d.spec), d.next))
  }

  /** The pieces of a format from index `i` on; None if it is not well-formed. */
  function Pieces(f: string, i: nat): (r: Option<seq<Piece>>)
    requires i <= |f|
    decreases |f| - i
  {
    if i == |f| then Some([])
    else
      match NextPiece(f, i)
      case None => None
      case Some(p) => Behind([p.0], Pieces(f, p.1))
  }

  function Behind<T>(s: seq<T>, r: Option<seq<T>>): Option<seq<T>> {
    if r.Some? then Some(s + r.value) else None
  }

  function PrintedPiece(p: Piece, args: seq<Arg>): Option<Printed> {
    match p
    case Plain(c) => Some(Printed([c], args))
    case Conversion(d) => if ArgFits(d.conv, args) then Some(Converted(d, args)) else None
  }

  /** What pieces print; None if an argument is missing or of the wrong kind. */
  function Output(ps: seq<Piece>, args: seq<Arg>): (r: Option<Printed>) {
    if ps == [] then Some(Printed("", args))
    else
      match PrintedPiece(ps[0], args)
      case None => None
      case Some(p) => InFront(p.text, Output(ps[1..], p.rest))
  }

  function InFront(s: string, r: Option<Printed>): Option<Printed> {
    if r.Some? then Some(Printed(s + r.value.text, r.value.rest)) else None
  }

  /** The unlimited output of a format, if format and arguments are well-formed. */
  function Render(f: string, args: seq<Arg>): (r: Option<Printed>) {
    match Pieces(f, 0)
    case None => None
    case Some(ps) => Output(ps, args)
  }

  // ---------------------------------------------------------------- the bound

  /** `int left = n`: sizes from 2^31 on become negative. */
  predicate Limited(n: nat) {
    1 <= n < 0x8000_0000
  }

  /** How many of `m` characters are stored for buffer size `n`. */
  function KeptSize(m: nat, n: nat): nat {
    if Limited(n) && m > n - 1 then n - 1 else m
  }

  /** The part of an output that is stored for buffer size `n`. */
  function Kept(s: string, n: nat): (t: string)
    ensures |t| == KeptSize(|s|, n)
  {
    s[..KeptSize(|s|, n)]
  }

  // ---------------------------------------------------------------- the printer

  /** The output pointer and the `left` counter of one call of print. */
  class Stream {
    const buffer: array<char>
    const n: nat
    var pos: nat
    var left: int
    ghost const before: seq<char>   // the buffer when the call started
    ghost var emitted: string       // everything that has been emitted

    /** The stored characters are the kept part of the emitted ones and the rest of the buffer is as
        it was. */
    ghost predicate Valid()
      reads this, buffer
    {
      && n < U32 && |before| == buffer.Length && pos < buffer.Length
      && left == (if n < 0x8000_0000 then n else n - U32) - pos
      && pos == KeptSize(|emitted|, n)
      && buffer[..pos] == Kept(emitted, n)
      && forall k | pos <= k < buffer.Length :: buffer[k] == before[k]
    }

    /** There is room for `m` more characters, as far as they are kept, and for the terminator. */
    ghost predicate Room(m: nat)
      reads this
    {
      KeptSize(|emitted| + m, n) < buffer.Length
    }

    constructor (buf: array<char>, size: nat)
      requires size < U32 && buf.Length > 0
      ensures Valid() && emitted == "" && buffer == buf && n == size && before == buf[..]
    {
      buffer, n, pos := buf, size, 0;
      left := if size < 0x8000_0000 then size else size - U32;
      before, emitted := buf[..], "";
    }

    /** emitChar. */
    method EmitChar(c: char)
      requires Valid() && Room(1)
      modifies this, buffer
      ensures Valid() && emitted == old(emitted) + [c]
    {
      KeptNext(emitted, c, n);
      emitted := emitted + [c];
      if left == 1 {
        return;
      }
      ghost var stored := buffer[..pos];
      left := left - 1;
      buffer[pos] := c;
      pos := pos + 1;
      assert buffer[..pos] == stored + [c];
    }

    /** A loop that emits the same character `count` times. */
    method EmitPad(c: char, count: nat)
      requires Valid() && Room(count)
      modifies this, buffer
      ensures Valid() && emitted == old(emitted) + Repeat(c, count)
    {
      for i := 0 to count
        invariant Valid() && emitted + Repeat(c, count - i) == old(emitted) + Repeat(c, count)
      {
        AppendNext(emitted, [c], Repeat(c, count - i - 1));
        EmitChar(c);
      }
    }

    /** A loop that emits the characters of a string. */
    method EmitText(s: string)
      requires Valid() && Room(|s|)
      modifies this, buffer
      ensures Valid() && emitted == old(emitted) + s
    {
      assert s[0..] == s;
      for i := 0 to |s|
        invariant Valid() && emitted + s[i..] == old(emitted) + s
      {
        assert s[i..] == [s[i]] + s[i + 1..];
        AppendNext(emitted, [s[i]], s[i + 1..]);
        EmitChar(s[i]);
      }
    }

    /** emitString. */
    method EmitString(s: string, width: nat, flag: Flag)
      requires Valid() && Room(|Padded(s, width, flag)|)
      modifies this, buffer
      ensures Valid() && emitted == old(emitted) + Padded(s, width, flag)
    {
      var pad := if flag == ZeroFlag then '0' else ' ';
      var count := if |s| < width then width - |s| else 0;
      if flag == LeftFlag {
        AppendNext(emitted, s, Repeat(pad, count));
        EmitText(s);
        EmitPad(pad, count);
      } else {
        AppendNext(emitted, Repeat(pad, count), s);
        EmitPad(pad, count);
        EmitText(s);
      }
    }

    /** emitInt: the digits are prepared in a local buffer of twelve characters. */
    method EmitInt(v: int, conv: char, width: nat, flag: Flag)
      requires Valid() && IsInt32(v) && Room(|Padded(IntText(conv, v), width, flag)|)
      modifies this, buffer
      ensures Valid() && emitted == old(emitted) + Padded(IntText(conv, v), width, flag)
    {
      var lBuf := new char[12](_ => NUL);
      var base := if conv == 'd' || conv == 'u' then 10 else 16;
      var negative := conv == 'd' && v < 0;
      ghost var magnitude := if negative then (U32 - v % U32) % U32 else v % U32;
      FitsTwelve(magnitude, base, negative);
      Xtoa(v % U32, lBuf, base, negative);
      TextIsCString(magnitude, base, negative, lBuf[..]);
      EmitString(CString(lBuf[..]), width, flag);
    }

    /** The choice of the conversion. */
    method EmitDirective(d: Spec, args: seq<Arg>) returns (rest: seq<Arg>)
      requires Valid() && ArgFits(d.conv, args) && Room(|Converted(d, args).text|)
      modifies this, buffer
      ensures Valid() && emitted == old(emitted) + Converted(d, args).text && rest == Converted(d, args).rest
    {
      if d.conv == 'c' {
        EmitChar((args[0].v % 256) as char);
        rest := args[1..];
      } else if TakesInt(d.conv) {
        EmitInt(args[0].v, d.conv, d.width, d.flag);
        rest := args[1..];
      } else if d.conv == 's' {
        EmitString(StrText(args[0].s), d.width, d.flag);
        rest := args[1..];
      } else {
        rest := args;
      }
    }

    /** The loop of print over the format. */
    method Print(f: string, args: seq<Arg>)
      requires Valid() && emitted == "" && Render(f, args).Some? && Room(|Render(f, args).value.text|)
      modifies this, buffer
      ensures Valid() && emitted == Render(f, args).value.text
    {
      var i, rest := 0, args;
      ghost var ps, text := Pieces(f, 0).value, Render(f, args).value.text;
      while i < |f|
        invariant i <= |f| && Valid() && Room(|text|)
        invariant Pieces(f, i) == Some(ps) && Output(ps, rest).Some?
        invariant emitted + text == Render(f, args).value.text && text == Output(ps, rest).value.text
        decreases |f| - i
      {
        ghost var (p, next) := NextPiece(f, i).value;
        assert ps == [p] + Pieces(f, next).value && ps[1..] == Pieces(f, next).value;
        ghost var printed := PrintedPiece(p, rest).value;
        ghost var text' := Output(ps[1..], printed.rest).value.text;
        AppendNext(emitted, printed.text, text');
        i, rest := PrintItem(f, i, rest);
        ps, text := ps[1..], text';
      }
    }

    /** The end of vsnprintf: the terminator and the return value. */
    method Finish() returns (ret: nat)
      requires Valid() && |emitted| < 0x8000_0000
      modifies buffer
      ensures var kept := Kept(emitted, n);
        ret == |kept| && buffer[..] == kept + [NUL] + before[|kept| + 1..]
    {
      StoredCount(n, pos, left);
      ret := (n - left) % U32;
      ghost var kept := buffer[..pos];
      buffer[pos] := NUL;
      assert buffer[..] == kept + [NUL] + before[pos + 1..];
    }

    /** The body of the loop of print. */
    method PrintItem(f: string, i: nat, args: seq<Arg>) returns (next: nat, rest: seq<Arg>)
      requires Valid() && i < |f| && NextPiece(f, i).Some? && PrintedPiece(NextPiece(f, i).value.0, args).Some?
      requires Room(|PrintedPiece(NextPiece(f, i).value.0, args).value.text|)
      modifies this, buffer
      ensures var (p, behind) := NextPiece(f, i).value;
        var printed := PrintedPiece(p, args).value;
        Valid() && emitted == old(emitted) + printed.text && next == behind && rest == printed.rest
    {
      if f[i] != '%' {
        EmitChar(f[i]);
        next, rest := i + 1, args;
      } else if f[i + 1] == '%' {
        EmitChar('%');
        next, rest := i + 2, args;
      } else {
        var d := ScanDirective(f, i + 1);
        rest := EmitDirective(d.spec, args);
        next := d.next;
      }
    }
  }

  /** The width digits, collected in wBuff, which holds three of them and a terminator. */
  method ScanWidth(f: string, i: nat) returns (width: nat, j: nat)
    requires i <= |f| && DigitsEnd(f, i) - i <= 3
    ensures j == DigitsEnd(f, i) && width == WidthOf(f, i)
  {
    var wBuff := new char[4](_ => NUL);
    j := i;
    var a := 0;
    while j < |f| && IsDigit(f[j])
      invariant i <= j <= DigitsEnd(f, i) && DigitsEnd(f, j) == DigitsEnd(f, i)
      invariant a == j - i && wBuff[..a] == f[i..j]
      decreases |f| - j
    {
      wBuff[a] := f[j];
      a, j := a + 1, j + 1;
    }
    assert wBuff[..][0..a] == wBuff[..a];
    DecimalElsewhere(wBuff[..], 0, f, i, a);
    width := Decimal(wBuff[..], 0, a);
  }

  /** One pass from the width over the length modifier to the character that decides. */
  method ScanModifiers(f: string, i: nat, ghost flag: Flag) returns (width: nat, j: nat)
    requires i <= |f| && ParseWidth(f, i, flag).Some?
    ensures i <= j < |f|
    ensures ParseWidth(f, i, flag) ==
      if f[j] == '.' then ParseWidth(f, j + 1, flag) else Some(Directive(Spec(flag, width, f[j]), j + 1))
  {
    width, j := ScanWidth(f, i);
    if IsLength(f[j]) {
      j := j + 1;
    }
  }

  /** From the width on, with the jump back to the width. */
  method ScanFrom(f: string, i: nat, flag: Flag) returns (d: Directive)
    requires i <= |f| && ParseWidth(f, i, flag).Some?
    ensures d == ParseWidth(f, i, flag).value
  {
    ghost var goal := ParseWidth(f, i, flag);
    var width, j := ScanModifiers(f, i, flag);
    while f[j] == '.'
      invariant j < |f|
      invariant goal == if f[j] == '.' then ParseWidth(f, j + 1, flag) else Some(Directive(Spec(flag, width, f[j]), j + 1))
      decreases |f| - j
    {
      width, j := ScanModifiers(f, j + 1, flag);
    }
    d := Directive(Spec(flag, width, f[j]), j + 1);
  }

  /** The part of print between '%' and the choice of the type. */
  method ScanDirective(f: string, i: nat) returns (d: Directive)
    requires i < |f| && ParseDirective(f, i).Some?
    ensures d == ParseDirective(f, i).value
  {
    var flag := FlagOf(f[i]);
    d := ScanFrom(f, if flag == NoFlag then i else i + 1, flag);
  }

  /** vsnprintf: stores the kept part of the unlimited output and a terminator, touches nothing behind
      it, and returns the number of characters stored. */
  method Vsnprintf(buffer: array<char>, n: nat, f: string, args: seq<Arg>) returns (ret: nat)
    requires NUL !in f && n < U32
    requires Render(f, args).Some? && |Render(f, args).value.text| < 0x8000_0000
    requires |Kept(Render(f, args).value.text, n)| < buffer.Length
    modifies buffer
    ensures var text := Render(f, args).value.text;
      && ret == (if 1 <= n < 0x8000_0000 && n <= |text| then n - 1 else |text|)
      && buffer[..] == text[..ret] + ['\0'] + old(buffer[..])[ret + 1..]
  {
    var o := new Stream(buffer, n);
    o.Print(f, args);
    ret := o.Finish();
  }

  lemma StoredCount(n: nat, pos: nat, left: int)
    requires n < U32 && pos < U32 && left == (if n < 0x8000_0000 then n else n - U32) - pos
    ensures (n - left) % U32 == pos
  {
  }

  lemma AppendNext(emitted: string, s: string, rest: string)
    ensures emitted + (s + rest) == emitted + s + rest
  {
  }

  /** The text in the local buffer is read back up to its terminator. */
  lemma TextIsCString(v: nat, base: nat, negative: bool, mem: seq<char>)
    requires ValidBase(base) && |Text(v, base, negative)| < |mem|
    requires mem == Text(v, base, negative) + [NUL] + mem[|Text(v, base, negative)| + 1..]
    ensures CString(mem) == Text(v, base, negative)
  {
    NoNul(v, base, negative);
    CStringOf(Text(v, base, negative), mem[|Text(v, base, negative)| + 1..]);
  }

  /** One more character is kept exactly if the counter is not down to one. */
  lemma KeptNext(s: string, c: char, n: nat)
    ensures Kept(s + [c], n) == if Limited(n) && |s| >= n - 1 then Kept(s, n) else Kept(s, n) + [c]
  {
  }

  // ---------------------------------------------------------------- padded numbers

  lemma {:induction false} RepeatAt(c: char, n: nat, i: nat)
    requires i < n
    ensures Repeat(c, n)[i] == c
  {
    if i > 0 {
      RepeatAt(c, n - 1, i - 1);
    }
  }

  /** Zeros in front of digits do not change their value. */
  lemma {:induction false} LeadingZeros(n: nat, s: string)
    ensures ReadDigits(Repeat('0', n) + s, 10) == ReadDigits(s, 10)
    decreases n + |s|
  {
    var zeros := Repeat('0', n);
    if s != [] {
      var t, c := s[..|s| - 1], s[|s| - 1];
      assert zeros + s == (zeros + t) + [c] && s == t + [c];
      LeadingZeros(n, t);
      ReadDigitsAppend(zeros + t, c, 10);
      ReadDigitsAppend(t, c, 10);
    } else if n > 0 {
      RepeatAt('0', n, n - 1);
      ZerosEnd(n);
      LeadingZeros(n - 1, []);
      assert zeros + [] == (Repeat('0', n - 1) + []) + ['0'];
      ReadDigitsAppend(Repeat('0', n - 1) + [], '0', 10);
    }
  }

  lemma {:induction false} ZerosEnd(n: nat)
    requires n > 0
    ensures Repeat('0', n) == Repeat('0', n - 1) + ['0']
  {
    if n > 1 {
      ZerosEnd(n - 1);
    }
  }

  /** A zero-padded "%d" is read back exactly if the number is not negative or nothing is padded: the
      zeros go in front of the sign. */
  lemma ZeroPaddedReadsBack(v: int, width: nat)
    requires IsInt32(v)
    ensures Parse(Padded(ItoaText(v, 10), width, ZeroFlag), 10) == Some(v) <==> v >= 0 || width <= |ItoaText(v, 10)|
  {
    var s := ItoaText(v, 10);
    var n := if |s| < width then width - |s| else 0;
    ItoaRoundTrip(v, 10);
    NoLeadingZero(v, 10);
    if n == 0 {
      assert Repeat('0', 0) + s == s;
    } else if v >= 0 {
      ZerosInFront(n, s, v);
    } else {
      SignInside(n, s);
    }
  }

  lemma ZerosInFront(n: nat, s: string, v: int)
    requires n > 0 && s != [] && s[0] != '-' && Parse(s, 10) == Some(v)
    ensures Parse(Repeat('0', n) + s, 10) == Some(v)
  {
    RepeatAt('0', n, 0);
    LeadingZeros(n, s);
  }

  lemma SignInside(n: nat, s: string)
    requires n > 0 && s != [] && s[0] == '-'
    ensures Parse(Repeat('0', n) + s, 10) == None
  {
    var t := Repeat('0', n) + s;
    RepeatAt('0', n, 0);
    assert t[n] == '-' && DigitValue(t[n]) == -1;
  }
}
