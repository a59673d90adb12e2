/** The format language of print: what a directive says, and formats behind each other. */
module PrintfFormats {
  import opened Common
  import opened Numerals
  import opened Printf
  import opened Sequences

  // ---------------------------------------------------------------- formats compose

  /** `f` stands in `h` at offset `o`. */
  predicate Embedded(f: string, h: string, o: nat) {
    o + |f| <= |h| && forall k | 0 <= k < |f| :: h[o + k] == f[k]
  }

  function Shifted(d: Option<Directive>, n: nat): Option<Directive> {
    if d.Some? then Some(d.value.(next := d.value.next + n)) else None
  }

  lemma {:induction false} DigitsEndEmbedded(f: string, h: string, o: nat, i: nat)
    requires Embedded(f, h, o) && i <= |f| && (o + |f| == |h| || DigitsEnd(f, i) < |f|)
    ensures DigitsEnd(h, o + i) == o + DigitsEnd(f, i)
    decreases |f| - i
  {
    if i < |f| {
      if IsDigit(f[i]) {
        DigitsEndEmbedded(f, h, o, i + 1);
      }
    }
  }

  lemma WidthIsEmbedded(f: string, h: string, o: nat, i: nat)
    requires Embedded(f, h, o) && i <= |f| && DigitsEnd(h, o + i) == o + DigitsEnd(f, i)
    ensures WidthOf(h, o + i) == WidthOf(f, i)
  {
    var n := DigitsEnd(f, i) - i;
    var s, t := h[o + i..o + i + n], f[i..i + n];
    forall k | 0 <= k < n
      ensures s[k] == t[k]
    {
      assert h[o + (i + k)] == f[i + k];
    }
    DecimalElsewhere(h, o + i, f, i, n);
  }

  lemma DecisiveEmbedded(f: string, h: string, o: nat, i: nat)
    requires Embedded(f, h, o) && i <= |f| && (o + |f| == |h| || Decisive(f, i).Some?)
    ensures var k := Decisive(f, i);
      if k.Some? then Decisive(h, o + i) == Some(o + k.value) && WidthOf(h, o + i) == WidthOf(f, i)
      else Decisive(h, o + i).None?
  {
    var j := DigitsEnd(f, i);
    DigitsEndEmbedded(f, h, o, i);
    WidthIsEmbedded(f, h, o, i);
    if j < |f| {
      assert h[o + j] == f[j];
      assert j + 1 < |f| ==> h[o + (j + 1)] == f[j + 1];
    }
  }

  /** A directive is read the same way wherever its format stands, if it is complete or nothing
      follows. */
  lemma {:induction false} WidthEmbedded(f: string, h: string, o: nat, i: nat, flag: Flag)
    requires Embedded(f, h, o) && i <= |f| && (o + |f| == |h| || ParseWidth(f, i, flag).Some?)
    ensures ParseWidth(h, o + i, flag) == Shifted(ParseWidth(f, i, flag), o)
    decreases |f| - i
  {
    DecisiveEmbedded(f, h, o, i);
    var d := Decisive(f, i);
    if d.Some? {
      assert h[o + d.value] == f[d.value];
      if f[d.value] == '.' {
        WidthEmbedded(f, h, o, d.value + 1, flag);
      }
      WidthMoves(f, h, o, i, flag, d.value);
    }
  }

  lemma WidthMoves(f: string, h: string, o: nat, i: nat, flag: Flag, k: nat)
    requires i <= k < |f| && o + |f| <= |h| && Decisive(f, i) == Some(k) && Decisive(h, o + i) == Some(o + k)
    requires WidthOf(h, o + i) == WidthOf(f, i) && h[o + k] == f[k]
    requires f[k] == '.' ==> ParseWidth(h, o + (k + 1), flag) == Shifted(ParseWidth(f, k + 1, flag), o)
    ensures ParseWidth(h, o + i, flag) == Shifted(ParseWidth(f, i, flag), o)
  {
    assert o + (k + 1) == o + k + 1;
  }

  lemma DirectiveEmbedded(f: string, h: string, o: nat, i: nat)
    requires Embedded(f, h, o) && i < |f| && (o + |f| == |h| || ParseDirective(f, i).Some?)
    ensures ParseDirective(h, o + i) == Shifted(ParseDirective(f, i), o)
  {
    assert h[o + i] == f[i];
    WidthEmbedded(f, h, o, if FlagOf(f[i]) == NoFlag then i else i + 1, FlagOf(f[i]));
  }

  function MovedPiece(p: Option<(Piece, nat)>, o: nat): Option<(Piece, nat)> {
    if p.Some? then Some((p.value.0, o + p.value.1)) else None
  }

  lemma ConversionEmbedded(f: string, h: string, o: nat, i: nat)
    requires Embedded(f, h, o) && i + 1 < |f| && (o + |f| == |h| || NextPiece(f, i).Some?)
    requires f[i] == h[o + i] == '%' && f[i + 1] == h[o + i + 1] && f[i + 1] != '%'
    ensures NextPiece(h, o + i) == MovedPiece(NextPiece(f, i), o)
  {
    DirectiveEmbedded(f, h, o, i + 1);
  }

  lemma PieceEmbedded(f: string, h: string, o: nat, i: nat)
    requires Embedded(f, h, o) && i < |f| && (o + |f| == |h| || NextPiece(f, i).Some?)
    ensures NextPiece(h, o + i) == MovedPiece(NextPiece(f, i), o)
  {
    assert h[o + i] == f[i];
    if f[i] == '%' && i + 1 < |f| {
      assert h[o + (i + 1)] == f[i + 1];
      if f[i + 1] != '%' {
        ConversionEmbedded(f, h, o, i);
      }
    }
  }

  /** The end of a format has the pieces that it has alone. */
  lemma {:induction false} PiecesOfSuffix(g: string, h: string, o: nat, i: nat)
    requires Embedded(g, h, o) && o + |g| == |h| && i <= |g|
    ensures Pieces(h, o + i) == Pieces(g, i)
    decreases |g| - i
  {
    if i < |g| {
      PieceEmbedded(g, h, o, i);
      var p := NextPiece(g, i);
      if p.Some? {
        PiecesOfSuffix(g, h, o, p.value.1);
        SuffixStep(g, h, o, i, p.value.0, p.value.1);
      }
    }
  }

  lemma SuffixStep(g: string, h: string, o: nat, i: nat, p: Piece, next: nat)
    requires i < |g| && o + |g| == |h| && i < next <= |g|
    requires NextPiece(g, i) == Some((p, next)) && NextPiece(h, o + i) == Some((p, o + next))
    requires Pieces(h, o + next) == Pieces(g, next)
    ensures Pieces(h, o + i) == Pieces(g, i)
  {
  }

  lemma {:induction false} PiecesOfPrefix(f: string, g: string, h: string, i: nat)
    requires |h| == |f| + |g| && Embedded(f, h, 0) && Embedded(g, h, |f|)
    requires i <= |f| && Pieces(f, i).Some?
    ensures Pieces(h, i) == Behind(Pieces(f, i).value, Pieces(g, 0))
    decreases |f| - i
  {
    if i == |f| {
      PiecesOfSuffix(g, h, |f|, 0);
      BehindNothing(Pieces(g, 0));
    } else {
      PieceEmbedded(f, h, 0, i);
      var (p, next) := NextPiece(f, i).value;
      PiecesOfPrefix(f, g, h, next);
      PrefixStep(f, h, i, p, next, Pieces(g, 0));
    }
  }

  lemma PrefixStep(f: string, h: string, i: nat, p: Piece, next: nat, after: Option<seq<Piece>>)
    requires i < |f| <= |h| && i < next <= |f| && Pieces(f, next).Some?
    requires NextPiece(f, i) == NextPiece(h, i) == Some((p, next))
    requires Pieces(h, next) == Behind(Pieces(f, next).value, after)
    ensures Pieces(f, i).Some? && Pieces(h, i) == Behind(Pieces(f, i).value, after)
  {
    BehindTwice([p], Pieces(f, next).value, after);
  }

  lemma BehindNothing<T>(r: Option<seq<T>>)
    ensures Behind([], r) == r
  {
    assert r.Some? ==> [] + r.value == r.value;
  }

  lemma BehindTwice<T>(s: seq<T>, t: seq<T>, r: Option<seq<T>>)
    ensures Behind(s, Behind(t, r)) == Behind(s + t, r)
  {
    assert r.Some? ==> s + (t + r.value) == s + t + r.value;
  }

  lemma InFrontTwice(s: string, t: string, r: Option<Printed>)
    ensures InFront(s, InFront(t, r)) == InFront(s + t, r)
  {
    assert r.Some? ==> s + (t + r.value.text) == s + t + r.value.text;
  }

  lemma {:induction false} OutputAppend(ps: seq<Piece>, qs: seq<Piece>, args: seq<Arg>)
    requires Output(ps, args).Some?
    ensures Output(ps + qs, args) == InFront(Output(ps, args).value.text, Output(qs, Output(ps, args).value.rest))
  {
    if ps == [] {
      assert ps + qs == qs;
      var r := Output(qs, args);
      assert r.Some? ==> "" + r.value.text == r.value.text;
    } else {
      var p := PrintedPiece(ps[0], args).value;
      var first := Output(ps[1..], p.rest).value;
      assert (ps + qs)[1..] == ps[1..] + qs;
      OutputAppend(ps[1..], qs, p.rest);
      InFrontTwice(p.text, first.text, Output(qs, first.rest));
    }
  }

  /** Printing one format behind another prints their outputs behind each other, the second on the
      arguments that the first leaves. */
  lemma RenderAppend(f: string, g: string, args: seq<Arg>)
    requires Render(f, args).Some?
    ensures Render(f + g, args) == InFront(Render(f, args).value.text, Render(g, Render(f, args).value.rest))
  {
    PiecesOfPrefix(f, g, f + g, 0);
    if Pieces(g, 0).Some? {
      OutputAppend(Pieces(f, 0).value, Pieces(g, 0).value, args);
    }
  }

  // ---------------------------------------------------------------- what a directive says

  function FlagText(flag: Flag): string {
    match flag
    case NoFlag => ""
    case ZeroFlag => "0"
    case SpaceFlag => " "
    case LeftFlag => "-"
  }

  /** No width is written as width 0. */
  function WidthText(width: nat): string {
    if width == 0 then "" else Text(width, 10, false)
  }

  /** From `i` to `next` the format holds a width, a length modifier and a conversion character. */
  predicate SpellsFrom(f: string, i: nat, next: nat, d: Spec, size: string) {
    var w := WidthText(d.width);
    && Embedded(w, f, i) && Embedded(size, f, i + |w|)
    && i + |w| + |size| < |f| && f[i + |w| + |size|] == d.conv && next == i + |w| + |size| + 1
  }

  /** From `i` to `next` the format holds a percent sign, a flag, and the rest. */
  predicate Spells(f: string, i: nat, next: nat, d: Spec, size: string) {
    && i < |f| && f[i] == '%' && Embedded(FlagText(d.flag), f, i + 1)
    && SpellsFrom(f, i + 1 + |FlagText(d.flag)|, next, d, size)
  }

  /** A directive as a programmer writes it. */
  lemma TextSpells(d: Spec, size: string)
    ensures var f := "%" + (FlagText(d.flag) + (WidthText(d.width) + (size + [d.conv]))); Spells(f, 0, |f|, d, size)
  {
    var w, lead := WidthText(d.width), FlagText(d.flag);
    var f := "%" + (lead + (w + (size + [d.conv])));
    assert forall k | 0 <= k < |lead| :: f[1 + k] == lead[k];
    assert forall k | 0 <= k < |w| :: f[1 + |lead| + k] == w[k];
    assert forall k | 0 <= k < |size| :: f[1 + |lead| + |w| + k] == size[k];
  }

  /** The width has at most three digits, and nothing written is read as something else. */
  predicate Writable(d: Spec, size: string) {
    && d.width < 1000 && d.conv != '.' && SizeBefore(size, d.conv)
    && (size == "" && d.flag == NoFlag && d.width == 0 ==> d.conv !in "% -")
  }

  /** A length modifier, or none, in front of a character that is not taken for one or for a digit. */
  predicate SizeBefore(size: string, c: char) {
    size in ["", "h", "l", "L"] && (size == "" ==> c !in "0123456789hlL")
  }

  lemma CharacterSets(c: char)
    ensures IsDigit(c) <==> c in "0123456789"
    ensures IsLength(c) <==> c in "hlL"
    ensures FlagOf(c) == NoFlag <==> c !in "0 -"
  {
  }

  /** At most three digits. */
  predicate WidthDigits(w: string) {
    |w| <= 3 && forall k | 0 <= k < |w| :: IsDigit(w[k])
  }

  lemma {:induction false} DecimalIsRead(s: string, j: nat)
    requires j <= |s| && ReadDigits(s[..j], 10).Some?
    ensures Decimal(s, 0, j) == ReadDigits(s[..j], 10).value
    decreases j
  {
    if j > 0 {
      assert s[..j][..j - 1] == s[..j - 1];
      DecimalIsRead(s, j - 1);
    }
  }

  lemma WidthIsRead(width: nat)
    requires width < 1000
    ensures var w := WidthText(width);
      && WidthDigits(w) && (w != [] ==> w[0] != '0')
      && Decimal(w, 0, |w|) == width
  {
    if width > 0 {
      var digits := Reverse(LowFirst(width, 10));
      TextParts(width, 10, false);
      assert "" + digits == digits;
      LowFirstValue(width, 10);
      ThreeDigits(width);
      NumeralIsRead(digits, width);
    }
  }

  lemma ThreeDigits(width: nat)
    requires width < 1000
    ensures |LowFirst(width, 10)| <= 3
  {
    assert Power(10, 3) == 1000;
    DigitCount(width, 10, 3);
  }

  lemma NumeralIsRead(w: string, v: nat)
    requires ReadDigits(w, 10) == Some(v)
    ensures Decimal(w, 0, |w|) == v && forall k | 0 <= k < |w| :: IsDigit(w[k])
  {
    assert w[..|w|] == w;
    DecimalIsRead(w, |w|);
    forall k | 0 <= k < |w|
      ensures IsDigit(w[k])
    {
      assert 0 <= DigitValue(w[k]) < 10;
    }
  }

  lemma {:induction false} DigitsEndAt(g: string, i: nat, n: nat)
    requires i <= n < |g| && !IsDigit(g[n]) && forall k | i <= k < n :: IsDigit(g[k])
    ensures DigitsEnd(g, i) == n
    decreases n - i
  {
    if i < n {
      DigitsEndAt(g, i + 1, n);
    }
  }

  /** Width digits and length modifier lead to the character that decides. */
  lemma DecisiveAt(f: string, i: nat, w: string, size: string)
    requires Embedded(w, f, i) && Embedded(size, f, i + |w|) && i + |w| + |size| < |f|
    requires WidthDigits(w) && SizeBefore(size, f[i + |w| + |size|])
    ensures Decisive(f, i) == Some(i + |w| + |size|) && WidthOf(f, i) == Decimal(w, 0, |w|)
  {
    BehindWidth(f, i + |w|, size);
    WidthOfAt(f, i, w);
    DecisiveBehind(f, i, i + |w|, |size|);
  }

  lemma DecisiveBehind(f: string, i: nat, j: nat, n: nat)
    requires i <= j <= i + 3 && j + n < |f| && DigitsEnd(f, i) == j && n <= 1 && (IsLength(f[j]) <==> n == 1)
    ensures Decisive(f, i) == Some(j + n)
  {
  }

  /** The character behind the width is no digit, and a length modifier exactly if one is written. */
  lemma BehindWidth(f: string, j: nat, size: string)
    requires Embedded(size, f, j) && j + |size| < |f| && SizeBefore(size, f[j + |size|])
    ensures !IsDigit(f[j]) && (IsLength(f[j]) <==> |size| == 1) && |size| <= 1
  {
    assert size != "" ==> f[j + 0] == size[0];
    CharacterSets(f[j]);
  }

  lemma WidthOfAt(f: string, i: nat, w: string)
    requires Embedded(w, f, i) && i + |w| < |f| && WidthDigits(w) && !IsDigit(f[i + |w|])
    ensures DigitsEnd(f, i) == i + |w| && WidthOf(f, i) == Decimal(w, 0, |w|)
  {
    forall k | i <= k < i + |w|
      ensures IsDigit(f[k])
    {
      assert f[i + (k - i)] == w[k - i];
    }
    DigitsEndAt(f, i, i + |w|);
    assert f[i..i + |w|] == w[0..0 + |w|];
    DecimalElsewhere(f, i, w, 0, |w|);
  }

  lemma WidthAt(f: string, i: nat, next: nat, d: Spec, size: string)
    requires SpellsFrom(f, i, next, d, size) && d.width < 1000 && d.conv != '.' && SizeBefore(size, d.conv)
    ensures ParseWidth(f, i, d.flag) == Some(Directive(d, next))
  {
    WidthIsRead(d.width);
    DecisiveAt(f, i, WidthText(d.width), size);
  }

  /** The character behind the percent sign. */
  lemma FirstCharacter(f: string, i: nat, next: nat, d: Spec, size: string)
    requires Spells(f, i, next, d, size) && Writable(d, size)
    ensures i + 1 < |f| && FlagOf(f[i + 1]) == d.flag && f[i + 1] != '%'
  {
    var w := WidthText(d.width);
    WidthIsRead(d.width);
    if d.flag != NoFlag {
      assert f[i + 1 + 0] == FlagText(d.flag)[0];
    } else {
      assert w != "" ==> f[i + 1 + 0] == w[0];
      assert w == "" && size != "" ==> f[i + 1 + 0] == size[0];
      CharacterSets(f[i + 1]);
    }
  }

  /** A directive that a programmer writes is read as what it says, wherever it stands in a format: one
      conversion with exactly that flag, width and character, and nothing before or behind it. */
  lemma DirectiveIsRead(f: string, i: nat, next: nat, d: Spec, size: string)
    requires Spells(f, i, next, d, size) && Writable(d, size)
    ensures NextPiece(f, i) == Some((Conversion(d), next))
  {
    FirstCharacter(f, i, next, d, size);
    WidthAt(f, i + 1 + |FlagText(d.flag)|, next, d, size);
    ReadAt(f, i, i + 1 + |FlagText(d.flag)|, d, next);
  }

  /** A width and length modifier, a point, and the rest. */
  predicate PrecisionFrom(f: string, j: nat, next: nat, width: nat, size0: string, d: Spec, size: string) {
    var w := WidthText(width);
    && Embedded(w, f, j) && Embedded(size0, f, j + |w|)
    && j + |w| + |size0| < |f| && f[j + |w| + |size0|] == '.'
    && SpellsFrom(f, j + |w| + |size0| + 1, next, d, size)
  }

  /** A percent sign, a flag, and that. */
  predicate SpellsPrecision(f: string, i: nat, next: nat, width: nat, size0: string, d: Spec, size: string) {
    && i < |f| && f[i] == '%' && Embedded(FlagText(d.flag), f, i + 1)
    && PrecisionFrom(f, i + 1 + |FlagText(d.flag)|, next, width, size0, d, size)
  }

  lemma FirstOfPrecision(f: string, i: nat, next: nat, width: nat, size0: string, d: Spec, size: string)
    requires SpellsPrecision(f, i, next, width, size0, d, size) && width < 1000 && size0 in ["", "h", "l", "L"]
    ensures i + 1 < |f| && FlagOf(f[i + 1]) == d.flag && f[i + 1] != '%'
  {
    var w := WidthText(width);
    WidthIsRead(width);
    if d.flag != NoFlag {
      assert f[i + 1 + 0] == FlagText(d.flag)[0];
    } else {
      assert w != "" ==> f[i + 1 + 0] == w[0];
      assert w == "" && size0 != "" ==> f[i + 1 + 0] == size0[0];
      CharacterSets(f[i + 1]);
    }
  }

  /** A precision is read as a new width, and the one before it is forgotten: "%5.3d" is "%3d". */
  lemma PrecisionIsRead(f: string, i: nat, next: nat, width: nat, size0: string, d: Spec, size: string)
    requires SpellsPrecision(f, i, next, width, size0, d, size) && width < 1000 && size0 in ["", "h", "l", "L"]
    requires d.width < 1000 && d.conv != '.' && SizeBefore(size, d.conv)
    ensures NextPiece(f, i) == Some((Conversion(d), next))
  {
    var j := i + 1 + |FlagText(d.flag)|;
    FirstOfPrecision(f, i, next, width, size0, d, size);
    PrecisionAt(f, j, next, width, size0, d, size);
    ReadAt(f, i, j, d, next);
  }

  lemma PrecisionAt(f: string, j: nat, next: nat, width: nat, size0: string, d: Spec, size: string)
    requires PrecisionFrom(f, j, next, width, size0, d, size) && width < 1000 && size0 in ["", "h", "l", "L"]
    requires d.width < 1000 && d.conv != '.' && SizeBefore(size, d.conv)
    ensures ParseWidth(f, j, d.flag) == Some(Directive(d, next))
  {
    var w := WidthText(width);
    WidthIsRead(width);
    DecisiveAt(f, j, w, size0);
    RestartAt(f, j, j + |w| + |size0|, d.flag);
    WidthAt(f, j + |w| + |size0| + 1, next, d, size);
  }

  lemma RestartAt(f: string, j: nat, k: nat, flag: Flag)
    requires j <= |f| && Decisive(f, j) == Some(k) && f[k] == '.'
    ensures ParseWidth(f, j, flag) == ParseWidth(f, k + 1, flag)
  {
  }

  lemma ReadAt(f: string, i: nat, j: nat, d: Spec, next: nat)
    requires i + 1 < |f| && f[i] == '%' && f[i + 1] != '%' && FlagOf(f[i + 1]) == d.flag
    requires j == (if d.flag == NoFlag then i + 1 else i + 2) && j <= |f|
    requires ParseWidth(f, j, d.flag) == Some(Directive(d, next))
    ensures NextPiece(f, i) == Some((Conversion(d), next))
  {
  }

  // ---------------------------------------------------------------- what a directive prints

  /** A format that consists of one piece. */
  lemma OnePiece(f: string, p: Piece, args: seq<Arg>)
    requires f != [] && NextPiece(f, 0) == Some((p, |f|)) && PrintedPiece(p, args).Some?
    ensures Render(f, args) == PrintedPiece(p, args)
  {
    var ps, r := [p], PrintedPiece(p, args).value;
    assert Pieces(f, |f|) == Some([]) && ps + [] == ps && ps[1..] == [];
    assert Output([], r.rest) == Some(Printed("", r.rest)) && r.text + "" == r.text;
  }

  lemma PrintsConverted(f: string, d: Spec, size: string, args: seq<Arg>)
    requires Spells(f, 0, |f|, d, size) && Writable(d, size) && ArgFits(d.conv, args)
    ensures Render(f, args) == Some(Converted(d, args))
  {
    DirectiveIsRead(f, 0, |f|, d, size);
    OnePiece(f, Conversion(d), args);
  }

  /** `out` has as many characters as `text` or the width, whichever is more.  Left-aligned, it is the text
      and blanks behind it; otherwise the text stands behind blanks, or behind zeros. */
  predicate Justified(out: string, text: string, width: nat, flag: Flag) {
    && |out| == (if |text| < width then width else |text|)
    && if flag == LeftFlag
       then out[..|text|] == text && forall k | |text| <= k < |out| :: out[k] == ' '
       else && out[|out| - |text|..] == text
            && forall k | 0 <= k < |out| - |text| :: out[k] == if flag == ZeroFlag then '0' else ' '
  }

  lemma PaddedIsJustified(text: string, width: nat, flag: Flag)
    ensures Justified(Padded(text, width, flag), text, width, flag)
  {
    var n := if |text| < width then width - |text| else 0;
    var c := if flag == ZeroFlag then '0' else ' ';
    forall k | 0 <= k < n
      ensures Repeat(c, n)[k] == c
    {
      RepeatAt(c, n, k);
    }
  }

  /** A numeral in its shortest form: a sign exactly if asked for, then lower-case digits of the base, of which
      the first is zero only in the numeral of zero. */
  predicate Shortest(text: string, base: nat, negative: bool) {
    && (forall c | c in text :: c in "-0123456789abcdef")
    && text != [] && (text[0] == '-' <==> negative)
    && var digits := if negative then text[1..] else text;
       digits != [] && ReadDigits(digits, base).Some? && (digits[0] == '0' ==> |digits| == 1)
  }

  /** "%d" prints the number in base ten, "%u", "%x" and "%p" print it modulo 2^32, in base ten, sixteen and
      sixteen: the strict reader reads it back. */
  lemma IntPrints(f: string, d: Spec, size: string, v: int, rest: seq<Arg>) returns (text: string)
    requires Spells(f, 0, |f|, d, size) && Writable(d, size) && d.conv in "duxp" && -0x8000_0000 <= v < 0x8000_0000
    ensures var r := Render(f, [IntArg(v)] + rest);
      r.Some? && r.value.rest == rest && Justified(r.value.text, text, d.width, d.flag)
    ensures var base := if d.conv in "du" then 10 else 16;
      && Parse(text, base) == Some(if d.conv == 'd' then v else v % 0x1_0000_0000)
      && Shortest(text, base, d.conv == 'd' && v < 0)
  {
    text := IntText(d.conv, v);
    PrintsConverted(f, d, size, [IntArg(v)] + rest);
    PaddedIsJustified(text, d.width, d.flag);
    IntTextIsNumeral(d.conv, v);
  }

  lemma IntTextIsNumeral(conv: char, v: int)
    requires conv in "duxp" && -0x8000_0000 <= v < 0x8000_0000
    ensures var text, base := IntText(conv, v), if conv in "du" then 10 else 16;
      && Parse(text, base) == Some(if conv == 'd' then v else v % 0x1_0000_0000)
      && Shortest(text, base, conv == 'd' && v < 0)
  {
    if conv == 'd' {
      ItoaRoundTrip(v, 10);
      ItoaIsText(v, 10);
      TextIsShortest(if v < 0 then -v else v, 10, v < 0);
    } else {
      var base := if conv == 'u' then 10 else 16;
      TextRoundTrip(v % U32, base, false);
      TextIsShortest(v % U32, base, false);
    }
  }

  lemma TextIsShortest(v: nat, base: nat, negative: bool)
    requires ValidBase(base) && (negative ==> v > 0)
    ensures Shortest(Text(v, base, negative), base, negative)
  {
    TextShape(v, base, negative);
    TextCharacters(v, base, negative);
    if v == 0 {
      ZeroText(base);
    }
  }

  /** "%s" prints the string, or "(null)" for a missing one. */
  lemma StringPrints(f: string, d: Spec, size: string, s: Option<string>, rest: seq<Arg>)
    requires Spells(f, 0, |f|, d, size) && Writable(d, size) && d.conv == 's' && (s.Some? ==> '\0' !in s.value)
    ensures var r := Render(f, [StrArg(s)] + rest);
      && r.Some? && r.value.rest == rest
      && Justified(r.value.text, if s.Some? then s.value else "(null)", d.width, d.flag)
  {
    PrintsConverted(f, d, size, [StrArg(s)] + rest);
    PaddedIsJustified(if s.Some? then s.value else "(null)", d.width, d.flag);
  }

  /** "%c" prints one character, whatever the width. */
  lemma CharPrints(f: string, d: Spec, size: string, v: int, rest: seq<Arg>)
    requires Spells(f, 0, |f|, d, size) && Writable(d, size) && d.conv == 'c' && -0x8000_0000 <= v < 0x8000_0000
    ensures Render(f, [IntArg(v)] + rest) == Some(Printed([(v % 256) as char], rest))
  {
    PrintsConverted(f, d, size, [IntArg(v)] + rest);
  }

  /** Any other conversion prints nothing and takes nothing. */
  lemma OtherPrints(f: string, d: Spec, size: string, args: seq<Arg>)
    requires Spells(f, 0, |f|, d, size) && Writable(d, size) && d.conv !in "cduxps"
    ensures Render(f, args) == Some(Printed("", args))
  {
    PrintsConverted(f, d, size, args);
  }

  /** Other characters print themselves, and two percent signs print one. */
  lemma PlainPrints(c: char, args: seq<Arg>)
    ensures c != '%' ==> Render([c], args) == Some(Printed([c], args))
    ensures Render("%%", args) == Some(Printed("%", args))
  {
    OnePiece("%%", Plain('%'), args);
    if c != '%' {
      OnePiece([c], Plain(c), args);
    }
  }
}
