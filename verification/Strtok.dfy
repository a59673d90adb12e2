/** _strtok_r, which cuts a string in place: strtok_r skips leading delimiters, strsep does not. */
module Strtok {
  import opened CStrings
  import opened Common

  // ---------------------------------------------------------------- words

  /** The pieces between delimiters, empty ones included. */
  function Pieces(t: string, delim: string): (ps: seq<string>)
    ensures |ps| > 0
  {
    if t == [] then [[]]
    else
      var ps := Pieces(t[1..], delim);
      if t[0] in delim then [[]] + ps else [[t[0]] + ps[0]] + ps[1..]
  }

  function NonEmpty(ps: seq<string>): seq<string> {
    if ps == [] then [] else (if ps[0] == [] then [] else [ps[0]]) + NonEmpty(ps[1..])
  }

  /** The maximal delimiter-free runs of `t`, in order. */
  function Words(t: string, delim: string): seq<string> {
    NonEmpty(Pieces(t, delim))
  }

  function DropTrailing(ps: seq<string>): seq<string> {
    if ps != [] && ps[|ps| - 1] == [] then ps[..|ps| - 1] else ps
  }

  /** The pieces of `t` without an empty last one: what strsep returns. */
  function Fields(t: string, delim: string): seq<string> {
    DropTrailing(Pieces(t, delim))
  }

  /** What successive calls return, with or without skipping leading delimiters. */
  function Parts(t: string, delim: string, skip: bool): seq<string> {
    if skip then Words(t, delim) else Fields(t, delim)
  }

  lemma WordsSkip(t: string, delim: string)
    requires t != [] && t[0] in delim
    ensures Words(t, delim) == Words(t[1..], delim)
  {
    assert ([[]] + Pieces(t[1..], delim))[1..] == Pieces(t[1..], delim);
  }

  lemma FieldsSplit(p: string, ps: seq<string>)
    requires ps != []
    ensures DropTrailing([p] + ps) == [p] + DropTrailing(ps)
  {
    assert ([p] + ps)[..|ps|] == [p] + ps[..|ps| - 1];
  }

  /** A delimiter at the front is an empty field. */
  lemma FieldsSkip(t: string, delim: string)
    requires t != [] && t[0] in delim
    ensures Fields(t, delim) == [[]] + Fields(t[1..], delim)
  {
    FieldsSplit([], Pieces(t[1..], delim));
  }

  lemma NoParts(delim: string, skip: bool)
    ensures Parts([], delim, skip) == []
  {
    var ps: seq<string> := [[]];
    assert Pieces([], delim) == ps && ps[1..] == [] && NonEmpty(ps[1..]) == [] && ps[..0] == [];
  }

  predicate Free(w: string, delim: string) {
    forall i | 0 <= i < |w| :: w[i] !in delim
  }

  lemma {:induction false} PiecesOfRun(w: string, delim: string)
    requires Free(w, delim)
    ensures Pieces(w, delim) == [w]
  {
    if w != [] {
      PiecesOfRun(w[1..], delim);
      assert [w[0]] + w[1..] == w;
    }
  }

  lemma {:induction false} PiecesAfterRun(w: string, d: char, rest: string, delim: string)
    requires Free(w, delim) && d in delim
    ensures Pieces(w + [d] + rest, delim) == [w] + Pieces(rest, delim)
  {
    var t := w + [d] + rest;
    if w == [] {
      assert t[1..] == rest;
    } else {
      assert t[1..] == w[1..] + [d] + rest && t[0] == w[0];
      PiecesAfterRun(w[1..], d, rest, delim);
      assert [w[0]] + w[1..] == w;
    }
  }

  /** A run at the front is the first part. */
  lemma PartsOfRun(w: string, delim: string, skip: bool)
    requires w != [] && Free(w, delim)
    ensures Parts(w, delim, skip) == [w]
  {
    PiecesOfRun(w, delim);
    assert [w][1..] == [] && NonEmpty([w][1..]) == [];
  }

  lemma PartsAfterRun(w: string, d: char, rest: string, delim: string, skip: bool)
    requires w != [] && Free(w, delim) && d in delim
    ensures Parts(w + [d] + rest, delim, skip) == [w] + Parts(rest, delim, skip)
  {
    PiecesAfterRun(w, d, rest, delim);
    assert ([w] + Pieces(rest, delim))[1..] == Pieces(rest, delim);
    FieldsSplit(w, Pieces(rest, delim));
  }

  // ---------------------------------------------------------------- words and the text they come from

  /** Words with separators before, between and behind them. */
  function Join(seps: seq<string>, ws: seq<string>): string
    requires |seps| == |ws| + 1
  {
    if ws == [] then seps[0] else seps[0] + (ws[0] + Join(seps[1..], ws[1..]))
  }

  predicate AllDelims(s: string, delim: string) {
    forall i | 0 <= i < |s| :: s[i] in delim
  }

  /** Words are not empty and free of delimiters; separators consist of delimiters, and those between two
      words are not empty. */
  ghost predicate Separated(seps: seq<string>, ws: seq<string>, delim: string) {
    && |seps| == |ws| + 1
    && (forall i | 0 <= i < |ws| :: ws[i] != [] && Free(ws[i], delim))
    && (forall i | 0 <= i < |seps| :: AllDelims(seps[i], delim))
    && forall i | 0 < i < |ws| :: seps[i] != []
  }

  lemma {:induction false} WordsBehind(sep: string, t: string, delim: string)
    requires AllDelims(sep, delim)
    ensures Words(sep + t, delim) == Words(t, delim)
  {
    if sep == [] {
      assert sep + t == t;
    } else {
      assert (sep + t)[1..] == sep[1..] + t;
      WordsSkip(sep + t, delim);
      WordsBehind(sep[1..], t, delim);
    }
  }

  lemma SeparatedTail(seps: seq<string>, ws: seq<string>, delim: string)
    requires Separated(seps, ws, delim) && ws != []
    ensures Separated(seps[1..], ws[1..], delim)
  {
  }

  /** A word in front of a text that is empty or starts with a delimiter. */
  lemma WordInFront(w: string, rest: string, delim: string)
    requires w != [] && Free(w, delim) && (rest != [] ==> rest[0] in delim)
    ensures Words(w + rest, delim) == [w] + Words(rest, delim)
  {
    if rest == [] {
      assert w + rest == w;
      PartsOfRun(w, delim, true);
      NoParts(delim, true);
    } else {
      assert w + rest == w + [rest[0]] + rest[1..];
      PartsAfterRun(w, rest[0], rest[1..], delim, true);
      WordsSkip(rest, delim);
    }
  }

  /** However words are separated, they are the words of the text. */
  lemma {:induction false} WordsOfJoin(seps: seq<string>, ws: seq<string>, delim: string)
    requires Separated(seps, ws, delim)
    ensures Words(Join(seps, ws), delim) == ws
    decreases |ws|
  {
    if ws == [] {
      WordsBehind(seps[0], [], delim);
      assert seps[0] + [] == seps[0];
      NoParts(delim, true);
    } else {
      var rest := Join(seps[1..], ws[1..]);
      SeparatedTail(seps, ws, delim);
      WordsOfJoin(seps[1..], ws[1..], delim);
      WordsBehind(seps[0], ws[0] + rest, delim);
      RestStarts(seps, ws, delim);
      WordInFront(ws[0], rest, delim);
      assert [ws[0]] + ws[1..] == ws;
    }
  }

  lemma RestStarts(seps: seq<string>, ws: seq<string>, delim: string)
    requires Separated(seps, ws, delim) && ws != []
    ensures var rest := Join(seps[1..], ws[1..]); rest != [] ==> rest[0] in delim
  {
    assert AllDelims(seps[1], delim);
    if |ws| > 1 {
      assert seps[1] != [];
    }
  }

  /** And every text is its words with such separators: together, the words of a text are determined. */
  lemma {:induction false} JoinOfWords(t: string, delim: string) returns (seps: seq<string>)
    ensures Separated(seps, Words(t, delim), delim) && Join(seps, Words(t, delim)) == t
  {
    if t == [] {
      NoParts(delim, true);
      seps := [""];
    } else {
      var rest := JoinOfWords(t[1..], delim);
      if t[0] in delim {
        WordsSkip(t, delim);
        seps := DelimInFront(t, rest, Words(t[1..], delim), delim);
      } else {
        seps := LetterInFront(t, rest, delim);
      }
    }
  }

  lemma DelimInFront(t: string, rest: seq<string>, ws: seq<string>, delim: string) returns (seps: seq<string>)
    requires t != [] && t[0] in delim && Separated(rest, ws, delim) && Join(rest, ws) == t[1..]
    ensures Separated(seps, ws, delim) && Join(seps, ws) == t
  {
    seps := [[t[0]] + rest[0]] + rest[1..];
    assert seps[1..] == rest[1..];
    if ws != [] {
      assert Join(seps, ws) == [t[0]] + (rest[0] + (ws[0] + Join(rest[1..], ws[1..])));
    }
  }

  /** A letter starts a new word, or joins the word that starts behind it. */
  lemma LetterInFront(t: string, rest: seq<string>, delim: string) returns (seps: seq<string>)
    requires t != [] && t[0] !in delim
    requires Separated(rest, Words(t[1..], delim), delim) && Join(rest, Words(t[1..], delim)) == t[1..]
    ensures Separated(seps, Words(t, delim), delim) && Join(seps, Words(t, delim)) == t
  {
    var u, ws := t[1..], Words(t[1..], delim);
    assert t == [t[0]] + u;
    if u == [] || u[0] in delim {
      WordInFront([t[0]], u, delim);
      seps := NewWord(t, rest, ws, delim);
    } else {
      WordGrows(t, delim);
      FirstSepEmpty(u, rest, ws, delim);
      seps := GrownWord(t, rest, ws, delim);
    }
  }

  lemma NewWord(t: string, rest: seq<string>, ws: seq<string>, delim: string) returns (seps: seq<string>)
    requires t != [] && t[0] !in delim && (|t| > 1 ==> t[1] in delim)
    requires Separated(rest, ws, delim) && Join(rest, ws) == t[1..]
    ensures Separated(seps, [[t[0]]] + ws, delim) && Join(seps, [[t[0]]] + ws) == t
  {
    seps := [""] + rest;
    var vs := [[t[0]]] + ws;
    assert seps[1..] == rest && vs[1..] == ws && t == [t[0]] + t[1..];
  }

  lemma FirstSepEmpty(u: string, rest: seq<string>, ws: seq<string>, delim: string)
    requires u != [] && u[0] !in delim && Separated(rest, ws, delim) && Join(rest, ws) == u
    ensures rest[0] == [] && ws != []
  {
    assert AllDelims(rest[0], delim);
  }

  /** The word that starts the text grows by the letter in front. */
  lemma WordGrows(t: string, delim: string)
    requires |t| > 1 && t[0] !in delim && t[1] !in delim
    ensures var ws := Words(t[1..], delim); ws != [] && Words(t, delim) == [[t[0]] + ws[0]] + ws[1..]
  {
    var ps := Pieces(t[1..], delim);
    assert ps[0] != [] by {
      assert t[1..][0] == t[1];
    }
    var qs := [[t[0]] + ps[0]] + ps[1..];
    assert Pieces(t, delim) == qs && qs[1..] == ps[1..];
  }

  lemma GrownWord(t: string, rest: seq<string>, ws: seq<string>, delim: string) returns (seps: seq<string>)
    requires t != [] && t[0] !in delim && ws != [] && rest != [] && rest[0] == []
    requires Separated(rest, ws, delim) && Join(rest, ws) == t[1..]
    ensures var vs := [[t[0]] + ws[0]] + ws[1..]; Separated(seps, vs, delim) && Join(seps, vs) == t
  {
    seps := rest;
    var vs := [[t[0]] + ws[0]] + ws[1..];
    assert vs[1..] == ws[1..] && t == [t[0]] + t[1..];
    var tail := Join(rest[1..], ws[1..]);
    assert [t[0]] + (ws[0] + tail) == ([t[0]] + ws[0]) + tail;
    assert [] + (ws[0] + tail) == ws[0] + tail && [] + (vs[0] + tail) == vs[0] + tail;
    assert Free(vs[0], delim);
  }

  /** Fields with one delimiter between two neighbours. */
  function JoinFields(ps: seq<string>, ds: string): string
    requires |ps| == |ds| + 1
  {
    if ds == [] then ps[0] else ps[0] + [ds[0]] + JoinFields(ps[1..], ds[1..])
  }

  /** They are the fields of the text, except an empty last one. */
  lemma {:induction false} FieldsOfJoin(ps: seq<string>, ds: string, delim: string)
    requires |ps| == |ds| + 1 && AllDelims(ds, delim) && forall i | 0 <= i < |ps| :: Free(ps[i], delim)
    ensures Pieces(JoinFields(ps, ds), delim) == ps
    ensures Fields(JoinFields(ps, ds), delim) == if ps[|ps| - 1] == [] then ps[..|ps| - 1] else ps
    decreases |ds|
  {
    if ds == [] {
      PiecesOfRun(ps[0], delim);
    } else {
      FieldsOfJoin(ps[1..], ds[1..], delim);
      PiecesAfterRun(ps[0], ds[0], JoinFields(ps[1..], ds[1..]), delim);
      assert [ps[0]] + ps[1..] == ps;
    }
  }

  // ---------------------------------------------------------------- one call

  /** A string lies at `p`: there is a terminator at or behind it. */
  predicate StringAt(mem: seq<char>, p: nat) {
    p < |mem| && NUL in mem[p..]
  }

  lemma StringAtNext(mem: seq<char>, p: nat)
    requires StringAt(mem, p) && mem[p] != NUL
    ensures StringAt(mem, p + 1)
  {
    assert mem[p..] == [mem[p]] + mem[p + 1..];
  }

  /** The first place from `p` on that is not a delimiter. */
  function SkipDelims(mem: seq<char>, p: nat, delim: string): (q: nat)
    requires StringAt(mem, p) && NUL !in delim
    ensures p <= q && StringAt(mem, q) && mem[q] !in delim
    decreases |mem| - p
  {
    if mem[p] in delim then
      StringAtNext(mem, p);
      SkipDelims(mem, p + 1, delim)
    else p
  }

  /** The first delimiter or terminator from `p` on. */
  function TokenEnd(mem: seq<char>, p: nat, delim: string): (e: nat)
    requires StringAt(mem, p)
    ensures p <= e < |mem| && (mem[e] == NUL || mem[e] in delim)
    ensures forall k | p <= k < e :: mem[k] != NUL && mem[k] !in delim
    decreases |mem| - p
  {
    if mem[p] == NUL || mem[p] in delim then p
    else
      StringAtNext(mem, p);
      TokenEnd(mem, p + 1, delim)
  }

  /** The memory, the token and the saved cursor after a call that starts at `p`. */
  datatype Result = Result(mem: seq<char>, token: Option<nat>, lasts: Option<nat>)

  /** A call at cursor `p`. */
  function Token(mem: seq<char>, p: nat, delim: string, skip: bool): (r: Result)
    requires StringAt(mem, p) && NUL !in delim
  {
    if !skip && mem[p] in delim then Result(mem[p := NUL], Some(p), Some(p + 1))
    else
      var q := SkipDelims(mem, p, delim);
      if mem[q] == NUL then Result(mem, None, None)
      else
        var e := TokenEnd(mem, q, delim);
        if mem[e] == NUL then Result(mem, Some(q), None)
        else Result(mem[e := NUL], Some(q), Some(e + 1))
  }

  /** The inner loop over the delimiter string. */
  method IsDelim(c: char, delim: string) returns (r: bool)
    ensures r == (c in delim)
  {
    for i := 0 to |delim|
      invariant c !in delim[..i]
    {
      if delim[i] == c {
        return true;
      }
    }
    assert delim[..|delim|] == delim;
    return false;
  }

  /** _strtok_r. */
  method StrtokR(s: array<char>, start: Option<nat>, delim: string, lasts: Option<nat>, skip: bool)
    returns (token: Option<nat>, lasts': Option<nat>)
    requires NUL !in delim
    requires start.Some? ==> StringAt(s[..], start.value)
    requires start.None? && lasts.Some? ==> StringAt(s[..], lasts.value)
    modifies s
    ensures var p := if start.Some? then start else lasts;
      if p.None? then token.None? && lasts' == lasts && s[..] == old(s[..])
      else Result(s[..], token, lasts') == Token(old(s[..]), p.value, delim, skip)
  {
    var from := if start.Some? then start else lasts;
    if from.None? {
      return None, lasts;
    }
    token, lasts' := StrtokAt(s, from.value, delim, skip);
  }

  /** The same once the place to start is known. */
  method StrtokAt(s: array<char>, start: nat, delim: string, skip: bool)
    returns (token: Option<nat>, lasts: Option<nat>)
    requires NUL !in delim && StringAt(s[..], start)
    modifies s
    ensures Result(s[..], token, lasts) == Token(old(s[..]), start, delim, skip)
  {
    var isDelim := IsDelim(s[start], delim);
    if isDelim && !skip {
      s[start] := NUL;
      return Some(start), Some(start + 1);
    }
    var p := ScanDelims(s, start, delim);
    if s[p] == NUL {
      return None, None;
    }
    token := Some(p);
    var e := ScanToken(s, p, delim);
    if s[e] == NUL {
      lasts := None;
    } else {
      s[e] := NUL;
      lasts := Some(e + 1);
    }
  }

  /** The loop over leading delimiters. */
  method ScanDelims(s: array<char>, start: nat, delim: string) returns (p: nat)
    requires NUL !in delim && StringAt(s[..], start)
    ensures p == SkipDelims(s[..], start, delim)
  {
    ghost var mem := s[..];
    p := start;
    var skip := IsDelim(s[p], delim);
    while skip
      invariant StringAt(mem, p) && skip == (mem[p] in delim)
      invariant SkipDelims(mem, p, delim) == SkipDelims(mem, start, delim)
      decreases |mem| - p
    {
      StringAtNext(mem, p);
      p := p + 1;
      skip := IsDelim(s[p], delim);
    }
  }

  /** The loop over the characters of the token. */
  method ScanToken(s: array<char>, start: nat, delim: string) returns (e: nat)
    requires StringAt(s[..], start)
    ensures e == TokenEnd(s[..], start, delim)
  {
    ghost var mem := s[..];
    e := start;
    var stop := false;
    while !stop
      invariant StringAt(mem, e) && TokenEnd(mem, e, delim) == TokenEnd(mem, start, delim)
      invariant stop ==> mem[e] == NUL || mem[e] in delim
      decreases |mem| - e, !stop
    {
      var d := IsDelim(s[e], delim);
      if s[e] == NUL || d {
        stop := true;
      } else {
        StringAtNext(mem, e);
        e := e + 1;
      }
    }
  }

  // ---------------------------------------------------------------- all calls

  lemma {:induction false} CStringStep(mem: seq<char>, p: nat)
    requires p < |mem| && mem[p] != NUL
    ensures CString(mem[p..]) == [mem[p]] + CString(mem[p + 1..])
  {
    assert mem[p..][1..] == mem[p + 1..];
  }

  lemma {:induction false} CStringRun(mem: seq<char>, p: nat, e: nat)
    requires p <= e < |mem| && forall k | p <= k < e :: mem[k] != NUL
    ensures CString(mem[p..]) == mem[p..e] + CString(mem[e..])
    decreases e - p
  {
    if p < e {
      CStringStep(mem, p);
      CStringRun(mem, p + 1, e);
      assert mem[p..e] == [mem[p]] + mem[p + 1..e];
    }
  }

  lemma {:induction false} SkipKeepsWords(mem: seq<char>, p: nat, delim: string)
    requires StringAt(mem, p) && NUL !in delim
    ensures Words(CString(mem[p..]), delim) == Words(CString(mem[SkipDelims(mem, p, delim)..]), delim)
    decreases |mem| - p
  {
    if mem[p] in delim {
      StringAtNext(mem, p);
      CStringStep(mem, p);
      WordsSkip(CString(mem[p..]), delim);
      SkipKeepsWords(mem, p + 1, delim);
    }
  }

  /** A word of the text lies at `q` and is terminated at `e`. */
  predicate WordAt(mem: seq<char>, q: nat, e: nat, w: string) {
    q <= e < |mem| && mem[e] == NUL && mem[q..e] == w && NUL !in w
  }

  lemma WordAtIsCString(mem: seq<char>, q: nat, e: nat, w: string)
    requires WordAt(mem, q, e, w)
    ensures CString(mem[q..]) == w
  {
    assert mem[q..] == w + [NUL] + mem[e + 1..];
    CStringOf(w, mem[e + 1..]);
  }

  /** Cutting the memory at `e` leaves the word before it and the text behind it. */
  lemma CutAt(mem: seq<char>, q: nat, e: nat)
    requires q <= e < |mem| && forall k | q <= k < e :: mem[k] != NUL
    ensures WordAt(mem[e := NUL], q, e, mem[q..e]) && mem[e := NUL][e + 1..] == mem[e + 1..]
  {
    assert mem[e := NUL][q..e] == mem[q..e];
  }

  lemma {:induction false} TerminatorBehind(mem: seq<char>, p: nat, e: nat)
    requires StringAt(mem, p) && p <= e < |mem| && mem[e] != NUL && forall k | p <= k < e :: mem[k] != NUL
    ensures StringAt(mem, e + 1)
    decreases e - p
  {
    StringAtNext(mem, p);
    if p < e {
      TerminatorBehind(mem, p + 1, e);
    }
  }

  /** The parts of a text that starts with a token. */
  lemma TokenParts(mem: seq<char>, q: nat, delim: string, skip: bool)
    requires StringAt(mem, q) && mem[q] != NUL && mem[q] !in delim
    ensures var e := TokenEnd(mem, q, delim);
      Parts(CString(mem[q..]), delim, skip)
        == [mem[q..e]] + if mem[e] == NUL then [] else Parts(CString(mem[e + 1..]), delim, skip)
  {
    var e := TokenEnd(mem, q, delim);
    var w := mem[q..e];
    CStringRun(mem, q, e);
    if mem[e] == NUL {
      assert CString(mem[e..]) == [] && CString(mem[q..]) == w;
      PartsOfRun(w, delim, skip);
    } else {
      CStringStep(mem, e);
      assert CString(mem[q..]) == w + [mem[e]] + CString(mem[e + 1..]);
      PartsAfterRun(w, mem[e], CString(mem[e + 1..]), delim, skip);
    }
  }

  /** The result of a call that found a token: it is the first of `parts`, it ends at `e`, nothing
      but the character at `e` was changed, and the saved cursor stands before the other parts. */
  predicate PartTaken(mem: seq<char>, p: nat, delim: string, skip: bool, parts: seq<string>, r: Result, e: nat) {
    && parts != [] && r.token.Some? && p <= r.token.value && WordAt(r.mem, r.token.value, e, parts[0])
    && e < |mem| && r.mem == mem[e := NUL]
    && match r.lasts
       case None => parts[1..] == []
       case Some(next) =>
         next == e + 1 && StringAt(r.mem, next) && parts[1..] == Parts(CString(r.mem[next..]), delim, skip)
  }

  /** A token that starts at `q` is taken. */
  lemma TokenAt(mem: seq<char>, q: nat, delim: string, skip: bool)
    requires StringAt(mem, q) && NUL !in delim && mem[q] !in delim && mem[q] != NUL
    ensures PartTaken(mem, q, delim, skip, Parts(CString(mem[q..]), delim, skip),
                      Token(mem, q, delim, skip), TokenEnd(mem, q, delim))
  {
    var e := TokenEnd(mem, q, delim);
    TokenParts(mem, q, delim, skip);
    CutAt(mem, q, e);
    if mem[e] == NUL {
      assert mem[e := NUL] == mem;
    } else {
      TerminatorBehind(mem, q, e);
    }
  }

  /** Without skipping, a delimiter at the cursor ends an empty token. */
  lemma EmptyTokenAt(mem: seq<char>, p: nat, delim: string)
    requires StringAt(mem, p) && NUL !in delim && mem[p] in delim
    ensures PartTaken(mem, p, delim, false, Fields(CString(mem[p..]), delim), Token(mem, p, delim, false), p)
  {
    CStringStep(mem, p);
    FieldsSkip(CString(mem[p..]), delim);
    CutAt(mem, p, p);
    TerminatorBehind(mem, p, p);
  }

  /** Delimiters in front of a token do not change the result. */
  lemma TokenSkips(mem: seq<char>, p: nat, delim: string, skip: bool)
    requires StringAt(mem, p) && NUL !in delim && (skip || mem[p] !in delim)
    ensures Token(mem, p, delim, skip) == Token(mem, SkipDelims(mem, p, delim), delim, skip)
  {
  }

  /** One call takes the first part off the text, or says that there is none. */
  lemma TokenTakesPart(mem: seq<char>, p: nat, delim: string, skip: bool) returns (e: nat)
    requires StringAt(mem, p) && NUL !in delim
    ensures var r, parts := Token(mem, p, delim, skip), Parts(CString(mem[p..]), delim, skip);
      if r.token.None? then parts == [] && r == Result(mem, None, None)
      else PartTaken(mem, p, delim, skip, parts, r, e)
  {
    e := p;
    if !skip && mem[p] in delim {
      EmptyTokenAt(mem, p, delim);
    } else {
      var q := SkipDelims(mem, p, delim);
      if skip {
        SkipKeepsWords(mem, p, delim);
      }
      if mem[q] == NUL {
        NoParts(delim, skip);
        assert CString(mem[q..]) == [];
      } else {
        e := TokenEnd(mem, q, delim);
        TokenAt(mem, q, delim, skip);
        TokenSkips(mem, p, delim, skip);
      }
    }
  }

  /** A later cut does not disturb a word. */
  lemma WordKept(mem: seq<char>, q: nat, e0: nat, w: string, e: nat)
    requires WordAt(mem, q, e0, w) && e0 < e < |mem|
    ensures WordAt(mem[e := NUL], q, e0, w)
  {
    assert mem[e := NUL][q..e0] == mem[q..e0];
  }

  lemma NextIsString(mem: seq<char>, p: nat, delim: string, skip: bool)
    requires StringAt(mem, p) && NUL !in delim
    ensures var r := Token(mem, p, delim, skip);
      r.lasts.Some? ==> p < r.lasts.value && StringAt(r.mem, r.lasts.value) && |r.mem| == |mem|
  {
    var _ := TokenTakesPart(mem, p, delim, skip);
  }

  /** Calling until NULL is returned, first at `p` and then at the saved cursor: the tokens and the
      memory at the end. */
  function AllCalls(mem: seq<char>, p: nat, delim: string, skip: bool): (r: (seq<nat>, seq<char>))
    requires StringAt(mem, p) && NUL !in delim
    decreases |mem| - p
  {
    var r := Token(mem, p, delim, skip);
    if r.token.None? then ([], r.mem)
    else if r.lasts.None? then ([r.token.value], r.mem)
    else
      NextIsString(mem, p, delim, skip);
      var (tokens, mem') := AllCalls(r.mem, r.lasts.value, delim, skip);
      ([r.token.value] + tokens, mem')
  }

  /** The tokens lead to exactly these strings. */
  ghost predicate TokensAre(mem: seq<char>, tokens: seq<nat>, words: seq<string>) {
    |tokens| == |words| && forall i | 0 <= i < |words| :: tokens[i] <= |mem| && CString(mem[tokens[i]..]) == words[i]
  }

  predicate SameBelow(mem: seq<char>, mem': seq<char>, n: nat) {
    |mem'| == |mem| && n <= |mem| && forall k | 0 <= k < n :: mem'[k] == mem[k]
  }

  /** A word is not disturbed by changes behind its end. */
  lemma FirstStays(mem: seq<char>, mem': seq<char>, q: nat, e: nat, w: string)
    requires WordAt(mem, q, e, w) && SameBelow(mem, mem', e + 1)
    ensures q <= |mem'| && CString(mem'[q..]) == w
  {
    assert mem'[q..e] == mem[q..e];
    WordAtIsCString(mem', q, e, w);
  }

  lemma TokensCons(mem: seq<char>, q: nat, tokens: seq<nat>, words: seq<string>)
    requires words != [] && q <= |mem| && CString(mem[q..]) == words[0] && TokensAre(mem, tokens, words[1..])
    ensures TokensAre(mem, [q] + tokens, words)
  {
    forall i | 0 <= i < |words|
      ensures ([q] + tokens)[i] <= |mem| && CString(mem[([q] + tokens)[i]..]) == words[i]
    {
      if i > 0 {
        assert words[1..][i - 1] == words[i];
      }
    }
  }

  /** The part taken by one call, followed by what the later calls return. */
  lemma PartThenRest(mem: seq<char>, p: nat, delim: string, skip: bool, parts: seq<string>, r: Result, e: nat,
                     tokens: seq<nat>, mem': seq<char>)
    requires PartTaken(mem, p, delim, skip, parts, r, e)
    requires SameBelow(r.mem, mem', e + 1) && TokensAre(mem', tokens, parts[1..])
    ensures SameBelow(mem, mem', p) && TokensAre(mem', [r.token.value] + tokens, parts)
  {
    FirstStays(r.mem, mem', r.token.value, e, parts[0]);
    TokensCons(mem', r.token.value, tokens, parts);
  }

  /** For every string and delimiter set, successive calls return exactly the parts of the text in
      order and then NULL; each token can still be read when all calls have been made. */
  lemma {:induction false} AllCallsReturnParts(mem: seq<char>, p: nat, delim: string, skip: bool)
    requires StringAt(mem, p) && NUL !in delim
    ensures var (tokens, mem') := AllCalls(mem, p, delim, skip);
      SameBelow(mem, mem', p) && TokensAre(mem', tokens, Parts(CString(mem[p..]), delim, skip))
    decreases |mem| - p
  {
    var r := Token(mem, p, delim, skip);
    var parts := Parts(CString(mem[p..]), delim, skip);
    var e := TokenTakesPart(mem, p, delim, skip);
    if r.token.Some? {
      if r.lasts.Some? {
        AllCallsReturnParts(r.mem, r.lasts.value, delim, skip);
        var (tokens, mem') := AllCalls(r.mem, r.lasts.value, delim, skip);
        PartThenRest(mem, p, delim, skip, parts, r, e, tokens, mem');
      } else {
        PartThenRest(mem, p, delim, skip, parts, r, e, [], r.mem);
      }
    }
  }
}
