/** How the shell turns a command line into argc and argv. */
module Shell {
  import opened CStrings
  import opened Common
  import opened Strtok

  const MAX_ARGS := 10

  const CMD_BUF := 40

  const DELIM := " \t\n"

  datatype Outcome = Run | TooLong | IsNull | NoSuchCmd | AssertFailed

  /** The strings that the pointers lead to, each with the place where it ends, are these words. */
  ghost predicate Holds(mem: seq<char>, argv: seq<nat>, ends: seq<nat>, words: seq<string>, limit: nat) {
    && |argv| == |ends| <= |words|
    && forall i | 0 <= i < |argv| :: WordAt(mem, argv[i], ends[i], words[i]) && ends[i] < limit
  }

  /** The words that strtok_r has still to return. */
  function Remaining(mem: seq<char>, lasts: Option<nat>): seq<string>
    requires lasts.Some? ==> lasts.value <= |mem|
  {
    if lasts.None? then [] else Words(CString(mem[lasts.value..]), DELIM)
  }

  predicate Ready(mem: seq<char>, lasts: Option<nat>) {
    lasts.Some? ==> StringAt(mem, lasts.value)
  }

  /** Everything known between two calls of strtok_r: `argv` leads to the first words of the line and
      the saved cursor stands before the others. */
  ghost predicate Split(mem: seq<char>, argv: seq<nat>, ends: seq<nat>, words: seq<string>, lasts: Option<nat>) {
    && Ready(mem, lasts)
    && Holds(mem, argv, ends, words, if lasts.Some? then lasts.value else |mem|)
    && words[|argv|..] == Remaining(mem, lasts)
  }

  lemma SplitNext(mem: seq<char>, p: nat, argv: seq<nat>, ends: seq<nat>, words: seq<string>, r: Result, e: nat)
    requires Split(mem, argv, ends, words, Some(p))
    requires PartTaken(mem, p, DELIM, true, words[|argv|..], r, e)
    ensures |argv| < |words|
    ensures Split(r.mem, argv + [r.token.value], ends + [e], words, r.lasts)
  {
    forall i | 0 <= i < |argv|
      ensures WordAt(r.mem, argv[i], ends[i], words[i]) && ends[i] < e + 1
    {
      WordKept(mem, argv[i], ends[i], words[i], e);
    }
    assert words[|argv|..][0] == words[|argv|] && words[|argv|..][1..] == words[|argv| + 1..];
  }

  /** One call of strtok_r, at `start` or at the saved cursor. */
  method NextWord(cmdBuf: array<char>, start: Option<nat>, saved: Option<nat>,
                  ghost argv: seq<nat>, ghost ends: seq<nat>, ghost words: seq<string>)
    returns (token: Option<nat>, lasts: Option<nat>, ghost ends': seq<nat>)
    requires Split(cmdBuf[..], argv, ends, words, if start.Some? then start else saved)
    modifies cmdBuf
    ensures if token.None? then |argv| == |words| && cmdBuf[..] == old(cmdBuf[..]) && ends' == ends
            else |argv| < |words| && Split(cmdBuf[..], argv + [token.value], ends', words, lasts)
  {
    ghost var mem := cmdBuf[..];
    ghost var from := if start.Some? then start else saved;
    ends' := ends;
    ghost var e := 0;
    if from.Some? {
      e := TokenTakesPart(mem, from.value, DELIM, true);
    }
    token, lasts := StrtokR(cmdBuf, start, DELIM, saved, true);
    if token.Some? {
      SplitNext(mem, from.value, argv, ends, words, Token(mem, from.value, DELIM, true), e);
      ends' := ends + [e];
    }
  }

  /** SHELL_RunCmd up to the call of the command's function.  If it gets that far, argv leads to
      exactly the words of the line, in order, in the buffer that strtok_r has cut up. */
  method RunCmd(line: Option<string>, commands: seq<string>, cmdBuf: array<char>)
    returns (outcome: Outcome, argv: seq<nat>)
    requires cmdBuf.Length == CMD_BUF && (line.Some? ==> NUL !in line.value)
    modifies cmdBuf
    ensures line.None? ==> outcome == IsNull
    ensures line.Some? && |line.value| >= 40 ==> outcome == TooLong
    ensures line.Some? && |line.value| < 40 ==>
      var words := Words(line.value, " \t\n");
      && outcome == (if words == [] then IsNull else if words[0] !in commands then NoSuchCmd
                     else if |words| > 10 then AssertFailed else Run)
      && (outcome == Run ==> TokensAre(cmdBuf[..], argv, words))
  {
    argv := [];
    if line.None? {
      return IsNull, [];
    }
    if |line.value| + 1 > cmdBuf.Length {
      return TooLong, [];
    }
    ghost var words := Words(line.value, DELIM);
    CopyLine(line.value, cmdBuf);
    assert cmdBuf[..][0..] == cmdBuf[..] && words[0..] == words;
    var token, lasts, ends := NextWord(cmdBuf, Some(0), None, [], [], words);
    if token.None? {
      return IsNull, [];
    }
    assert WordAt(cmdBuf[..], token.value, ends[0], words[0]);
    var cmd := ReadString(cmdBuf, token.value, ends[0]);
    if cmd !in commands {
      return NoSuchCmd, [];
    }
    outcome, argv := CollectArgs(cmdBuf, token.value, lasts, ends, words);
  }

  /** memcpy of the line and its terminator. */
  method CopyLine(line: string, cmdBuf: array<char>)
    requires |line| + 1 <= cmdBuf.Length && NUL !in line
    modifies cmdBuf
    ensures CString(cmdBuf[..]) == line && StringAt(cmdBuf[..], 0)
  {
    forall i | 0 <= i < |line| {
      cmdBuf[i] := line[i];
    }
    cmdBuf[|line|] := NUL;
    assert cmdBuf[..] == line + [NUL] + cmdBuf[|line| + 1..];
    CStringOf(line, cmdBuf[|line| + 1..]);
    assert cmdBuf[..][0..] == cmdBuf[..] && cmdBuf[..][|line|] == NUL;
  }

  /** The string at a place, as strcmp sees it. */
  method ReadString(mem: array<char>, q: nat, ghost e: nat) returns (s: string)
    requires q <= e < mem.Length && mem[e] == NUL && NUL !in mem[q..e]
    ensures s == mem[q..e]
  {
    s := [];
    var i := q;
    while mem[i] != NUL
      invariant q <= i <= e && s == mem[q..i]
      decreases e - i
    {
      s := s + [mem[i]];
      i := i + 1;
    }
  }

  /** The loop that fills argv. */
  method CollectArgs(cmdBuf: array<char>, first: nat, saved: Option<nat>, ghost ends0: seq<nat>, ghost words: seq<string>)
    returns (outcome: Outcome, argv: seq<nat>)
    requires Split(cmdBuf[..], [first], ends0, words, saved)
    modifies cmdBuf
    ensures outcome == if |words| > MAX_ARGS then AssertFailed else Run
    ensures outcome == Run ==> TokensAre(cmdBuf[..], argv, words)
  {
    argv := [first];
    ghost var ends := ends0;
    var lasts: Option<nat> := saved;
    var more := true;
    while more
      invariant |argv| <= MAX_ARGS && |argv| <= |words|
      invariant more ==> Split(cmdBuf[..], argv, ends, words, lasts)
      invariant !more ==> Holds(cmdBuf[..], argv, ends, words, cmdBuf.Length) && |argv| == |words|
      decreases |words| - |argv|, more
    {
      var token: Option<nat>;
      token, lasts, ends := NextWord(cmdBuf, None, lasts, argv, ends, words);
      if token.None? {
        more := false;
      } else if |argv| >= MAX_ARGS {
        return AssertFailed, [];
      } else {
        argv := argv + [token.value];
      }
    }
    forall i | 0 <= i < |words|
      ensures argv[i] <= cmdBuf.Length && CString(cmdBuf[..][argv[i]..]) == words[i]
    {
      WordAtIsCString(cmdBuf[..], argv[i], ends[i], words[i]);
    }
    outcome := Run;
  }
}
