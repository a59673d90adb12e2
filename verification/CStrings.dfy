/** Strings that end at the first NUL. */
module CStrings {

  const NUL := '\0'

  /** The characters before the first NUL. */
  function CString(s: seq<char>): (t: string)
    ensures |t| <= |s|
  {
    if s == [] || s[0] == NUL then [] else [s[0]] + CString(s[1..])
  }

  lemma {:induction false} CStringOf(t: string, rest: seq<char>)
    requires NUL !in t
    ensures CString(t + [NUL] + rest) == t
  {
    var s := t + [NUL] + rest;
    if t != [] {
      assert s[1..] == t[1..] + [NUL] + rest;
      CStringOf(t[1..], rest);
    }
  }
}
