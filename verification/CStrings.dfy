/** NUL-terminated strings in character buffers. */
module CStrings {

  const NUL: char := '\0'

  /** A C string proper: a text without NUL. */
  predicate IsText(s: string) {
    forall i :: 0 <= i < |s| ==> s[i] != NUL
  }

  /** The length of the string that starts a buffer: the position of the first NUL, or the whole. */
  function StrLen(buf: seq<char>): (n: nat)
    ensures n <= |buf|
    ensures n < |buf| ==> buf[n] == NUL
    ensures forall i :: 0 <= i < n ==> buf[i] != NUL
  {
    if buf == [] || buf[0] == NUL then 0 else 1 + StrLen(buf[1..])
  }

  /** The string that starts a buffer. */
  function StringIn(buf: seq<char>): (s: string)
    ensures IsText(s)
  {
    buf[..StrLen(buf)]
  }

  lemma StrLenIs(buf: seq<char>, n: nat)
    requires n < |buf| && buf[n] == NUL && forall i :: 0 <= i < n ==> buf[i] != NUL
    ensures StrLen(buf) == n
  {
  }

  lemma StringInIs(buf: seq<char>, t: string)
    requires |t| < |buf| && buf[|t|] == NUL && IsText(t)
    requires forall i :: 0 <= i < |t| ==> buf[i] == t[i]
    ensures StrLen(buf) == |t| && StringIn(buf) == t
  {
    StrLenIs(buf, |t|);
  }
}
