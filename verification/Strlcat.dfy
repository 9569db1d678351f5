/** The bounded concatenation of the setuid helpers (src/misc-progs/setuid.c:117-138). */
module Strlcat {

  import opened CStrings

  function Min(a: nat, b: nat): nat {
    if a < b then a else b
  }

  /** How many characters of the source go behind a string of n characters in a buffer of len. */
  function Fitting(n: nat, src: string, len: nat): (m: nat)
    requires n < len
    ensures m <= |src| && n + m < len
  {
    Min(|src|, len - n - 1)
  }

  function CatenatedAt(buf: seq<char>, n: nat, src: string, m: nat, i: nat): char
    requires m <= |src| && i < |buf|
  {
    if i < n || i > n + m then buf[i] else if i == n + m then NUL else src[i - n]
  }

  /** The whole buffer after the call: nothing changes if no end is found within len; otherwise the
      fitting part of the source and a NUL are written behind the string, and nothing else. */
  function Catenated(buf: seq<char>, src: string, len: nat): (r: seq<char>)
    requires len <= |buf|
    ensures |r| == |buf|
  {
    var n := Min(StrLen(buf), len);
    if n == len then buf
    else
      var m := Fitting(n, src, len);
      seq(|buf|, i requires 0 <= i < |buf| => CatenatedAt(buf, n, src, m, i))
  }

  lemma CatenatedIs(buf: seq<char>, src: string, len: nat, r: seq<char>)
    requires StrLen(buf) < len <= |buf| == |r|
    requires forall i :: 0 <= i < |r| ==> r[i] == CatenatedAt(buf, StrLen(buf), src, Fitting(StrLen(buf), src, len), i)
    ensures r == Catenated(buf, src, len)
  {
  }

  lemma LengthWithin(buf: seq<char>, n: nat, len: nat)
    requires n <= len <= |buf| && (forall i :: 0 <= i < n ==> buf[i] != NUL) && (n == len || buf[n] == NUL)
    ensures n == Min(StrLen(buf), len)
  {
    if n < len {
      StrLenIs(buf, n);
    }
  }

  method Strlcat(dst: array<char>, src: string, len: nat) returns (r: nat)
    requires len <= dst.Length
    modifies dst
    ensures dst[..] == Catenated(old(dst[..]), src, len)
    ensures r == Min(StrLen(old(dst[..])), len) + |src|
  {
    ghost var buf := dst[..];
    var dstptr, tocopy := 0, len;
    while tocopy != 0 && dst[dstptr] != NUL
      invariant 0 <= dstptr && 0 <= tocopy && dstptr + tocopy == len
      invariant forall i :: 0 <= i < dstptr ==> buf[i] != NUL
      decreases tocopy
    {
      tocopy := tocopy - 1;
      dstptr := dstptr + 1;
    }
    var dstlen := dstptr;
    LengthWithin(buf, dstlen, len);
    tocopy := len - dstlen;
    if tocopy == 0 {
      return dstlen + |src|;
    }
    var srcptr := 0;
    while srcptr < |src|
      invariant 0 <= srcptr <= |src|
      invariant tocopy >= 1 && dstptr + tocopy == len
      invariant dstptr - dstlen == Min(srcptr, len - dstlen - 1)
      invariant forall i :: 0 <= i < dst.Length ==> dst[i] == if dstlen <= i < dstptr then src[i - dstlen] else buf[i]
    {
      if tocopy != 1 {
        dst[dstptr] := src[srcptr];
        dstptr := dstptr + 1;
        tocopy := tocopy - 1;
      }
      srcptr := srcptr + 1;
    }
    dst[dstptr] := NUL;
    CatenatedIs(buf, src, len, dst[..]);
    r := dstlen + srcptr;
  }

  // ---- what that means for the strings ----

  /** The string d + src cut to what a buffer of len can hold. */
  function Cut(s: string, len: nat): string
    requires len > 0
  {
    s[..Min(|s|, len - 1)]
  }

  lemma JoinedText(buf: seq<char>, d: string, src: string, m: nat, r: seq<char>)
    requires IsText(d) && IsText(src) && m <= |src| && |d| + m < |buf| == |r|
    requires forall i :: 0 <= i < |d| ==> buf[i] == d[i]
    requires forall i :: 0 <= i < |r| ==> r[i] == CatenatedAt(buf, |d|, src, m, i)
    ensures StrLen(r) == |d| + m && StringIn(r) == d + src[..m]
  {
    var t := d + src[..m];
    forall i | 0 <= i < |t|
      ensures r[i] == t[i] && t[i] != NUL
    {
      assert r[i] == CatenatedAt(buf, |d|, src, m, i);
    }
    assert r[|t|] == CatenatedAt(buf, |d|, src, m, |t|);
    StringInIs(r, t);
  }

  lemma TextOf(buf: seq<char>) returns (d: string)
    ensures d == StringIn(buf) && |d| == StrLen(buf) && IsText(d)
    ensures forall i :: 0 <= i < |d| ==> buf[i] == d[i]
  {
    d := StringIn(buf);
  }

  lemma CatenatedStarts(buf: seq<char>, src: string, len: nat)
    requires len <= |buf| && IsText(src) && StrLen(buf) < len
    ensures var m := Fitting(StrLen(buf), src, len);
            StrLen(Catenated(buf, src, len)) == StrLen(buf) + m && StringIn(Catenated(buf, src, len)) == StringIn(buf) + src[..m]
  {
    var d := TextOf(buf);
    JoinedText(buf, d, src, Fitting(StrLen(buf), src, len), Catenated(buf, src, len));
  }

  /** A string that ends within len is followed by as much of the source as fits, and the result ends
      within len again. */
  lemma StringAfter(buf: seq<char>, src: string, len: nat)
    requires len <= |buf| && IsText(src) && StrLen(buf) < len
    ensures StringIn(Catenated(buf, src, len)) == Cut(StringIn(buf) + src, len)
    ensures StrLen(Catenated(buf, src, len)) < len
    ensures forall i :: len <= i < |buf| ==> Catenated(buf, src, len)[i] == buf[i]
  {
    CatenatedStarts(buf, src, len);
    CutOfSum(StringIn(buf), src, len);
  }

  lemma CutOfSum(d: string, src: string, len: nat)
    requires |d| < len
    ensures Cut(d + src, len) == d + src[..Fitting(|d|, src, len)]
  {
  }

  /** The returned length tells whether something was cut off. */
  lemma ReturnTellsTruncation(buf: seq<char>, src: string, len: nat)
    requires len <= |buf| && IsText(src) && StrLen(buf) < len
    ensures Min(StrLen(buf), len) + |src| >= len <==> StringIn(Catenated(buf, src, len)) != StringIn(buf) + src
  {
    StringAfter(buf, src, len);
    CutIsIdentity(StringIn(buf) + src, len);
  }

  lemma CutIsIdentity(s: string, len: nat)
    requires len > 0
    ensures Cut(s, len) == s <==> |s| < len
  {
  }

  lemma CutsCompose(d: string, a: string, b: string, len: nat)
    requires len > 0
    ensures Cut(Cut(d + a, len) + b, len) == Cut(d + (a + b), len)
  {
    assert d + (a + b) == (d + a) + b;
    if |d + a| >= len {
      var c := Cut(d + a, len);
      assert c == (d + a)[..len - 1];
      assert (c + b)[..len - 1] == c;
      assert ((d + a) + b)[..len - 1] == c;
    }
  }

  /** Appending two strings one after the other is appending them joined. */
  lemma AppendsCompose(buf: seq<char>, a: string, b: string, len: nat)
    requires len <= |buf| && IsText(a) && IsText(b) && StrLen(buf) < len
    ensures StringIn(Catenated(Catenated(buf, a, len), b, len)) == StringIn(Catenated(buf, a + b, len))
  {
    StringAfter(buf, a, len);
    StringAfter(Catenated(buf, a, len), b, len);
    StringAfter(buf, a + b, len);
    CutsCompose(StringIn(buf), a, b, len);
  }
}
