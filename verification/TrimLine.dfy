/** Trimming a line in its buffer (src/misc-progs/ipcopbkcfg.c:96-134). */
module TrimLine {

  import opened CStrings

  predicate IsBlank(c: char) {
    c == '\t' || c == ' '
  }

  predicate IsEol(c: char) {
    c == '\r' || c == '\n'
  }

  function LeadingBlanks(s: string): (n: nat)
    ensures n <= |s|
    ensures forall i :: 0 <= i < n ==> IsBlank(s[i])
    ensures n < |s| ==> !IsBlank(s[n])
  {
    if s == "" || !IsBlank(s[0]) then 0 else 1 + LeadingBlanks(s[1..])
  }

  function TrimRight(s: string): (t: string)
    ensures t <= s
    ensures forall i :: |t| <= i < |s| ==> IsBlank(s[i])
    ensures t != "" ==> !IsBlank(t[|t| - 1])
  {
    if s == "" || !IsBlank(s[|s| - 1]) then s else TrimRight(s[..|s| - 1])
  }

  function Trim(s: string): string {
    TrimRight(s[LeadingBlanks(s)..])
  }

  function Zap(c: char): char {
    if IsEol(c) then NUL else c
  }

  /** The character at position k once the first i characters have been visited, if the line starts
      with `lead` blanks: they pile up at the front, and then the text follows them down. */
  function CharAfter(s: string, i: nat, k: nat): char
    requires k < |s| && i <= |s|
  {
    var lead := LeadingBlanks(s);
    if k >= i then s[k]
    else if i <= lead then (if k == 0 then s[i - 1] else s[k])
    else if k < i - lead then Zap(s[k + lead])
    else Zap(s[k])
  }

  /** What the shifting loop leaves in place of the line.  The old end of the line stays behind the
      shifted text, because the terminating NUL is not moved. */
  function Shifted(s: string): (r: seq<char>)
    ensures |r| == |s|
  {
    ShiftedTo(s, |s|)
  }

  function ShiftedTo(s: string, n: nat): (r: seq<char>)
    requires n <= |s|
    ensures |r| == n
  {
    if n == 0 then [] else ShiftedTo(s, n - 1) + [CharAfter(s, |s|, n - 1)]
  }

  lemma {:induction false} ShiftedAt(s: string, n: nat, k: nat)
    requires k < n <= |s|
    ensures ShiftedTo(s, n)[k] == CharAfter(s, |s|, k)
  {
    if k < n - 1 {
      ShiftedAt(s, n - 1, k);
    }
  }

  lemma LineAt(s: string, k: nat)
    requires k < |s|
    ensures (Shifted(s) + [NUL])[k] == CharAfter(s, |s|, k)
  {
    ShiftedAt(s, |s|, k);
  }

  ghost predicate AllBlank(s: string) {
    forall i :: 0 <= i < |s| ==> IsBlank(s[i])
  }

  /** What the loop over the characters has done when it reaches position i. */
  ghost predicate ShiftedUpTo(buf: seq<char>, s: string, i: nat) {
    && |buf| == |s| + 1 && i <= |s| && buf[|s|] == NUL
    && forall k :: 0 <= k < |s| ==> buf[k] == CharAfter(s, i, k)
  }

  lemma WholeLine(buf: seq<char>, s: string)
    requires ShiftedUpTo(buf, s, |s|)
    ensures buf == Shifted(s) + [NUL]
  {
    forall k | 0 <= k < |s|
      ensures buf[k] == (Shifted(s) + [NUL])[k]
    {
      LineAt(s, k);
    }
  }

  /** One pass through the loop body, on the contents of the buffer. */
  function ShiftOne(buf: seq<char>, i: nat, offset: nat): (r: seq<char>)
    requires offset <= i < |buf|
    ensures |r| == |buf|
  {
    var zapped := buf[i := Zap(buf[i])];
    if offset != 0 then zapped[i - offset := zapped[i]] else zapped
  }

  lemma ShiftOneMore(buf: seq<char>, s: string, i: nat)
    requires ShiftedUpTo(buf, s, i) && i < |s|
    ensures ShiftedUpTo(ShiftOne(buf, i, if i <= LeadingBlanks(s) then i else LeadingBlanks(s)), s, i + 1)
  {
    var lead := LeadingBlanks(s);
    var offset := if i <= lead then i else lead;
    var r := ShiftOne(buf, i, offset);
    forall k | 0 <= k < |s|
      ensures r[k] == CharAfter(s, i + 1, k)
    {
      assert buf[k] == CharAfter(s, i, k) && buf[i] == s[i];
      assert i < lead ==> IsBlank(s[i]);
    }
  }

  method Shift(fbuff: array<char>, ghost s: string)
    requires IsText(s) && fbuff[..] == s + [NUL]
    modifies fbuff
    ensures fbuff[..] == Shifted(s) + [NUL]
  {
    ghost var lead := LeadingBlanks(s);
    var offset, chkSpace, ch := 0, true, 0;
    while fbuff[ch] != NUL
      invariant 0 <= ch <= |s| && ShiftedUpTo(fbuff[..], s, ch)
      invariant chkSpace <==> ch <= lead
      invariant offset == if ch <= lead then ch else lead
      decreases |s| - ch
    {
      assert ch < |s|;
      ghost var buf := fbuff[..];
      ShiftOneMore(buf, s, ch);
      if fbuff[ch] == '\r' || fbuff[ch] == '\n' {
        fbuff[ch] := NUL;
      }
      if offset != 0 {
        fbuff[ch - offset] := fbuff[ch];
      }
      assert fbuff[..] == ShiftOne(buf, ch, offset);
      if fbuff[ch] == '\t' || fbuff[ch] == ' ' {
        if chkSpace {
          offset := offset + 1;
        }
      } else {
        chkSpace := false;
      }
      ch := ch + 1;
    }
    WholeLine(fbuff[..], s);
  }

  lemma {:induction false} TrimRightIs(t: string, n: nat)
    requires n <= |t| && (forall i :: n <= i < |t| ==> IsBlank(t[i])) && (n > 0 ==> !IsBlank(t[n - 1]))
    ensures TrimRight(t) == t[..n]
  {
    if n < |t| {
      TrimRightIs(t[..|t| - 1], n);
      assert t[..|t| - 1][..n] == t[..n];
    } else {
      assert t[..n] == t;
    }
  }

  /** The loop that removes blanks from the end.  If the string has no other character, it runs off
      the front of the buffer; then the loop stops here with `under`. */
  method CutEnd(fbuff: array<char>) returns (under: bool)
    requires StrLen(fbuff[..]) < fbuff.Length
    modifies fbuff
    ensures under <==> AllBlank(StringIn(old(fbuff[..])))
    ensures StringIn(fbuff[..]) == TrimRight(StringIn(old(fbuff[..])))
  {
    ghost var t := StringIn(fbuff[..]);
    var len := 0;
    while fbuff[len] != NUL
      invariant 0 <= len <= |t|
      decreases |t| - len
    {
      len := len + 1;
    }
    assert len == |t|;
    var ch := len - 1;
    while ch >= 0 && IsBlank(fbuff[ch])
      invariant -1 <= ch < len
      invariant forall i :: 0 <= i <= ch ==> fbuff[i] == t[i]
      invariant fbuff[ch + 1] == NUL
      invariant forall i :: ch < i < len ==> IsBlank(t[i])
    {
      fbuff[ch] := NUL;
      ch := ch - 1;
    }
    StringInIs(fbuff[..], t[..ch + 1]);
    TrimRightIs(t, ch + 1);
    under := ch < 0;
  }

  // ---- when the line comes out trimmed ----

  /** The text before the first line end. */
  function Body(s: string): (b: string)
    ensures b <= s
    ensures forall i :: 0 <= i < |b| ==> !IsEol(b[i])
    ensures |b| < |s| ==> IsEol(s[|b|])
  {
    if s == "" || IsEol(s[0]) then "" else [s[0]] + Body(s[1..])
  }

  predicate HasEol(s: string) {
    |Body(s)| < |s|
  }

  /** Either a line end stops the shifted text, or nothing is shifted, or what the shift leaves behind
      it is blank and is cut with the end. */
  ghost predicate LeavesNoRest(s: string) {
    var lead := LeadingBlanks(s);
    HasEol(s) || AllBlank(s[|s| - lead..])
  }

  lemma CharOfBody(s: string, i: nat)
    requires HasEol(s) && LeadingBlanks(s) + i < |Body(s)|
    ensures CharAfter(s, |s|, i) == s[LeadingBlanks(s) + i] == Body(s)[LeadingBlanks(s) + i]
  {
  }

  lemma CharBehindBody(s: string)
    requires HasEol(s) && LeadingBlanks(s) <= |Body(s)|
    ensures CharAfter(s, |s|, |Body(s)| - LeadingBlanks(s)) == NUL
  {
  }

  lemma StringOfEolLine(s: string)
    requires IsText(s) && HasEol(s)
    ensures LeadingBlanks(s) <= |Body(s)| && StringIn(Shifted(s) + [NUL]) == Body(s)[LeadingBlanks(s)..]
  {
    var lead, e := LeadingBlanks(s), |Body(s)|;
    assert lead <= e by {
      assert lead > e ==> IsBlank(s[e]);
    }
    var r, t := Shifted(s) + [NUL], Body(s)[lead..];
    forall i | 0 <= i < |t|
      ensures r[i] == t[i] && t[i] != NUL
    {
      LineAt(s, i);
      CharOfBody(s, i);
    }
    LineAt(s, |t|);
    CharBehindBody(s);
    StringInIs(r, t);
  }

  ghost predicate NoEol(s: string) {
    forall i :: 0 <= i < |s| ==> !IsEol(s[i])
  }

  lemma OpenLineIsItsBody(s: string)
    requires !HasEol(s)
    ensures Body(s) == s && NoEol(s)
  {
  }

  lemma CharOfOpenLine(s: string, k: nat)
    requires NoEol(s) && k < |s| && LeadingBlanks(s) < |s|
    ensures (Shifted(s) + [NUL])[k] == s[if k < |s| - LeadingBlanks(s) then k + LeadingBlanks(s) else k]
  {
    LineAt(s, k);
  }

  lemma LengthOfOpenLine(s: string, r: seq<char>)
    requires IsText(s) && NoEol(s) && LeadingBlanks(s) < |s| && r == Shifted(s) + [NUL]
    ensures StringIn(r) == r[..|s|]
  {
    forall k | 0 <= k < |s|
      ensures r[k] != NUL
    {
      CharOfOpenLine(s, k);
    }
    StrLenIs(r, |s|);
  }

  lemma FrontIsText(s: string, r: seq<char>)
    requires NoEol(s) && LeadingBlanks(s) < |s| && r == Shifted(s) + [NUL]
    ensures r[..|s| - LeadingBlanks(s)] == s[LeadingBlanks(s)..]
  {
    forall k | 0 <= k < |s| - LeadingBlanks(s)
      ensures r[k] == s[k + LeadingBlanks(s)]
    {
      CharOfOpenLine(s, k);
    }
  }

  lemma BackIsRest(s: string, r: seq<char>)
    requires NoEol(s) && LeadingBlanks(s) < |s| && r == Shifted(s) + [NUL]
    ensures r[|s| - LeadingBlanks(s)..|s|] == s[|s| - LeadingBlanks(s)..]
  {
    forall k | |s| - LeadingBlanks(s) <= k < |s|
      ensures r[k] == s[k]
    {
      CharOfOpenLine(s, k);
    }
  }

  lemma FrontOfOpenLine(s: string, r: seq<char>) returns (text: string)
    requires !HasEol(s) && LeadingBlanks(s) < |s| && r == Shifted(s) + [NUL]
    ensures r[..|s| - LeadingBlanks(s)] == text
    ensures text != "" && !IsBlank(text[0]) && Trim(Body(s)) == TrimRight(text) && !AllBlank(Body(s))
  {
    OpenLineIsItsBody(s);
    FrontIsText(s, r);
    text := s[LeadingBlanks(s)..];
    assert text[0] == s[LeadingBlanks(s)];
  }

  lemma BackOfOpenLine(s: string, r: seq<char>) returns (rest: string)
    requires !HasEol(s) && LeadingBlanks(s) < |s| && r == Shifted(s) + [NUL]
    ensures r[|s| - LeadingBlanks(s)..|s|] == rest
    ensures AllBlank(rest) <==> LeavesNoRest(s)
  {
    OpenLineIsItsBody(s);
    BackIsRest(s, r);
    rest := s[|s| - LeadingBlanks(s)..];
  }

  lemma InTwoParts(r: seq<char>, n: nat, m: nat)
    requires n <= m <= |r|
    ensures r[..m] == r[..n] + r[n..m]
  {
  }

  /** What a line without end becomes: the text, and behind it as much of the old end as it moved. */
  lemma StringOfOpenLine(s: string) returns (text: string, rest: string)
    requires IsText(s) && !HasEol(s) && LeadingBlanks(s) < |s|
    ensures StringIn(Shifted(s) + [NUL]) == text + rest
    ensures text != "" && !IsBlank(text[0]) && Trim(Body(s)) == TrimRight(text) && !AllBlank(Body(s))
    ensures AllBlank(rest) <==> LeavesNoRest(s)
  {
    var r := Shifted(s) + [NUL];
    OpenLineIsItsBody(s);
    LengthOfOpenLine(s, r);
    text := FrontOfOpenLine(s, r);
    rest := BackOfOpenLine(s, r);
    InTwoParts(r, |s| - LeadingBlanks(s), |s|);
  }

  lemma ShiftedBlankLine(s: string)
    requires LeadingBlanks(s) == |s|
    ensures AllBlank(StringIn(Shifted(s) + [NUL]))
  {
    var r := Shifted(s) + [NUL];
    forall i | 0 <= i < |s|
      ensures IsBlank(r[i])
    {
      LineAt(s, i);
    }
    assert r[|s|] == NUL;
    StrLenIs(r, |s|);
  }

  lemma {:induction false} TrimRightOfSum(a: string, b: string)
    ensures AllBlank(b) ==> TrimRight(a + b) == TrimRight(a)
    ensures !AllBlank(b) ==> |TrimRight(a + b)| > |a|
  {
    if b == "" {
      assert a + b == a;
    } else {
      var b' := b[..|b| - 1];
      assert (a + b)[..|a + b| - 1] == a + b';
      TrimRightOfSum(a, b');
    }
  }

  lemma BlankBody(s: string)
    ensures AllBlank(Body(s)) <==> LeadingBlanks(Body(s)) == |Body(s)|
    ensures LeadingBlanks(Body(s)) == LeadingBlanks(s)
  {
    var b, n := Body(s), LeadingBlanks(Body(s));
    assert forall i :: 0 <= i < n ==> IsBlank(s[i]);
    assert n < |b| ==> !IsBlank(b[n]) && b[n] == s[n];
    assert n == |b| && |b| < |s| ==> !IsBlank(s[n]);
  }

  lemma DropIsBlankIff(b: string)
    ensures AllBlank(b[LeadingBlanks(b)..]) <==> AllBlank(b)
  {
    var lead := LeadingBlanks(b);
    if lead < |b| {
      assert b[lead..][0] == b[lead];
    }
  }

  lemma SumIsTrimmedIff(text: string, rest: string)
    requires text != "" && !IsBlank(text[0])
    ensures !AllBlank(text + rest) && (TrimRight(text + rest) == TrimRight(text) <==> AllBlank(rest))
  {
    assert (text + rest)[0] == text[0];
    TrimRightOfSum(text, rest);
  }

  lemma EolLineIsTrimmed(s: string)
    requires IsText(s) && HasEol(s)
    ensures var t := StringIn(Shifted(s) + [NUL]);
            && (AllBlank(t) <==> AllBlank(Body(s)))
            && (!AllBlank(t) ==> (TrimRight(t) == Trim(Body(s)) <==> LeavesNoRest(s)))
  {
    BlankBody(s);
    StringOfEolLine(s);
    DropIsBlankIff(Body(s));
  }

  lemma OpenLineIsTrimmedIff(s: string)
    requires IsText(s) && !HasEol(s)
    ensures var t := StringIn(Shifted(s) + [NUL]);
            && (AllBlank(t) <==> AllBlank(Body(s)))
            && (!AllBlank(t) ==> (TrimRight(t) == Trim(Body(s)) <==> LeavesNoRest(s)))
  {
    if LeadingBlanks(s) < |s| {
      var text, rest := StringOfOpenLine(s);
      SumIsTrimmedIff(text, rest);
    } else {
      ShiftedBlankLine(s);
      BlankBody(s);
    }
  }

  /** What the string in the buffer is after both loops, for every line. */
  lemma TrimmedIffNoRest(s: string)
    requires IsText(s)
    ensures var t := StringIn(Shifted(s) + [NUL]);
            && (AllBlank(t) <==> AllBlank(Body(s)))
            && (!AllBlank(t) ==> (TrimRight(t) == Trim(Body(s)) <==> LeavesNoRest(s)))
  {
    if HasEol(s) {
      EolLineIsTrimmed(s);
    } else {
      OpenLineIsTrimmedIff(s);
    }
  }

  /** add_file on one line.  The second loop runs off the front of the buffer exactly when there is
      nothing but blanks before the line end; otherwise the line comes out trimmed exactly when the
      shift leaves no rest, as it never does when the line has its end. */
  method TrimInPlace(fbuff: array<char>, ghost s: string) returns (under: bool)
    requires IsText(s) && fbuff[..] == s + [NUL]
    modifies fbuff
    ensures under <==> AllBlank(Body(s))
    ensures !under ==> (StringIn(fbuff[..]) == Trim(Body(s)) <==> LeavesNoRest(s))
  {
    Shift(fbuff, s);
    TrimmedIffNoRest(s);
    assert StrLen(Shifted(s) + [NUL]) <= |s| by {
      assert (Shifted(s) + [NUL])[|s|] == NUL;
    }
    under := CutEnd(fbuff);
  }

  /** The last line of a file, if it has no line end and starts with blanks. */
  lemma OpenLineIsNotTrimmed()
    ensures !LeavesNoRest(" a") && StringIn(Shifted(" a") + [NUL]) == "aa" && Trim(Body(" a")) == "a"
  {
    var s := " a";
    assert s[1..] == "a" && LeadingBlanks("a") == 0 && LeadingBlanks(s) == 1;
    assert Body("a") == ['a'] + Body("a"[1..]) && Body(s) == s;
    LineAt(s, 0);
    LineAt(s, 1);
    StringInIs(Shifted(s) + [NUL], "aa");
    assert TrimRight("a") == "a";
  }

  // ---- what trimming means ----

  predicate Blanks(s: string) {
    forall i :: 0 <= i < |s| ==> s[i] in {' ', '\t'}
  }

  lemma {:induction false} LeadingBlanksAre(gap: string, s: string)
    requires Blanks(gap) && s != "" && s[0] !in {' ', '\t'}
    ensures LeadingBlanks(gap + s) == |gap|
  {
    if gap == "" {
      assert gap + s == s;
    } else {
      assert (gap + s)[1..] == gap[1..] + s;
      LeadingBlanksAre(gap[1..], s);
    }
  }

  lemma {:induction false} TrailingBlanksGo(s: string, gap: string)
    requires Blanks(gap) && s != "" && s[|s| - 1] !in {' ', '\t'}
    ensures TrimRight(s + gap) == s
  {
    if gap == "" {
      assert s + gap == s;
    } else {
      var before := gap[..|gap| - 1];
      assert (s + gap)[..|s + gap| - 1] == s + before && (s + gap)[|s + gap| - 1] == gap[|gap| - 1];
      TrailingBlanksGo(s, before);
    }
  }

  /** Trimming takes the blanks and tabs away at both ends. */
  lemma TrimTakesBlanks(gap: string, text: string, gap': string)
    requires Blanks(gap) && Blanks(gap') && text != "" && text[0] !in {' ', '\t'} && text[|text| - 1] !in {' ', '\t'}
    ensures Trim(gap + (text + gap')) == text
  {
    var s := text + gap';
    assert s[0] == text[0];
    LeadingBlanksAre(gap, s);
    assert (gap + s)[|gap|..] == s;
    TrailingBlanksGo(text, gap');
  }

  /** The text of a line stands before its first CR or LF. */
  lemma {:induction false} BodyIsBeforeEnd(text: string, end: char, rest: string)
    requires (forall i :: 0 <= i < |text| ==> text[i] !in {'\r', '\n'}) && end in {'\r', '\n'}
    ensures Body(text) == text == Body(text + ([end] + rest))
  {
    var s := text + ([end] + rest);
    if text == "" {
      assert s[0] == end;
    } else {
      assert s[0] == text[0] && s[1..] == text[1..] + ([end] + rest);
      BodyIsBeforeEnd(text[1..], end, rest);
      assert text == [text[0]] + text[1..];
    }
  }
}
