/** The test for dotted quads (src/installer/helper.c:712-724). */
module ValidIp {

  import opened Bitwise
  import opened Wrappers
  import opened Decimals

  // ---- the function ----

  function DigitRun(s: string, max: nat): (n: nat)
    ensures n <= |s| && n <= max
    ensures forall i :: 0 <= i < n ==> IsDigit(s[i])
    ensures n < max && n < |s| ==> !IsDigit(s[n])
  {
    if max == 0 || s == "" || !IsDigit(s[0]) then 0 else 1 + DigitRun(s[1..], max - 1)
  }

  /** The conversion %3u on a text without blanks or signs: the number and the text behind it. */
  function ScanNumber(s: string): Option<(nat, string)> {
    var n := DigitRun(s, 3);
    if n == 0 then None else Some((NumberOf(s[..n]), s[n..]))
  }

  function ScanDot(s: string): Option<string> {
    if s != "" && s[0] == '.' then Some(s[1..]) else None
  }

  /** n numbers with dots between them, and nothing behind. */
  function ScanFields(s: string, n: nat): (r: Option<seq<nat>>)
    ensures r.Some? ==> |r.value| == n
  {
    if n == 0 then Some([])
    else
      var first := ScanNumber(s);
      if first.None? then None
      else if n == 1 then
        if first.value.1 == "" then Some([first.value.0]) else None
      else
        var dot := ScanDot(first.value.1);
        if dot.None? then None
        else
          var others := ScanFields(dot.value, n - 1);
          if others.None? then None else Some([first.value.0] + others.value)
  }

  /** sscanf with "%3u.%3u.%3u.%3u%c" converts exactly four fields: four numbers, and then no
      character is left for the fifth. */
  function ScanQuad(s: string): (r: Option<seq<nat>>)
    ensures r.Some? ==> |r.value| == 4
  {
    ScanFields(s, 4)
  }

  predicate ValidIp(ip: string) {
    && 7 <= |ip| <= 15
    && (forall c :: c in ip ==> IsDigit(c) || c == '.')
    && match ScanQuad(ip)
       case None => false
       case Some(b) => Or(Or(Or(b[0], b[1]), b[2]), b[3]) <= 255
  }

  // ---- what it accepts ----

  /** One to three digits worth at most 255. */
  predicate IsGroup(g: string) {
    1 <= |g| <= 3 && AllDigits(g) && NumberOf(g) <= 255
  }

  function Dotted(groups: seq<string>): string {
    if groups == [] then ""
    else if |groups| == 1 then groups[0]
    else groups[0] + "." + Dotted(groups[1..])
  }

  ghost predicate IsQuad(ip: string, groups: seq<string>) {
    |groups| == 4 && (forall i :: 0 <= i < 4 ==> IsGroup(groups[i])) && ip == Dotted(groups)
  }

  lemma OrExceedsIffSomeDoes(b: seq<nat>)
    requires |b| == 4
    ensures Or(Or(Or(b[0], b[1]), b[2]), b[3]) <= 255 <==> forall i :: 0 <= i < 4 ==> b[i] <= 255
  {
    assert Pow2(8) == 256;
    OrBelow(b[0], b[1], 8);
    OrBelow(Or(b[0], b[1]), b[2], 8);
    OrBelow(Or(Or(b[0], b[1]), b[2]), b[3], 8);
  }

  predicate Digits3(g: string) {
    1 <= |g| <= 3 && AllDigits(g)
  }

  /** A group is read up to the first character that is no digit. */
  lemma ScanGroup(g: string, rest: string)
    requires Digits3(g) && (rest == "" || !IsDigit(rest[0]))
    ensures ScanNumber(g + rest) == Some((NumberOf(g), rest))
  {
    var s := g + rest;
    assert forall i :: 0 <= i < |g| ==> s[i] == g[i];
    assert |g| < |s| ==> s[|g|] == rest[0];
    assert DigitRun(s, 3) == |g|;
    assert s[..|g|] == g && s[|g|..] == rest;
  }

  ghost predicate AllDigits3(groups: seq<string>) {
    forall i :: 0 <= i < |groups| ==> Digits3(groups[i])
  }

  function Numbers(groups: seq<string>): (r: seq<nat>)
    ensures |r| == |groups| && forall i :: 0 <= i < |r| ==> r[i] == NumberOf(groups[i])
  {
    if groups == [] then [] else [NumberOf(groups[0])] + Numbers(groups[1..])
  }

  lemma ScanLastField(g: string)
    requires Digits3(g)
    ensures ScanFields(g, 1) == Some([NumberOf(g)])
  {
    ScanGroup(g, "");
    assert g + "" == g;
  }

  lemma ScanOneMoreField(g: string, rest: string, n: nat)
    requires Digits3(g) && n > 0
    ensures ScanFields(g + "." + rest, n + 1)
         == if ScanFields(rest, n).Some? then Some([NumberOf(g)] + ScanFields(rest, n).value) else None
  {
    assert g + "." + rest == g + ("." + rest);
    ScanGroup(g, "." + rest);
    assert ScanDot("." + rest) == Some(rest);
  }

  lemma DottedOneMore(g: string, groups: seq<string>)
    requires groups != []
    ensures Dotted([g] + groups) == g + "." + Dotted(groups)
    ensures Numbers([g] + groups) == [NumberOf(g)] + Numbers(groups)
    ensures Digits3(g) && AllDigits3(groups) ==> AllDigits3([g] + groups)
  {
    assert ([g] + groups)[1..] == groups;
  }

  lemma ScanOneMoreGroup(g: string, groups: seq<string>)
    requires Digits3(g) && groups != [] && ScanFields(Dotted(groups), |groups|) == Some(Numbers(groups))
    ensures ScanFields(Dotted([g] + groups), |groups| + 1) == Some(Numbers([g] + groups))
  {
    ScanOneMoreField(g, Dotted(groups), |groups|);
    DottedOneMore(g, groups);
  }

  lemma {:induction false} ScanOfDotted(groups: seq<string>)
    requires AllDigits3(groups) && groups != []
    ensures ScanFields(Dotted(groups), |groups|) == Some(Numbers(groups))
  {
    if |groups| == 1 {
      ScanLastField(groups[0]);
      assert groups == [groups[0]];
      assert Numbers(groups) == [NumberOf(groups[0])];
    } else {
      var first, rest := groups[0], groups[1..];
      assert groups == [first] + rest;
      ScanOfDotted(rest);
      ScanOneMoreGroup(first, rest);
    }
  }

  /** The first number of a text that scans, and the rest. */
  lemma FirstField(s: string, n: nat) returns (g: string, rest: string)
    requires n > 1 && ScanFields(s, n).Some?
    ensures Digits3(g) && s == g + "." + rest && ScanFields(rest, n - 1).Some?
  {
    g, rest := s[..DigitRun(s, 3)], s[DigitRun(s, 3)..][1..];
  }

  lemma LastField(s: string)
    requires ScanFields(s, 1).Some?
    ensures Digits3(s)
  {
    assert s == s[..DigitRun(s, 3)];
  }

  lemma {:induction false} DottedOfScan(s: string, n: nat) returns (groups: seq<string>)
    requires n > 0 && ScanFields(s, n).Some?
    ensures |groups| == n && AllDigits3(groups) && s == Dotted(groups)
    decreases n
  {
    if n == 1 {
      LastField(s);
      groups := [s];
    } else {
      var first, rest := FirstField(s, n);
      var others := DottedOfScan(rest, n - 1);
      DottedOneMore(first, others);
      groups := [first] + others;
    }
  }

  lemma GroupsBelow256(groups: seq<string>)
    requires |groups| == 4 && AllDigits3(groups)
    ensures var b := Numbers(groups);
            Or(Or(Or(b[0], b[1]), b[2]), b[3]) <= 255 <==> forall i :: 0 <= i < 4 ==> IsGroup(groups[i])
  {
    var b := Numbers(groups);
    OrExceedsIffSomeDoes(b);
    assert forall i :: 0 <= i < 4 ==> (b[i] <= 255 <==> IsGroup(groups[i]));
  }

  /** VALID_IP accepts exactly the four dot-separated groups of one to three digits, each worth at
      most 255. */
  lemma AcceptsExactlyQuads(ip: string)
    ensures ValidIp(ip) <==> exists groups :: IsQuad(ip, groups)
  {
    if ValidIp(ip) {
      var groups := DottedOfScan(ip, 4);
      ScanOfDotted(groups);
      GroupsBelow256(groups);
      assert IsQuad(ip, groups);
    }
    if exists groups :: IsQuad(ip, groups) {
      var groups :| IsQuad(ip, groups);
      assert AllDigits3(groups);
      ScanOfDotted(groups);
      GroupsBelow256(groups);
      QuadCharacters(ip, groups);
    }
  }

  lemma {:induction false} DottedCharacters(groups: seq<string>)
    requires AllDigits3(groups) && groups != []
    ensures 2 * |groups| - 1 <= |Dotted(groups)| <= 4 * |groups| - 1
    ensures forall c :: c in Dotted(groups) ==> IsDigit(c) || c == '.'
  {
    if |groups| > 1 {
      DottedCharacters(groups[1..]);
      assert Digits3(groups[0]);
      assert forall c :: c in Dotted(groups) ==> c in groups[0] || c == '.' || c in Dotted(groups[1..]);
    } else {
      assert Digits3(groups[0]);
    }
  }

  lemma QuadCharacters(ip: string, groups: seq<string>)
    requires IsQuad(ip, groups)
    ensures 7 <= |ip| <= 15 && forall c :: c in ip ==> IsDigit(c) || c == '.'
  {
    assert AllDigits3(groups);
    DottedCharacters(groups);
  }

  // ---- printed addresses ----

  function PrintQuad(a: nat, b: nat, c: nat, d: nat): string {
    Dotted([Decimal(a), Decimal(b), Decimal(c), Decimal(d)])
  }

  lemma ByteIsGroup(n: nat)
    requires n <= 255
    ensures IsGroup(Decimal(n)) && NumberOf(Decimal(n)) == n
  {
    NumberOfDecimal(n);
    assert n >= 10 ==> |Decimal(n)| == |Decimal(n / 10)| + 1;
    assert n >= 100 ==> |Decimal(n / 10)| == |Decimal(n / 100)| + 1;
  }

  /** Every printed address is accepted, and scanning it gives its bytes back. */
  lemma PrintedQuadIsValid(a: nat, b: nat, c: nat, d: nat)
    requires a <= 255 && b <= 255 && c <= 255 && d <= 255
    ensures ValidIp(PrintQuad(a, b, c, d)) && ScanQuad(PrintQuad(a, b, c, d)) == Some([a, b, c, d])
  {
    var groups := [Decimal(a), Decimal(b), Decimal(c), Decimal(d)];
    ByteIsGroup(a);
    ByteIsGroup(b);
    ByteIsGroup(c);
    ByteIsGroup(d);
    assert IsQuad(PrintQuad(a, b, c, d), groups);
    AcceptsExactlyQuads(PrintQuad(a, b, c, d));
    assert AllDigits3(groups);
    ScanOfDotted(groups);
    assert Numbers(groups) == [a, b, c, d];
  }
}
