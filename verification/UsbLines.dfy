/** The lines of the ids file (src/installer/usbnames.c:632-948): which texts say what. */
module UsbLines {

  import opened Decimals
  import opened UsbTables
  import opened UsbParse

  // ---- numerals ----

  function HexDigit(d: nat): (c: char)
    requires d < 16
    ensures '0' <= c <= '9' || 'a' <= c <= 'f'
  {
    if d < 10 then '0' + d as char else 'a' + (d - 10) as char
  }

  /** The hexadecimal numeral with at least `width` digits. */
  function Hex(u: nat, width: nat): (s: string)
    ensures s != "" && forall i :: 0 <= i < |s| ==> '0' <= s[i] <= '9' || 'a' <= s[i] <= 'f'
    decreases u, width
  {
    if u < 16 && width <= 1 then [HexDigit(u)]
    else Hex(u / 16, if width == 0 then 0 else width - 1) + [HexDigit(u % 16)]
  }

  lemma HexDigitValue(d: nat)
    requires d < 16
    ensures DigitValue(HexDigit(d)) == d
  {
  }

  lemma DigitsStep(base: nat, c: char, rest: string, before: nat)
    requires IsDigitOf(base, c)
    ensures Digits([c] + rest, base, before) == Digits(rest, base, before * base + DigitValue(c))
  {
    assert ([c] + rest)[1..] == rest;
  }

  lemma {:induction false} HexReads(u: nat, width: nat, rest: string)
    ensures Digits(Hex(u, width) + rest, 16, 0) == Digits(rest, 16, u)
    decreases u, width
  {
    HexDigitValue(u % 16);
    if u < 16 && width <= 1 {
      DigitsStep(16, HexDigit(u), rest, 0);
    } else {
      var shorter := Hex(u / 16, if width == 0 then 0 else width - 1);
      var last := [HexDigit(u % 16)] + rest;
      assert Hex(u, width) + rest == shorter + last;
      HexReads(u / 16, if width == 0 then 0 else width - 1, last);
      DigitsStep(16, HexDigit(u % 16), rest, u / 16);
    }
  }

  lemma {:induction false} DecimalReads(n: nat, rest: string)
    ensures Digits(Decimal(n) + rest, 10, 0) == Digits(rest, 10, n)
  {
    if n < 10 {
      DigitsStep(10, Digit(n), rest, 0);
    } else {
      var last := [Digit(n % 10)] + rest;
      assert Decimal(n) + rest == Decimal(n / 10) + last;
      DecimalReads(n / 10, last);
      DigitsStep(10, Digit(n % 10), rest, n / 10);
    }
  }

  /** A number as it is printed in this base. */
  function Numeral(base: nat, u: nat, width: nat): (s: string)
    ensures s != "" && forall i :: 0 <= i < |s| ==> '0' <= s[i] <= '9' || 'a' <= s[i] <= 'f'
  {
    if base == 10 then Decimal(u) else Hex(u, width)
  }

  lemma NumeralReads(base: nat, u: u32, width: nat, rest: string)
    requires (base == 10 || base == 16) && rest != "" && rest[0] in {' ', '\t'}
    ensures Strtoul(Numeral(base, u, width) + rest, base) == (u, rest)
  {
    var s := Numeral(base, u, width) + rest;
    if base == 10 {
      DecimalReads(u, rest);
    } else {
      HexReads(u, width, rest);
      assert s[1] == if |Hex(u, width)| > 1 then Hex(u, width)[1] else rest[0];
    }
  }

  // ---- the parts of a line ----

  predicate Gap(s: string) {
    forall i :: 0 <= i < |s| ==> s[i] in {' ', '\t'}
  }

  predicate Clean(name: string) {
    name != "" && name[0] !in {' ', '\t', '\U{0B}', '\U{0C}'} && forall i :: 0 <= i < |name| ==> name[i] !in {'\0', '\r', '\n'}
  }

  lemma {:induction false} GapIsDropped(gap: string, s: string)
    requires Gap(gap) && s != "" && !IsSpace(s[0])
    ensures DropSpaces(gap + s) == s
  {
    if gap == "" {
      assert gap + s == s;
    } else {
      assert (gap + s)[1..] == gap[1..] + s;
      GapIsDropped(gap[1..], s);
    }
  }

  /** Blanks, a number, blanks and a name. */
  function Tail(base: nat, gap: string, u: u32, width: nat, gap': string, name: string): string {
    gap + (Numeral(base, u, width) + (gap' + name))
  }

  lemma TailReads(tag: Tag, base: nat, gap: string, u: u32, width: nat, gap': string, name: string)
    requires (base == 10 || base == 16) && Gap(gap) && Gap(gap') && gap' != "" && Clean(name)
    ensures IdAndName(tag, base, Tail(base, gap, u, width, gap', name)) == Entry(tag, u, name)
  {
    var rest := gap' + name;
    var t := Numeral(base, u, width) + rest;
    assert t[0] == Numeral(base, u, width)[0] && rest[0] == gap'[0];
    GapIsDropped(gap, t);
    NumeralReads(base, u, width, rest);
    GapIsDropped(gap', name);
  }

  /** What a line of each kind starts with. */
  function Lead(tag: Tag): string {
    match tag
    case PhysdesTag => "PHYSDES "
    case BiasTag => "BIAS "
    case LangidTag => "L "
    case ClassTag => "C "
    case AudioTerminalTag => "AT "
    case VideoTerminalTag => "VT "
    case CountryTag => "HCC "
    case VendorTag => ""
    case IndentedTag => "\t"
    case DoubleIndentedTag => "\t\t"
    case HidTag => "HID "
    case HutTag => "HUT "
    case ReportTag => "R "
  }

  function BaseOf(tag: Tag): nat {
    if tag == CountryTag then 10 else 16
  }

  /** Vendors and indented lines have their number at once. */
  predicate Immediate(tag: Tag) {
    tag == VendorTag || tag == IndentedTag || tag == DoubleIndentedTag
  }

  predicate StartsNumeral(t: string) {
    t != "" && ('0' <= t[0] <= '9' || 'a' <= t[0] <= 'f')
  }

  lemma LeadAndTail(tag: Tag, t: string) returns (s: string)
    ensures s == Lead(tag) + t && Lead(tag) <= s && s[|Lead(tag)|..] == t
    ensures forall i :: 0 <= i < |Lead(tag)| ==> s[i] == Lead(tag)[i]
  {
    s := Lead(tag) + t;
  }

  lemma NoPrefix(p: string, s: string, i: nat)
    requires i < |p| && i < |s| && p[i] != s[i]
    ensures !(p <= s)
  {
  }

  lemma UpperLeads(tag: Tag, t: string)
    requires tag in {PhysdesTag, BiasTag, LangidTag, ClassTag, HidTag, HutTag, ReportTag}
    ensures Classify(Lead(tag) + t) == IdAndName(tag, 16, t)
  {
    var s := LeadAndTail(tag, t);
    if tag != PhysdesTag {
      NoPrefix("PHYSDES ", s, 0);
      NoPrefix("PHY ", s, 0);
      if tag != BiasTag {
        NoPrefix("BIAS ", s, 0);
        if tag != LangidTag {
          NoPrefix("L ", s, 0);
          if tag != ClassTag {
            NoPrefix("C ", s, 0);
            LaterWords(tag, s);
          }
        }
      }
    }
  }

  lemma LaterWords(tag: Tag, s: string)
    requires tag in {HidTag, HutTag, ReportTag} && Lead(tag) <= s
    ensures !("AT" <= s) && !("VT" <= s) && !("HCC" <= s) && !HexAt(s, 0) && s[0] != '\t' && !("\t\t" <= s)
    ensures tag != HidTag ==> !("HID " <= s)
    ensures tag == ReportTag ==> !("HUT " <= s)
  {
    assert forall i :: 0 <= i < |Lead(tag)| ==> s[i] == Lead(tag)[i];
    NoPrefix("AT", s, 0);
    NoPrefix("VT", s, 0);
    NoPrefix("HCC", s, if tag == ReportTag then 0 else 1);
    NoPrefix("\t\t", s, 0);
    if tag != HidTag {
      NoPrefix("HID ", s, if tag == ReportTag then 0 else 1);
    }
    if tag == ReportTag {
      NoPrefix("HUT ", s, 0);
    }
  }

  lemma TypeIsRead(tag: Tag, t: string)
    requires tag in {AudioTerminalTag, VideoTerminalTag, CountryTag}
    ensures Classify(Lead(tag) + t) == IdAndName(tag, BaseOf(tag), t)
  {
    var s := LeadAndTail(tag, t);
    if tag == CountryTag {
      assert s[3..] == " " + t;
      SpaceIsDropped(s[3..], t);
    }
  }

  lemma SpaceIsDropped(s: string, t: string)
    requires s == " " + t
    ensures DropSpaces(s) == DropSpaces(t)
  {
    assert s[1..] == t;
  }

  lemma NotAWord(s: string)
    requires s != "" && s[0] !in {'P', 'B', 'L', 'C', 'A', 'V', 'H', 'R'}
    ensures !("PHYSDES " <= s) && !("PHY " <= s) && !("BIAS " <= s) && !("L " <= s) && !("C " <= s)
    ensures !("AT" <= s) && !("VT" <= s) && !("HCC" <= s) && !("HID " <= s) && !("HUT " <= s) && !("R " <= s)
  {
    NoPrefix("PHYSDES ", s, 0);
    NoPrefix("PHY ", s, 0);
    NoPrefix("BIAS ", s, 0);
    NoPrefix("L ", s, 0);
    NoPrefix("C ", s, 0);
    NoPrefix("AT", s, 0);
    NoPrefix("VT", s, 0);
    NoPrefix("HCC", s, 0);
  }

  lemma ImmediateLeads(tag: Tag, t: string)
    requires Immediate(tag) && StartsNumeral(t)
    ensures Classify(Lead(tag) + t) == IdAndName(tag, 16, t)
  {
    var s := LeadAndTail(tag, t);
    assert s[|Lead(tag)|] == t[0];
    NotAWord(s);
    if tag == VendorTag {
      assert s == t;
    } else if tag == IndentedTag {
      assert s[0] == '\t' && s[1] == t[0];
    } else {
      assert s[0] == s[1] == '\t' && s[2] == t[0];
    }
  }

  // ---- the end of a line ----

  predicate NoEnd(s: string) {
    forall i :: 0 <= i < |s| ==> s[i] !in {'\0', '\r', '\n'}
  }

  lemma {:induction false} CutAbsent(s: string, c: char)
    requires forall i :: 0 <= i < |s| ==> s[i] != c
    ensures CutAt(s, c) == s
  {
    if s != "" {
      CutAbsent(s[1..], c);
    }
  }

  lemma {:induction false} CutBefore(s: string, c: char, rest: string)
    requires forall i :: 0 <= i < |s| ==> s[i] != c
    ensures CutAt(s + [c] + rest, c) == s
  {
    if s == "" {
      assert (s + [c] + rest)[0] == c;
    } else {
      assert (s + [c] + rest)[1..] == s[1..] + [c] + rest;
      CutBefore(s[1..], c, rest);
    }
  }

  lemma LineBody(body: string)
    requires NoEnd(body)
    ensures LineSpec(body + "\n") == Classify(body) && LineSpec(body + "\r\n") == Classify(body)
  {
    CutAbsent(body + "\n", '\0');
    CutAbsent(body + "\r\n", '\0');
    CutAbsent(body + "\n", '\r');
    CutAbsent(body, '\n');
    CutBefore(body, '\r', "\n");
    CutBefore(body, '\n', "");
    assert body + ['\r'] + "\n" == body + "\r\n" && body + ['\n'] + "" == body + "\n";
  }

  // ---- every kind of line ----

  /** The text of a line. */
  function LineText(tag: Tag, gap: string, u: u32, width: nat, gap': string, name: string): string {
    Lead(tag) + Tail(BaseOf(tag), gap, u, width, gap', name)
  }

  /** A printed line of each kind, with any blanks between its parts, is read as an entry of that kind. */
  lemma LineReads(tag: Tag, gap: string, u: u32, width: nat, gap': string, name: string)
    requires Gap(gap) && Gap(gap') && gap' != "" && Clean(name) && (Immediate(tag) ==> gap == "")
    ensures LineSpec(LineText(tag, gap, u, width, gap', name) + "\n") == Entry(tag, u, name)
  {
    var t := Tail(BaseOf(tag), gap, u, width, gap', name);
    TailHasNoEnd(BaseOf(tag), gap, u, width, gap', name);
    assert NoEnd(Lead(tag) + t);
    LineBody(Lead(tag) + t);
    TailReads(tag, BaseOf(tag), gap, u, width, gap', name);
    if Immediate(tag) {
      assert t[0] == Numeral(16, u, width)[0];
      ImmediateLeads(tag, t);
    } else {
      WordsAreRead(tag, t);
    }
  }

  lemma WordsAreRead(tag: Tag, t: string)
    requires !Immediate(tag)
    ensures Classify(Lead(tag) + t) == IdAndName(tag, BaseOf(tag), t)
  {
    if tag in {AudioTerminalTag, VideoTerminalTag, CountryTag} {
      TypeIsRead(tag, t);
    } else {
      UpperLeads(tag, t);
    }
  }

  lemma TailHasNoEnd(base: nat, gap: string, u: u32, width: nat, gap': string, name: string)
    requires Gap(gap) && Gap(gap') && Clean(name)
    ensures NoEnd(Tail(base, gap, u, width, gap', name))
  {
    assert NoEnd(gap' + name);
    assert NoEnd(Numeral(base, u, width) + (gap' + name));
  }

  /** PHY is another word for PHYSDES. */
  lemma PhyReads(gap: string, u: u32, width: nat, gap': string, name: string)
    requires Gap(gap) && Gap(gap') && gap' != "" && Clean(name)
    ensures LineSpec("PHY " + Tail(16, gap, u, width, gap', name) + "\n") == Entry(PhysdesTag, u, name)
  {
    var t := Tail(16, gap, u, width, gap', name);
    var s := "PHY " + t;
    TailHasNoEnd(16, gap, u, width, gap', name);
    LineBody(s);
    TailReads(PhysdesTag, 16, gap, u, width, gap', name);
    assert forall i :: 0 <= i < 4 ==> s[i] == "PHY "[i];
    assert s[4..] == t && "PHY " <= s;
  }

  /** The key that such a line defines, unless that depends on the lines above it. */
  function KeyOfLine(tag: Tag, u: u32): Key
    requires tag != IndentedTag && tag != DoubleIndentedTag
  {
    match tag
    case PhysdesTag => Physdes(u % 0x100)
    case BiasTag => Bias(u % 0x100)
    case LangidTag => Langid(u % 0x1_0000)
    case ClassTag => Class(u % 0x100)
    case AudioTerminalTag => AudioTerminal(u % 0x1_0000)
    case VideoTerminalTag => VideoTerminal(u % 0x1_0000)
    case CountryTag => CountryCode(u)
    case VendorTag => Vendor(u % 0x1_0000)
    case HidTag => Hid(u % 0x100)
    case HutTag => Hut(u)
    case ReportTag => Report(u % 0x100)
  }

  lemma DefinitionsOneMore(before: seq<Spec>, s: Spec)
    requires s.Entry? && KeyOf(ContextAfter(before), s).Some?
    ensures Definitions(before + [s]) == Definitions(before) + [Def(KeyOf(ContextAfter(before), s).value, s.name)]
  {
    assert (before + [s])[..|before|] == before;
  }

  /** Wherever it stands, a line that is not indented defines the key of its kind. */
  lemma LineDefines(before: seq<Spec>, tag: Tag, gap: string, u: u32, width: nat, gap': string, name: string)
    requires tag != IndentedTag && tag != DoubleIndentedTag
    requires Gap(gap) && Gap(gap') && gap' != "" && Clean(name) && (Immediate(tag) ==> gap == "")
    ensures Definitions(before + [LineSpec(LineText(tag, gap, u, width, gap', name) + "\n")])
         == Definitions(before) + [Def(KeyOfLine(tag, u), name)]
  {
    LineReads(tag, gap, u, width, gap', name);
    DefinitionsOneMore(before, Entry(tag, u, name));
  }

  // ---- no other text says anything ----

  predicate Space(c: char) {
    c in {' ', '\t', '\n', '\U{0B}', '\U{0C}', '\r'}
  }

  predicate Spaces(s: string) {
    forall i :: 0 <= i < |s| ==> Space(s[i])
  }

  lemma {:induction false} SpacesAreDropped(s: string) returns (gap: string)
    ensures s == gap + DropSpaces(s) && Spaces(gap) && (DropSpaces(s) != "" ==> !Space(DropSpaces(s)[0]))
    ensures s != "" && Space(s[0]) ==> gap != ""
  {
    if s != "" && IsSpace(s[0]) {
      gap := SpacesAreDropped(s[1..]);
      gap := [s[0]] + gap;
    } else {
      gap := "";
    }
  }

  function ValueOfDigit(c: char): nat {
    if '0' <= c <= '9' then c as nat - '0' as nat
    else if 'a' <= c <= 'f' then c as nat - 'a' as nat + 10
    else if 'A' <= c <= 'F' then c as nat - 'A' as nat + 10
    else 16
  }

  predicate AreDigits(s: string, base: nat) {
    forall i :: 0 <= i < |s| ==> ValueOfDigit(s[i]) < base
  }

  /** The number that the digits spell, behind a number spelled before. */
  function Spelled(before: nat, digits: string, base: nat): nat {
    if digits == "" then before
    else Spelled(before, digits[..|digits| - 1], base) * base + ValueOfDigit(digits[|digits| - 1])
  }

  lemma {:induction false} SpelledFirst(before: nat, c: char, digits: string, base: nat)
    ensures Spelled(before, [c] + digits, base) == Spelled(before * base + ValueOfDigit(c), digits, base)
  {
    var all := [c] + digits;
    if digits == "" {
      assert all[..0] == "";
    } else {
      assert all[..|all| - 1] == [c] + digits[..|digits| - 1];
      SpelledFirst(before, c, digits[..|digits| - 1], base);
    }
  }

  lemma {:induction false} DigitsAreSpelled(s: string, base: nat, before: nat) returns (digits: string)
    requires base <= 16
    ensures var (n, rest) := Digits(s, base, before);
            && s == digits + rest && AreDigits(digits, base) && n == Spelled(before, digits, base)
            && (rest != "" ==> ValueOfDigit(rest[0]) >= base)
    decreases |s|
  {
    if s != "" && IsDigitOf(base, s[0]) {
      digits := DigitsAreSpelled(s[1..], base, before * base + DigitValue(s[0]));
      SpelledFirst(before, s[0], digits, base);
      digits := [s[0]] + digits;
    } else {
      digits := "";
    }
  }

  /** A numeral: digits of the base, perhaps behind 0x, that are worth u, or more than fits. */
  ghost predicate IsNumeral(number: string, base: nat, u: u32) {
    exists prefix, digits ::
      && number == prefix + digits && (prefix == "" || (base == 16 && (prefix == "0x" || prefix == "0X") && digits != ""))
      && AreDigits(digits, base)
      && u == if Spelled(0, digits, base) > 0xFFFF_FFFF then 0xFFFF_FFFF else Spelled(0, digits, base)
  }

  lemma NumeralIsSpelled(s: string, base: nat) returns (number: string)
    requires base == 10 || base == 16
    ensures s == number + Strtoul(s, base).1 && IsNumeral(number, base, Strtoul(s, base).0)
  {
    if base == 16 && HasHexPrefix(s) {
      var digits := DigitsAreSpelled(s[2..], base, 0);
      number := s[..2] + digits;
      assert s == s[..2] + s[2..];
      assert s[..2] == "0x" || s[..2] == "0X";
      assert digits != "";
    } else {
      number := DigitsAreSpelled(s, base, 0);
      assert number == "" + number;
    }
  }

  /** The parts of a tail. */
  ghost predicate IsTail(s: string, base: nat, gap: string, number: string, gap': string, name: string, u: u32) {
    && s == gap + (number + (gap' + name))
    && Spaces(gap) && Spaces(gap') && name != "" && !Space(name[0]) && IsNumeral(number, base, u)
    && (number + gap' + name)[0] in "0123456789abcdefABCDEF"
  }

  lemma TailHasForm(tag: Tag, base: nat, s: string, u: u32, name: string) returns (gap: string, number: string, gap': string)
    requires (base == 10 || base == 16) && IdAndName(tag, base, s) == Entry(tag, u, name)
    ensures IsTail(s, base, gap, number, gap', name, u)
    ensures s != "" && Space(s[0]) ==> gap != ""
    ensures s != "" && IsHexDigit(s[0]) ==> gap == ""
  {
    gap := SpacesAreDropped(s);
    var t := DropSpaces(s);
    number := NumeralIsSpelled(t, base);
    gap' := SpacesAreDropped(Strtoul(t, base).1);
    assert number + gap' + name == t;
  }

  /** What stands before the tail. */
  predicate IsLead(lead: string, tag: Tag) {
    match tag
    case PhysdesTag => lead == "PHYSDES " || lead == "PHY "
    case AudioTerminalTag => |lead| == 3 && lead[..2] == "AT" && Space(lead[2])
    case VideoTerminalTag => |lead| == 3 && lead[..2] == "VT" && Space(lead[2])
    case CountryTag => lead == "HCC"
    case BiasTag => lead == "BIAS "
    case LangidTag => lead == "L "
    case ClassTag => lead == "C "
    case VendorTag => lead == ""
    case IndentedTag => lead == "\t"
    case DoubleIndentedTag => lead == "\t\t"
    case HidTag => lead == "HID "
    case HutTag => lead == "HUT "
    case ReportTag => lead == "R "
  }

  /** The text behind the first n characters, which are the lead. */
  ghost predicate Follows(s: string, n: nat, tag: Tag, u: u32, name: string) {
    n <= |s| && IsLead(s[..n], tag) && IdAndName(tag, BaseOf(tag), s[n..]) == Entry(tag, u, name)
  }

  lemma WordLeads(s: string, tag: Tag, u: u32, name: string) returns (n: nat)
    requires Classify(s) == Entry(tag, u, name) && tag in {PhysdesTag, BiasTag, LangidTag, ClassTag}
    ensures Follows(s, n, tag, u, name)
  {
    if "PHYSDES " <= s {
      n := 8;
    } else if "PHY " <= s {
      n := 4;
    } else {
      n := if tag == BiasTag then 5 else 2;
    }
  }

  lemma LaterWordLeads(s: string, tag: Tag, u: u32, name: string) returns (n: nat)
    requires Classify(s) == Entry(tag, u, name) && tag in {HidTag, HutTag, ReportTag}
    ensures Follows(s, n, tag, u, name)
  {
    n := if tag == ReportTag then 2 else 4;
  }

  lemma TypeLeads(s: string, tag: Tag, u: u32, name: string)
    requires Classify(s) == Entry(tag, u, name) && tag in {AudioTerminalTag, VideoTerminalTag, CountryTag}
    ensures Follows(s, 3, tag, u, name)
    ensures tag == CountryTag ==> s[3..] != "" && Space(s[3..][0])
  {
  }

  lemma NumberLeads(s: string, tag: Tag, u: u32, name: string) returns (n: nat)
    requires Classify(s) == Entry(tag, u, name) && Immediate(tag)
    ensures Follows(s, n, tag, u, name) && s[n..] != "" && IsHexDigit(s[n..][0])
  {
    n := if tag == VendorTag then 0 else if tag == IndentedTag then 1 else 2;
  }

  lemma EntryHasLead(s: string, tag: Tag, u: u32, name: string) returns (n: nat)
    requires Classify(s) == Entry(tag, u, name)
    ensures Follows(s, n, tag, u, name)
    ensures Immediate(tag) ==> s[n..] != "" && IsHexDigit(s[n..][0])
    ensures tag == CountryTag ==> s[n..] != "" && Space(s[n..][0])
  {
    if Immediate(tag) {
      n := NumberLeads(s, tag, u, name);
    } else if tag in {PhysdesTag, BiasTag, LangidTag, ClassTag} {
      n := WordLeads(s, tag, u, name);
    } else if tag in {HidTag, HutTag, ReportTag} {
      n := LaterWordLeads(s, tag, u, name);
    } else {
      n := 3;
      TypeLeads(s, tag, u, name);
    }
  }

  lemma {:induction false} CutIsPrefix(s: string, c: char)
    ensures CutAt(s, c) <= s && (forall i :: 0 <= i < |CutAt(s, c)| ==> s[i] != c)
    ensures |CutAt(s, c)| < |s| ==> s[|CutAt(s, c)|] == c
  {
    if s != "" && s[0] != c {
      CutIsPrefix(s[1..], c);
    }
  }

  lemma EndOfLine(line: string) returns (end: nat)
    ensures end <= |line| && NoEnd(line[..end]) && (end < |line| ==> line[end] in {'\0', '\r', '\n'})
    ensures LineSpec(line) == Classify(line[..end])
  {
    var a := CutAt(line, '\0');
    var b := CutAt(a, '\r');
    var s := CutAt(b, '\n');
    CutIsPrefix(line, '\0');
    CutIsPrefix(a, '\r');
    CutIsPrefix(b, '\n');
    end := |s|;
    assert line[..end] == s;
  }

  /** A line says something only if, up to its first NUL or line end, it is a lead, blanks, a number, blanks
      and a name; and then it says that number and that name. */
  lemma EntryHasForm(line: string, tag: Tag, u: u32, name: string)
    returns (end: nat, lead: string, t: string, gap: string, number: string, gap': string)
    requires LineSpec(line) == Entry(tag, u, name)
    ensures end <= |line| && NoEnd(line[..end]) && (end < |line| ==> line[end] in {'\0', '\r', '\n'})
    ensures line[..end] == lead + t && IsLead(lead, tag) && IsTail(t, BaseOf(tag), gap, number, gap', name, u)
    ensures (Immediate(tag) ==> gap == "") && (tag == CountryTag ==> gap != "")
  {
    end := EndOfLine(line);
    var n := EntryHasLead(line[..end], tag, u, name);
    lead, t := line[..end][..n], line[..end][n..];
    gap, number, gap' := TailHasForm(tag, BaseOf(tag), t, u, name);
  }

  // ---- any way to write a number ----

  lemma SameDigit(c: char)
    requires ValueOfDigit(c) < 16
    ensures DigitValue(c) == ValueOfDigit(c) && IsDigitOf(16, c)
  {
  }

  lemma {:induction false} SpelledIsRead(digits: string, before: nat, rest: string)
    requires AreDigits(digits, 16) && rest != "" && rest[0] in {' ', '\t'}
    ensures Digits(digits + rest, 16, before) == (Spelled(before, digits, 16), rest)
    decreases |digits|
  {
    if digits == "" {
      assert digits + rest == rest;
    } else {
      var c, later := digits[0], digits[1..];
      assert digits == [c] + later && digits + rest == [c] + (later + rest);
      SameDigit(c);
      DigitsStep(16, c, later + rest, before);
      SpelledIsRead(later, before * 16 + DigitValue(c), rest);
      SpelledFirst(before, c, later, 16);
    }
  }

  /** Digits in either case, also behind 0x or 0X, are read as the number that they spell, clipped to 32
      bits. */
  lemma NumberIsRead(prefix: string, digits: string, rest: string)
    requires prefix in {"", "0x", "0X"} && digits != "" && AreDigits(digits, 16) && rest != "" && rest[0] in {' ', '\t'}
    ensures Strtoul(prefix + (digits + rest), 16)
         == (if Spelled(0, digits, 16) > 0xFFFF_FFFF then 0xFFFF_FFFF else Spelled(0, digits, 16), rest)
  {
    var t := digits + rest;
    SpelledIsRead(digits, 0, rest);
    assert t[0] == digits[0] && ValueOfDigit(digits[0]) < 16;
    if prefix == "" {
      assert prefix + t == t;
      assert t[1] == if |digits| > 1 then digits[1] else rest[0];
      assert |digits| > 1 ==> ValueOfDigit(digits[1]) < 16;
    } else {
      assert (prefix + t)[2..] == t && (prefix + t)[2] == digits[0];
    }
  }

  /** A line of a kind with a word in front: any such number, behind any blanks, is read. */
  lemma AnyNumberReads(tag: Tag, gap: string, prefix: string, digits: string, gap': string, name: string)
    requires !Immediate(tag) && tag != CountryTag && Gap(gap) && Gap(gap') && gap' != "" && Clean(name)
    requires prefix in {"", "0x", "0X"} && digits != "" && AreDigits(digits, 16) && Spelled(0, digits, 16) <= 0xFFFF_FFFF
    ensures Classify(Lead(tag) + (gap + (prefix + (digits + (gap' + name))))) == Entry(tag, Spelled(0, digits, 16), name)
  {
    var rest := gap' + name;
    var t := prefix + (digits + rest);
    assert rest[0] == gap'[0];
    NumberIsRead(prefix, digits, rest);
    assert ValueOfDigit(digits[0]) < 16;
    assert t[0] == if prefix == "" then digits[0] else '0';
    GapIsDropped(gap, t);
    GapIsDropped(gap', name);
    WordsAreRead(tag, gap + t);
  }
}
