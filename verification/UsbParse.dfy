/** The parser of the USB ids file (src/installer/usbnames.c:621-952).

    A line is first classified on its own; what an indented line then defines depends on the
    sticky context that earlier lines left behind. */
module UsbParse {

  import opened Wrappers
  import opened UsbTables

  // ---- one line by itself ----

  predicate IsSpace(c: char) {
    c == ' ' || '\t' <= c <= '\r'
  }

  function DigitValue(c: char): int {
    if '0' <= c <= '9' then c as int - '0' as int
    else if 'a' <= c <= 'f' then c as int - 'a' as int + 10
    else if 'A' <= c <= 'F' then c as int - 'A' as int + 10
    else -1
  }

  predicate IsHexDigit(c: char) {
    DigitValue(c) >= 0
  }

  predicate IsDigitOf(base: nat, c: char) {
    0 <= DigitValue(c) < base
  }

  /** The text before the first c, as after `*strchr(s, c) = 0`. */
  function CutAt(s: string, c: char): string {
    if s == "" || s[0] == c then "" else [s[0]] + CutAt(s[1..], c)
  }

  function DropSpaces(s: string): string {
    if s != "" && IsSpace(s[0]) then DropSpaces(s[1..]) else s
  }

  const ULONG_MAX: nat := 0xFFFF_FFFF

  /** The digits that start s as a number, on top of the number read before them. */
  function Digits(s: string, base: nat, before: nat): (r: (nat, string)) {
    if s != "" && IsDigitOf(base, s[0])
    then Digits(s[1..], base, before * base + DigitValue(s[0]))
    else (before, s)
  }

  predicate HasHexPrefix(s: string) {
    |s| > 2 && s[0] == '0' && (s[1] == 'x' || s[1] == 'X') && IsHexDigit(s[2])
  }

  /** strtoul on a text without leading blanks or sign: the value, clipped to the largest
      unsigned long, and the text behind it. */
  function Strtoul(s: string, base: nat): (u32, string) {
    var (n, rest) := Digits(if base == 16 && HasHexPrefix(s) then s[2..] else s, base, 0);
    (if n > ULONG_MAX then ULONG_MAX else n, rest)
  }

  datatype Tag =
    | PhysdesTag | BiasTag | LangidTag | ClassTag | AudioTerminalTag | VideoTerminalTag | CountryTag | VendorTag
    | IndentedTag | DoubleIndentedTag | HidTag | HutTag | ReportTag

  /** What a line says: nothing, something malformed or unknown, or an id and a name. */
  datatype Spec = Blank | Invalid | Entry(tag: Tag, id: u32, name: string)

  /** The common tail of every branch: blanks, a number, blanks, a non-empty name. */
  function IdAndName(tag: Tag, base: nat, s: string): Spec {
    var t := DropSpaces(s);
    if t == "" || !IsHexDigit(t[0]) then Invalid
    else
      var (u, rest) := Strtoul(t, base);
      var name := DropSpaces(rest);
      if name == "" then Invalid else Entry(tag, u, name)
  }

  predicate SpaceAt(s: string, i: nat) {
    |s| > i && IsSpace(s[i])
  }

  predicate HexAt(s: string, i: nat) {
    |s| > i && IsHexDigit(s[i])
  }

  /** The chain of tests of the source, in its order, on a line already cut at its end. */
  function Classify(s: string): Spec {
    if s == "" || s[0] == '#' then Blank
    else if "PHYSDES " <= s then IdAndName(PhysdesTag, 16, s[8..])
    else if "PHY " <= s then IdAndName(PhysdesTag, 16, s[4..])
    else if "BIAS " <= s then IdAndName(BiasTag, 16, s[5..])
    else if "L " <= s then IdAndName(LangidTag, 16, s[2..])
    else if "C " <= s then IdAndName(ClassTag, 16, s[2..])
    else if "AT" <= s && SpaceAt(s, 2) then IdAndName(AudioTerminalTag, 16, s[3..])
    else if "VT" <= s && SpaceAt(s, 2) then IdAndName(VideoTerminalTag, 16, s[3..])
    else if "HCC" <= s && SpaceAt(s, 3) then IdAndName(CountryTag, 10, s[3..])
    else if HexAt(s, 0) then IdAndName(VendorTag, 16, s)
    else if s[0] == '\t' && HexAt(s, 1) then IdAndName(IndentedTag, 16, s[1..])
    else if "\t\t" <= s && HexAt(s, 2) then IdAndName(DoubleIndentedTag, 16, s[2..])
    else if "HID " <= s then IdAndName(HidTag, 16, s[4..])
    else if "HUT " <= s then IdAndName(HutTag, 16, s[4..])
    else if "R " <= s then IdAndName(ReportTag, 16, s[2..])
    else Invalid
  }

  /** A line as fgets stored it: it ends at a NUL, a CR or an LF. */
  function LineSpec(line: string): Spec {
    Classify(CutAt(CutAt(CutAt(line, '\0'), '\r'), '\n'))
  }

  // ---- the sticky context ----

  datatype Context = Context(vendor: int, class_: int, subclass: int, hut: int, lang: int)

  const Nowhere: Context := Context(-1, -1, -1, -1, -1)

  /** The C conversion from unsigned to int. */
  function AsInt(u: u32): int {
    if u < 0x8000_0000 then u else u - 0x1_0000_0000
  }

  function Low8(n: int): u8 { n % 0x100 }

  function Low16(n: int): u16 { n % 0x1_0000 }

  function Low32(n: int): u32 { n % 0x1_0000_0000 }

  /** The key that an entry defines in a context, if it defines any. */
  function KeyOf(c: Context, s: Spec): Option<Key>
    requires s.Entry?
  {
    var u := s.id;
    match s.tag
    case PhysdesTag => Some(Physdes(Low8(u)))
    case BiasTag => Some(Bias(Low8(u)))
    case LangidTag => Some(Langid(Low16(u)))
    case ClassTag => Some(Class(Low8(u)))
    case AudioTerminalTag => Some(AudioTerminal(Low16(u)))
    case VideoTerminalTag => Some(VideoTerminal(Low16(u)))
    case CountryTag => Some(CountryCode(u))
    case VendorTag => Some(Vendor(Low16(u)))
    case IndentedTag =>
      if c.vendor != -1 then Some(Product(Low16(c.vendor), Low16(u)))
      else if c.class_ != -1 then Some(Subclass(Low8(c.class_), Low8(u)))
      else if c.hut != -1 then Some(HutUsage(Low32(c.hut * 0x1_0000 + u)))
      else if c.lang != -1 then Some(Langid(Low16(c.lang + Low32(u * 0x400))))
      else None
    case DoubleIndentedTag =>
      if c.class_ != -1 && c.subclass != -1 then Some(Protocol(Low8(c.class_), Low8(c.subclass), Low8(u))) else None
    case HidTag => Some(Hid(Low8(u)))
    case HutTag => Some(Hut(u))
    case ReportTag => Some(Report(Low8(u)))
  }

  function NextContext(c: Context, s: Spec): Context {
    if !s.Entry? then c
    else match s.tag
      case LangidTag => Nowhere.(lang := AsInt(s.id))
      case ClassTag => Nowhere.(class_ := AsInt(s.id))
      case VendorTag => Nowhere.(vendor := AsInt(s.id))
      case HutTag => Nowhere.(hut := AsInt(s.id))
      case IndentedTag => if c.vendor == -1 && c.class_ != -1 then c.(subclass := AsInt(s.id)) else c
      case _ => c
  }

  function Specs(lines: seq<string>): (specs: seq<Spec>)
    ensures |specs| == |lines|
  {
    seq(|lines|, i requires 0 <= i < |lines| => LineSpec(lines[i]))
  }

  function ContextAfter(specs: seq<Spec>): Context {
    if specs == [] then Nowhere
    else NextContext(ContextAfter(specs[..|specs| - 1]), specs[|specs| - 1])
  }

  /** What a file defines, line by line. */
  datatype Def = Def(key: Key, name: string)

  function Definitions(specs: seq<Spec>): seq<Def> {
    if specs == [] then []
    else
      var before, last := specs[..|specs| - 1], specs[|specs| - 1];
      Definitions(before)
      + if last.Entry? && KeyOf(ContextAfter(before), last).Some?
        then [Def(KeyOf(ContextAfter(before), last).value, last.name)]
        else []
  }

  /** The first definition of a key wins. */
  function FirstDefinition(defs: seq<Def>, k: Key): Option<string> {
    if defs == [] then None
    else if defs[0].key == k then Some(defs[0].name)
    else FirstDefinition(defs[1..], k)
  }

  // ---- the parser ----

  method SkipSpaces(s: string, from: nat) returns (cp: nat)
    requires from <= |s|
    ensures from <= cp <= |s| && s[cp..] == DropSpaces(s[from..])
  {
    cp := from;
    while cp < |s| && IsSpace(s[cp])
      invariant from <= cp <= |s|
      invariant DropSpaces(s[cp..]) == DropSpaces(s[from..])
    {
      assert s[cp..][1..] == s[cp + 1..];
      cp := cp + 1;
    }
  }

  method ReadIdAndName(tag: Tag, base: nat, s: string, from: nat) returns (spec: Spec)
    requires from <= |s|
    ensures spec == IdAndName(tag, base, s[from..])
  {
    var cp := SkipSpaces(s, from);
    if cp == |s| || !IsHexDigit(s[cp]) {
      return Invalid;
    }
    assert s[cp..][0] == s[cp];
    var (u, rest) := Strtoul(s[cp..], base);
    var n := SkipSpaces(rest, 0);
    assert rest[0..] == rest;
    if n == |rest| {
      return Invalid;
    }
    spec := Entry(tag, u, rest[n..]);
  }

  method ReadLine(line: string) returns (spec: Spec)
    ensures spec == LineSpec(line)
  {
    var buf := CutAt(CutAt(CutAt(line, '\0'), '\r'), '\n');
    if buf == "" || buf[0] == '#' {
      return Blank;
    }
    if "PHYSDES " <= buf {
      spec := ReadIdAndName(PhysdesTag, 16, buf, 8);
    } else if "PHY " <= buf {
      spec := ReadIdAndName(PhysdesTag, 16, buf, 4);
    } else if "BIAS " <= buf {
      spec := ReadIdAndName(BiasTag, 16, buf, 5);
    } else if "L " <= buf {
      spec := ReadIdAndName(LangidTag, 16, buf, 2);
    } else if "C " <= buf {
      spec := ReadIdAndName(ClassTag, 16, buf, 2);
    } else if "AT" <= buf && SpaceAt(buf, 2) {
      spec := ReadIdAndName(AudioTerminalTag, 16, buf, 3);
    } else if "VT" <= buf && SpaceAt(buf, 2) {
      spec := ReadIdAndName(VideoTerminalTag, 16, buf, 3);
    } else if "HCC" <= buf && SpaceAt(buf, 3) {
      spec := ReadIdAndName(CountryTag, 10, buf, 3);
    } else if HexAt(buf, 0) {
      spec := ReadIdAndName(VendorTag, 16, buf, 0);
      assert buf[0..] == buf;
    } else if buf[0] == '\t' && HexAt(buf, 1) {
      spec := ReadIdAndName(IndentedTag, 16, buf, 1);
    } else if "\t\t" <= buf && HexAt(buf, 2) {
      spec := ReadIdAndName(DoubleIndentedTag, 16, buf, 2);
    } else if "HID " <= buf {
      spec := ReadIdAndName(HidTag, 16, buf, 4);
    } else if "HUT " <= buf {
      spec := ReadIdAndName(HutTag, 16, buf, 4);
    } else if "R " <= buf {
      spec := ReadIdAndName(ReportTag, 16, buf, 2);
    } else {
      spec := Invalid;
    }
  }

  /** The tables agree with what they held before and the definitions met since, the earlier of
      two definitions winning. */
  ghost predicate Extends(names: map<Key, string>, before: map<Key, string>, defs: seq<Def>) {
    forall k: Key ::
      Get(names, k) == if k in before then Some(before[k]) else FirstDefinition(defs, k)
  }

  lemma {:induction false} FirstDefinitionOfSum(a: seq<Def>, b: seq<Def>, k: Key)
    ensures FirstDefinition(a + b, k)
         == if FirstDefinition(a, k).Some? then FirstDefinition(a, k) else FirstDefinition(b, k)
  {
    if a == [] {
      assert a + b == b;
    } else {
      assert (a + b)[1..] == a[1..] + b;
      FirstDefinitionOfSum(a[1..], b, k);
    }
  }

  /** Of several definitions the first counts. */
  lemma {:induction false} FirstDefinitionIs(defs: seq<Def>, k: Key, i: nat)
    requires i <= |defs| && forall j :: 0 <= j < i ==> defs[j].key != k
    ensures i == |defs| ==> FirstDefinition(defs, k) == None
    ensures i < |defs| && defs[i].key == k ==> FirstDefinition(defs, k) == Some(defs[i].name)
  {
    if i > 0 {
      FirstDefinitionIs(defs[1..], k, i - 1);
    }
  }

  /** A refused duplicate and an accepted first definition both keep the agreement. */
  lemma ExtendByOne(names: map<Key, string>, before: map<Key, string>, defs: seq<Def>, d: Def)
    requires Extends(names, before, defs)
    ensures Extends(if d.key in names then names else names[d.key := d.name], before, defs + [d])
  {
    forall k: Key
      ensures Get(if d.key in names then names else names[d.key := d.name], k)
           == if k in before then Some(before[k]) else FirstDefinition(defs + [d], k)
    {
      FirstDefinitionOfSum(defs, [d], k);
      assert Get(names, k) == if k in before then Some(before[k]) else FirstDefinition(defs, k);
      assert Get(names, d.key) == if d.key in before then Some(before[d.key]) else FirstDefinition(defs, d.key);
    }
  }

  method Parse(db: Names, lines: seq<string>)
    requires db.Valid()
    modifies db`names, db.heads
    ensures db.Valid()
    ensures Extends(db.names, old(db.names), Definitions(Specs(lines)))
  {
    var lastvendor, lastclass, lastsubclass, lasthut, lastlang := -1, -1, -1, -1, -1;
    ghost var specs := Specs(lines);
    assert specs[..0] == [];
    for linectr := 0 to |lines|
      invariant db.Valid()
      invariant Context(lastvendor, lastclass, lastsubclass, lasthut, lastlang) == ContextAfter(specs[..linectr])
      invariant Extends(db.names, old(db.names), Definitions(specs[..linectr]))
    {
      ghost var seen := specs[..linectr];
      ghost var names := db.names;
      var c := Context(lastvendor, lastclass, lastsubclass, lasthut, lastlang);
      var spec := ReadLine(lines[linectr]);
      assert specs[..linectr + 1][..linectr] == seen && specs[..linectr + 1][linectr] == spec;
      if spec.Entry? {
        var key := KeyOf(c, spec);
        if key.Some? {
          var rc := db.Insert(spec.name, key.value);
          ExtendByOne(names, old(db.names), Definitions(seen), Def(key.value, spec.name));
        }
        match spec.tag {
          case LangidTag =>
            lasthut, lastclass, lastvendor, lastsubclass := -1, -1, -1, -1;
            lastlang := AsInt(spec.id);
          case ClassTag =>
            lasthut, lastlang, lastvendor, lastsubclass := -1, -1, -1, -1;
            lastclass := AsInt(spec.id);
          case VendorTag =>
            lastvendor := AsInt(spec.id);
            lasthut, lastlang, lastclass, lastsubclass := -1, -1, -1, -1;
          case HutTag =>
            lastlang, lastclass, lastvendor, lastsubclass := -1, -1, -1, -1;
            lasthut := AsInt(spec.id);
          case IndentedTag =>
            if lastvendor == -1 && lastclass != -1 {
              lastsubclass := AsInt(spec.id);
            }
          case _ =>
        }
      }
      assert Definitions(seen) + [] == Definitions(seen);
    }
    assert specs[..|lines|] == specs;
  }

  // ---- what the context means ----

  /** At most one of the four headers is remembered, and a subclass only below a class. */
  ghost predicate Exclusive(c: Context) {
    && (c.vendor != -1 ==> c.class_ == -1 && c.hut == -1 && c.lang == -1)
    && (c.class_ != -1 ==> c.hut == -1 && c.lang == -1)
    && (c.hut != -1 ==> c.lang == -1)
    && (c.subclass != -1 ==> c.class_ != -1)
  }

  lemma {:induction false} ContextIsExclusive(specs: seq<Spec>)
    ensures Exclusive(ContextAfter(specs))
  {
    if specs != [] {
      ContextIsExclusive(specs[..|specs| - 1]);
    }
  }

  predicate IsHeader(s: Spec) {
    s.Entry? && (s.tag == VendorTag || s.tag == ClassTag || s.tag == HutTag || s.tag == LangidTag)
  }

  predicate IsIndented(s: Spec) {
    s.Entry? && s.tag == IndentedTag
  }

  /** The last header above line n, or -1. */
  function HeaderAbove(specs: seq<Spec>, n: nat): (h: int)
    requires n <= |specs|
    ensures -1 <= h < n && (h >= 0 ==> IsHeader(specs[h]))
    ensures forall i :: h < i < n ==> !IsHeader(specs[i])
  {
    if n == 0 then -1 else if IsHeader(specs[n - 1]) then n - 1 else HeaderAbove(specs, n - 1)
  }

  /** The last indented line between that header and line n, or -1. */
  function IndentedAbove(specs: seq<Spec>, n: nat): (j: int)
    requires n <= |specs|
    ensures -1 <= j < n && (j >= 0 ==> IsIndented(specs[j]) && HeaderAbove(specs, n) < j)
    ensures forall i :: j < i < n && HeaderAbove(specs, n) < i ==> !IsIndented(specs[i])
  {
    if n == 0 || IsHeader(specs[n - 1]) then -1
    else if IsIndented(specs[n - 1]) then n - 1
    else IndentedAbove(specs, n - 1)
  }

  /** The context that header h and the last indented line j below it leave behind. */
  function Remembered(specs: seq<Spec>, h: int, j: int): Context
    requires -1 <= h < |specs| && -1 <= j < |specs|
    requires (h >= 0 ==> specs[h].Entry?) && (j >= 0 ==> specs[j].Entry?)
  {
    if h == -1 then Nowhere
    else
      var c := NextContext(Nowhere, specs[h]);
      if c.class_ != -1 && j != -1 then c.(subclass := AsInt(specs[j].id)) else c
  }

  /** What is remembered at line n depends on the last header above it and, below a class, on the last
      indented line since, and on nothing else. */
  lemma {:induction false} ContextIsRemembered(specs: seq<Spec>, n: nat)
    requires n <= |specs|
    ensures ContextAfter(specs[..n]) == Remembered(specs, HeaderAbove(specs, n), IndentedAbove(specs, n))
  {
    if n != 0 {
      ContextIsRemembered(specs, n - 1);
      assert specs[..n][..n - 1] == specs[..n - 1];
    }
  }

  lemma WrapLow(a: u32)
    ensures Low8(AsInt(a)) == a % 0x100 && Low16(AsInt(a)) == a % 0x1_0000
    ensures AsInt(a) == -1 <==> a == 0xFFFF_FFFF
  {
  }

  lemma WrapHut(a: u32, b: u32)
    ensures Low32(AsInt(a) * 0x1_0000 + b) == (a * 0x1_0000 + b) % 0x1_0000_0000
  {
  }

  lemma WrapLang(a: u32, b: u32)
    ensures Low16(AsInt(a) + Low32(b * 0x400)) == (a + b * 0x400) % 0x1_0000
  {
    var x := b * 0x400;
    WrapTimes(a + x, x / 0x1_0000_0000 + if a < 0x8000_0000 then 0 else 1);
    assert Low32(x) == x - 0x1_0000_0000 * (x / 0x1_0000_0000);
  }

  lemma WrapTimes(x: int, k: int)
    ensures (x - 0x1_0000_0000 * k) % 0x1_0000 == x % 0x1_0000
  {
  }

  lemma WrapAround(a: u32, b: u32)
    ensures Low8(AsInt(a)) == a % 0x100 && Low16(AsInt(a)) == a % 0x1_0000
    ensures AsInt(a) == -1 <==> a == 0xFFFF_FFFF
    ensures Low32(AsInt(a) * 0x1_0000 + b) == (a * 0x1_0000 + b) % 0x1_0000_0000
    ensures Low16(AsInt(a) + Low32(b * 0x400)) == (a + b * 0x400) % 0x1_0000
  {
    WrapLow(a);
    WrapHut(a, b);
    WrapLang(a, b);
  }

  /** The definition made by an indented line with id b below a header with id a. */
  function IndentedUnder(header: Spec, a: u32, b: u32): Key
    requires IsHeader(header)
  {
    if header.tag == VendorTag then Product(a % 0x1_0000, b % 0x1_0000)
    else if header.tag == ClassTag then Subclass(a % 0x100, b % 0x100)
    else if header.tag == HutTag then HutUsage((a * 0x1_0000 + b) % 0x1_0000_0000)
    else Langid((a + b * 0x400) % 0x1_0000)
  }

  /** What an indented line defines is decided by the last header above it: nothing if there is none,
      or if its id is 2^32 - 1, which reads as none. */
  lemma IndentedKey(specs: seq<Spec>, n: nat)
    requires n < |specs| && IsIndented(specs[n])
    ensures var h := HeaderAbove(specs, n);
            KeyOf(ContextAfter(specs[..n]), specs[n])
            == if h == -1 || specs[h].id == 0xFFFF_FFFF then None
               else Some(IndentedUnder(specs[h], specs[h].id, specs[n].id))
  {
    ContextIsRemembered(specs, n);
    if HeaderAbove(specs, n) != -1 {
      KeyUnderHeader(specs[HeaderAbove(specs, n)], Remembered(specs, HeaderAbove(specs, n), IndentedAbove(specs, n)), specs[n]);
    }
  }

  lemma KeyUnderHeader(header: Spec, c: Context, s: Spec)
    requires IsHeader(header) && IsIndented(s) && c.(subclass := -1) == NextContext(Nowhere, header)
    ensures KeyOf(c, s) == if header.id == 0xFFFF_FFFF then None else Some(IndentedUnder(header, header.id, s.id))
  {
    WrapAround(header.id, s.id);
  }

  predicate IsDoubleIndented(s: Spec) {
    s.Entry? && s.tag == DoubleIndentedTag
  }

  /** The line stands below a class header and an indented line, neither with the id 2^32 - 1. */
  predicate BelowSubclass(specs: seq<Spec>, n: nat)
    requires n <= |specs|
  {
    var h, j := HeaderAbove(specs, n), IndentedAbove(specs, n);
    h != -1 && specs[h].tag == ClassTag && specs[h].id != 0xFFFF_FFFF && j != -1 && specs[j].id != 0xFFFF_FFFF
  }

  /** A doubly indented line defines a protocol exactly below a class header and an indented line. */
  lemma ProtocolKey(specs: seq<Spec>, n: nat)
    requires n < |specs| && IsDoubleIndented(specs[n])
    ensures KeyOf(ContextAfter(specs[..n]), specs[n])
         == if BelowSubclass(specs, n)
            then Some(Protocol(specs[HeaderAbove(specs, n)].id % 0x100, specs[IndentedAbove(specs, n)].id % 0x100,
                               specs[n].id % 0x100))
            else None
  {
    ContextIsRemembered(specs, n);
    var h, j := HeaderAbove(specs, n), IndentedAbove(specs, n);
    if h != -1 {
      WrapLow(specs[h].id);
    }
    if j != -1 {
      WrapLow(specs[j].id);
    }
  }
}
