/** What survives writing the settings and reading them back (src/installer/helper.c:298-381). */
module KvSession {

  import opened Wrappers
  import opened Sequences
  import opened KvList
  import opened KvFile

  // ---- which items survive ----

  /** Items that the file format can carry. */
  predicate Printable(i: Item) {
    && i.key != "" && '=' !in i.key && '\n' !in i.key
    && '\n' !in i.value
    && (' ' !in i.value ==> i.value == "" || i.value[0] != '\'')
    && |PrintBody(i)| <= 255
  }

  lemma {:induction false} ChunkOfLine(body: string, rest: string, max: nat)
    requires '\n' !in body
    ensures |body| < max ==> ChunkLength(body + "\n" + rest, max) == |body| + 1
    ensures |body| >= max ==> ChunkLength(body + "\n" + rest, max) == max
    decreases max
  {
    var text := body + "\n" + rest;
    if max != 0 {
      if body == "" {
        assert text[0] == '\n';
      } else {
        assert text[1..] == body[1..] + "\n" + rest;
        ChunkOfLine(body[1..], rest, max - 1);
      }
    }
  }

  lemma IndexAfter(a: string, c: char, b: string)
    requires c !in a
    ensures IndexOf(a + [c] + b, c) == |a|
  {
    var s := a + [c] + b;
    assert s[|a|] == c;
    assert forall j :: 0 <= j < |a| ==> s[j] == a[j];
  }

  lemma IndexAbsent(s: string, c: char)
    requires c !in s
    ensures IndexOf(s, c) == |s|
  {
  }

  lemma LastIndexAtEnd(a: string, c: char)
    ensures LastIndexOf(a + [c], c) == |a|
  {
  }

  lemma UnquotePrinted(v: string)
    ensures Unquote(PrintValue(v)) == Some(v) <==> ' ' in v || v == "" || v[0] != '\''
  {
    if ' ' in v {
      var q := PrintValue(v);
      assert q[0] == '\'' && q[1..] == v + ['\''];
      LastIndexAtEnd(v, '\'');
    }
  }

  lemma ParsePrintedBody(i: Item)
    requires i.key != "" && '=' !in i.key
    ensures ParseBody(PrintBody(i)) == Entry(i) <==> ' ' in i.value || i.value == "" || i.value[0] != '\''
  {
    var body := PrintBody(i);
    IndexAfter(i.key, '=', PrintValue(i.value));
    assert body == i.key + ['='] + PrintValue(i.value);
    assert body[|i.key| + 1..] == PrintValue(i.value) && body[..|i.key|] == i.key;
    UnquotePrinted(i.value);
  }

  // ---- reading piece by piece ----

  /** A text made of whole lines. */
  predicate Complete(text: string) {
    text == "" || text[|text| - 1] == '\n'
  }

  lemma {:induction false} ChunkOfSum(a: string, b: string, max: nat)
    requires a != "" && Complete(a)
    ensures ChunkLength(a + b, max) == ChunkLength(a, max)
    ensures Complete(a[ChunkLength(a, max)..])
    decreases max
  {
    if max != 0 && a[0] != '\n' {
      assert (a + b)[1..] == a[1..] + b;
      ChunkOfSum(a[1..], b, max - 1);
      assert a[ChunkLength(a, max)..] == a[1..][ChunkLength(a[1..], max - 1)..];
    }
  }

  /** Reading whole lines and then the rest is reading the whole. */
  lemma {:induction false} ReadSum(a: string, b: string, onto: seq<Item>)
    requires Complete(a)
    ensures Read(a + b, onto) == if Read(a, onto).ok then Read(b, Read(a, onto).items) else Read(a, onto)
    decreases |a|
  {
    if a == "" {
      assert a + b == b;
    } else {
      ChunkOfSum(a, b, LINE_MAX);
      assert Chunk(a + b) == Chunk(a);
      assert AfterChunk(a + b) == AfterChunk(a) + b;
      match ParseBuffer(Chunk(a))
      case Skip => ReadSum(AfterChunk(a), b, onto);
      case Bad =>
      case Entry(item) => ReadSum(AfterChunk(a), b, [item] + onto);
    }
  }

  /** What a text contributes does not depend on the list it is read onto. */
  lemma {:induction false} ReadOnto(text: string, onto: seq<Item>)
    ensures Read(text, onto) == Loaded(Read(text, []).ok, Read(text, []).items + onto)
    decreases |text|
  {
    if text == "" {
    } else {
      match ParseBuffer(Chunk(text))
      case Skip => ReadOnto(AfterChunk(text), onto);
      case Bad =>
      case Entry(item) =>
        ReadOnto(AfterChunk(text), [item] + onto);
        ReadOnto(AfterChunk(text), [item]);
        Associative(Read(AfterChunk(text), []).items, [item], onto);
        assert [item] + [] == [item];
    }
  }

  predicate WellFormed(i: Item) {
    i.key != "" && '=' !in i.key && '\n' !in i.key && '\n' !in i.value
  }

  lemma ParsedIsWellFormed(buffer: string)
    requires ParseBuffer(buffer).Entry?
    ensures WellFormed(ParseBuffer(buffer).item)
  {
    var body := buffer[..IndexOf(buffer, '\n')];
    var v := body[IndexOf(body, '=') + 1..];
    assert '\n' !in body;
    assert '\n' !in v;
    if v != "" && v[0] == '\'' {
      assert '\n' !in v[1..];
      assert forall c :: c in v[1..][..LastIndexOf(v[1..], '\'')] ==> c in v[1..];
    }
  }

  lemma {:induction false} ReadIsWellFormed(text: string, onto: seq<Item>)
    requires forall i :: i in onto ==> WellFormed(i)
    ensures forall i :: i in Read(text, onto).items ==> WellFormed(i)
    decreases |text|
  {
    if text != "" {
      match ParseBuffer(Chunk(text))
      case Skip => ReadIsWellFormed(AfterChunk(text), onto);
      case Bad =>
      case Entry(item) =>
        ParsedIsWellFormed(Chunk(text));
        ReadIsWellFormed(AfterChunk(text), [item] + onto);
    }
  }

  // ---- one item ----

  lemma PrintableSurvives(i: Item, onto: seq<Item>)
    requires Printable(i)
    ensures Read(PrintItem(i), onto) == Loaded(true, [i] + onto)
  {
    var body := PrintBody(i);
    ChunkOfLine(body, "", LINE_MAX + 1);
    BodyHasNoNewline(i);
    if |body| < LINE_MAX {
      ChunkOfLine(body, "", LINE_MAX);
      assert body + "\n" + "" == PrintItem(i);
      assert Chunk(PrintItem(i)) == PrintItem(i) && AfterChunk(PrintItem(i)) == "";
      IndexAfter(body, '\n', "");
      assert body + ['\n'] + "" == PrintItem(i);
      assert PrintItem(i)[..|body|] == body;
      ParsePrintedBody(i);
    } else {
      // the newline is left for a buffer of its own, which is skipped
      ChunkOfLine(body, "", LINE_MAX);
      assert body + "\n" + "" == PrintItem(i);
      assert Chunk(PrintItem(i)) == body && AfterChunk(PrintItem(i)) == "\n";
      IndexAbsent(body, '\n');
      assert body[..|body|] == body;
      ParsePrintedBody(i);
      assert Read("\n", [i] + onto) == Loaded(true, [i] + onto) by {
        assert Chunk("\n") == "\n" && AfterChunk("\n") == "";
      }
    }
  }

  lemma BodyHasNoNewline(i: Item)
    requires '\n' !in i.key && '\n' !in i.value
    ensures '\n' !in PrintBody(i)
  {
  }

  /** The first buffer without its newline. */
  lemma FirstPart(i: Item)
    requires WellFormed(i)
    ensures var buffer, body := Chunk(PrintItem(i)), PrintBody(i);
            buffer[..IndexOf(buffer, '\n')] == if |body| < LINE_MAX then body else body[..LINE_MAX]
  {
    var buffer, body := Chunk(PrintItem(i)), PrintBody(i);
    BodyHasNoNewline(i);
    ChunkOfLine(body, "", LINE_MAX);
    assert body + "\n" + "" == PrintItem(i);
    if |body| < LINE_MAX {
      IndexAfter(body, '\n', "");
      assert body + ['\n'] + "" == PrintItem(i);
    } else {
      assert buffer == body[..LINE_MAX];
      IndexAbsent(buffer, '\n');
    }
  }

  /** The first buffer of a well-formed item yields a key with at most the item's own value; an item
      whose line is too long for one buffer yields less than its value. */
  lemma FirstBuffer(i: Item)
    requires WellFormed(i)
    ensures var line := ParseBuffer(Chunk(PrintItem(i)));
            && !line.Skip?
            && (line.Entry? && |PrintBody(i)| > LINE_MAX ==> |line.item.value| < |i.value|)
  {
    var body := PrintBody(i);
    var n := if |body| < LINE_MAX then |body| else LINE_MAX;
    FirstPart(i);
    assert body[..|body|] == body;
    CutBody(i, n);
  }

  /** The start of a printed body, cut off after n characters. */
  lemma CutBody(i: Item, n: nat)
    requires WellFormed(i) && 0 < n <= |PrintBody(i)|
    ensures !ParseBody(PrintBody(i)[..n]).Skip?
    ensures n < |PrintBody(i)| && ParseBody(PrintBody(i)[..n]).Entry? ==> |ParseBody(PrintBody(i)[..n]).item.value| < |i.value|
  {
    var body, part := PrintBody(i), PrintBody(i)[..n];
    assert body[|i.key|] == '=' && forall j :: 0 <= j < |i.key| ==> body[j] == i.key[j];
    if |i.key| < n {
      IndexIs(part, '=', |i.key|);
      if n < |body| {
        CutValueIsShorter(i.value, n - |i.key| - 1);
        CutBehind(i.key + "=", PrintValue(i.value), n);
      }
    } else {
      IndexIs(part, '=', n);
    }
  }

  lemma CutValueIsShorter(v: string, m: nat)
    requires m < |PrintValue(v)|
    ensures Unquote(PrintValue(v)[..m]).Some? ==> |Unquote(PrintValue(v)[..m]).value| < |v|
  {
  }

  /** Writing one item and reading it back gives the item exactly when it is printable. */
  lemma ItemSurvivesIffPrintable(i: Item)
    ensures Read(PrintItem(i), []) == Loaded(true, [i]) <==> Printable(i)
  {
    if Printable(i) {
      PrintableSurvives(i, []);
    } else if Read(PrintItem(i), []) == Loaded(true, [i]) {
      ReadIsWellFormed(PrintItem(i), []);
      assert i in Read(PrintItem(i), []).items;
      FirstBuffer(i);
      var line := ParseBuffer(Chunk(PrintItem(i)));
      ReadOnto(AfterChunk(PrintItem(i)), [line.item]);
      assert [line.item] + [] == [line.item];
      assert line.item == i;
      assert |PrintBody(i)| <= LINE_MAX;
      PrintedLineIsBody(i);
      ParsePrintedBody(i);
      assert false;
    }
  }

  lemma PrintedLineIsBody(i: Item)
    requires WellFormed(i) && |PrintBody(i)| <= LINE_MAX
    ensures ParseBuffer(Chunk(PrintItem(i))) == ParseBody(PrintBody(i))
  {
    var body := PrintBody(i);
    BodyHasNoNewline(i);
    ChunkOfLine(body, "", LINE_MAX);
    assert body + "\n" + "" == PrintItem(i);
    if |body| < LINE_MAX {
      IndexAfter(body, '\n', "");
      assert body + ['\n'] + "" == PrintItem(i);
      assert Chunk(PrintItem(i))[..|body|] == body;
    } else {
      assert Chunk(PrintItem(i)) == body;
      IndexAbsent(body, '\n');
      assert body[..|body|] == body;
    }
  }

  // ---- whole lists ----

  lemma PrintItemIsComplete(i: Item)
    ensures Complete(PrintItem(i)) && PrintItem(i) != ""
  {
  }

  lemma ReadFirstPrinted(i: Item, rest: string, onto: seq<Item>)
    requires Printable(i)
    ensures Read(PrintItem(i) + rest, onto) == Read(rest, [i] + onto)
  {
    PrintItemIsComplete(i);
    ReadSum(PrintItem(i), rest, onto);
    PrintableSurvives(i, onto);
  }

  lemma ReverseOnto(items: seq<Item>, onto: seq<Item>)
    requires items != []
    ensures Reverse(items[1..]) + ([items[0]] + onto) == Reverse(items) + onto
  {
    Associative(Reverse(items[1..]), [items[0]], onto);
  }

  /** Writing a list and reading it back reverses it. */
  lemma {:induction false} PrintableListsAreReversed(items: seq<Item>, onto: seq<Item>)
    requires forall i :: i in items ==> Printable(i)
    ensures Read(Print(items), onto) == Loaded(true, Reverse(items) + onto)
  {
    if items == [] {
      assert Reverse(items) + onto == onto;
    } else {
      ReadFirstPrinted(items[0], Print(items[1..]), onto);
      PrintableListsAreReversed(items[1..], [items[0]] + onto);
      ReverseOnto(items, onto);
    }
  }

  /** Every well-formed item yields at least one entry, if it can be read at all. */
  lemma AtLeastOne(i: Item)
    requires WellFormed(i) && Read(PrintItem(i), []).ok
    ensures |Read(PrintItem(i), []).items| >= 1
  {
    FirstBuffer(i);
    var line := ParseBuffer(Chunk(PrintItem(i)));
    assert [line.item] + [] == [line.item];
    ReadOnto(AfterChunk(PrintItem(i)), [line.item]);
  }

  /** Reading the first item and then the others, each onto an empty list. */
  lemma ReadFirstThenRest(items: seq<Item>)
    requires items != [] && Read(Print(items), []).ok
    ensures Read(PrintItem(items[0]), []).ok && Read(Print(items[1..]), []).ok
    ensures Read(Print(items), []).items == Read(Print(items[1..]), []).items + Read(PrintItem(items[0]), []).items
  {
    PrintItemIsComplete(items[0]);
    ReadSum(PrintItem(items[0]), Print(items[1..]), []);
    ReadOnto(Print(items[1..]), Read(PrintItem(items[0]), []).items);
  }

  lemma {:induction false} AtLeastAsMany(items: seq<Item>)
    requires (forall i :: i in items ==> WellFormed(i)) && Read(Print(items), []).ok
    ensures |Read(Print(items), []).items| >= |items|
  {
    if items != [] {
      ReadFirstThenRest(items);
      AtLeastOne(items[0]);
      AtLeastAsMany(items[1..]);
    }
  }

  lemma {:induction false} ReversedListsArePrintable(items: seq<Item>)
    requires forall i :: i in items ==> WellFormed(i)
    requires Read(Print(items), []) == Loaded(true, Reverse(items))
    ensures forall i :: i in items ==> Printable(i)
  {
    if items != [] {
      var first, rest := items[0], items[1..];
      ReadFirstThenRest(items);
      AtLeastOne(first);
      AtLeastAsMany(rest);
      var a, b := Read(Print(rest), []).items, Read(PrintItem(first), []).items;
      assert a + b == Reverse(rest) + [first];
      assert |b| == 1;
      assert a == (a + b)[..|rest|] && b == (a + b)[|rest|..];
      assert a == Reverse(rest) && b == [first];
      ItemSurvivesIffPrintable(first);
      ReversedListsArePrintable(rest);
    }
  }

  lemma ReverseHasSameItems(items: seq<Item>)
    ensures forall i :: i in items ==> i in Reverse(items)
  {
    forall i | i in items
      ensures i in Reverse(items)
    {
      var k :| 0 <= k < |items| && items[k] == i;
      ReverseAt(items, |items| - 1 - k);
    }
  }

  /** A list comes back reversed exactly when all its items are printable. */
  lemma ListSurvivesIffPrintable(items: seq<Item>)
    ensures Read(Print(items), []) == Loaded(true, Reverse(items)) <==> forall i :: i in items ==> Printable(i)
  {
    if forall i :: i in items ==> Printable(i) {
      PrintableListsAreReversed(items, []);
      assert Reverse(items) + [] == Reverse(items);
    } else if Read(Print(items), []) == Loaded(true, Reverse(items)) {
      ReadIsWellFormed(Print(items), []);
      ReverseHasSameItems(items);
      ReversedListsArePrintable(items);
    }
  }

  /** Saving and reloading twice gives the list back. */
  lemma TwiceIsIdentity(items: seq<Item>)
    requires forall i :: i in items ==> Printable(i)
    ensures Read(Print(Read(Print(items), []).items), []) == Loaded(true, items)
  {
    ListSurvivesIffPrintable(items);
    forall i | i in Reverse(items)
      ensures Printable(i)
    {
      var k :| 0 <= k < |items| && Reverse(items)[k] == i;
      ReverseAt(items, k);
    }
    ListSurvivesIffPrintable(Reverse(items));
    ReverseTwice(items);
  }

  // ---- sessions ----

  datatype Change = Change(key: string, value: string)

  function Apply(items: seq<Item>, changes: seq<Change>): seq<Item>
    decreases |changes|
  {
    if changes == [] then items else Apply(Update(items, changes[0].key, changes[0].value), changes[1..])
  }

  /** The value that a key has after the changes: that of its last change, or else the old one. */
  function Overridden(before: Option<string>, changes: seq<Change>, key: string): Option<string> {
    if changes == [] then before
    else if changes[|changes| - 1].key == key then Some(changes[|changes| - 1].value)
    else Overridden(before, changes[..|changes| - 1], key)
  }

  lemma {:induction false} ApplyOneMore(items: seq<Item>, changes: seq<Change>, c: Change)
    ensures Apply(items, changes + [c]) == Update(Apply(items, changes), c.key, c.value)
    decreases |changes|
  {
    if changes == [] {
      assert changes + [c] == [c];
    } else {
      assert (changes + [c])[1..] == changes[1..] + [c];
      ApplyOneMore(Update(items, changes[0].key, changes[0].value), changes[1..], c);
    }
  }

  lemma {:induction false} FindAfterChanges(items: seq<Item>, changes: seq<Change>, key: string)
    requires DistinctKeys(items)
    ensures DistinctKeys(Apply(items, changes))
    ensures Find(Apply(items, changes), key) == Overridden(Find(items, key), changes, key)
    decreases |changes|
  {
    if changes != [] {
      var before, c := changes[..|changes| - 1], changes[|changes| - 1];
      assert changes == before + [c];
      FindAfterChanges(items, before, key);
      ApplyOneMore(items, before, c);
      FindAfterUpdate(Apply(items, before), c.key, c.value, key);
      UpdateKeepsDistinct(Apply(items, before), c.key, c.value);
    }
  }

  /** A session: load a file without duplicate keys, change settings, save, and load again.  Every
      key has its last change, or else its value in the file; the keys are still distinct. */
  lemma SessionOverridesFile(file: string, changes: seq<Change>, key: string)
    requires Read(file, []).ok && DistinctKeys(Read(file, []).items)
    requires forall i :: i in Apply(Read(file, []).items, changes) ==> Printable(i)
    ensures var before := Read(file, []).items;
            var after := Read(Print(Apply(before, changes)), []);
            && after.ok && DistinctKeys(after.items)
            && after.items == Reverse(Apply(before, changes))
            && Find(after.items, key) == Overridden(Find(before, key), changes, key)
  {
    var items := Apply(Read(file, []).items, changes);
    FindAfterChanges(Read(file, []).items, changes, key);
    ListSurvivesIffPrintable(items);
    DistinctKeysFind(items, key);
    ReverseKeepsDistinct(items);
  }

  /** What a reload changes for a list with duplicates: the last one wins instead of the first. */
  lemma ReloadTurnsFirstIntoLast(items: seq<Item>, key: string)
    requires forall i :: i in items ==> Printable(i)
    ensures Find(Read(Print(items), []).items, key) == FindLast(items, key)
  {
    ListSurvivesIffPrintable(items);
    FindInReverse(items, key);
  }

  /** With duplicates in a file, loading and saving flips the winner. */
  lemma DuplicatesFlip()
    ensures var items := [Item("A", "2"), Item("A", "1")];
            Find(items, "A") == Some("2") && Find(Read(Print(items), []).items, "A") == Some("1")
  {
    var items := [Item("A", "2"), Item("A", "1")];
    ReloadTurnsFirstIntoLast(items, "A");
  }
}
