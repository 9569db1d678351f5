/** The ids file as it is distributed: vendors with products, classes with subclasses and protocols, usage
    pages with usages, languages with dialects, and single lines.  Printing such a file and parsing it
    (src/installer/usbnames.c:621-952) is the identity. */
module UsbPrint {

  import opened Wrappers
  import opened Sequences
  import opened UsbTables
  import opened UsbParse
  import opened UsbLines

  datatype Named = Named(id: u16, name: string)

  datatype Sub = Sub(id: u8, name: string, protocols: seq<Small>)

  datatype Small = Small(id: u8, name: string)

  datatype Block =
    | VendorBlock(vendor: u16, name: string, products: seq<Named>)
    | ClassBlock(class_: u8, name: string, subclasses: seq<Sub>)
    | PageBlock(page: u16, name: string, usages: seq<Named>)
    | LanguageBlock(lang: u16, name: string, dialects: seq<Named>)
    | SingleLine(tag: Tag, code: u32, name: string)

  /** A line of the file, and the key that it is to define. */
  datatype Row = Row(tag: Tag, id: u32, width: nat, name: string, key: Key)

  function PrintRow(r: Row): string {
    LineText(r.tag, "", r.id, r.width, "  ", r.name) + "\n"
  }

  function Texts(rows: seq<Row>): (lines: seq<string>)
    ensures |lines| == |rows|
  {
    seq(|rows|, i requires 0 <= i < |rows| => PrintRow(rows[i]))
  }

  function DefOf(r: Row): Def {
    Def(r.key, r.name)
  }

  // ---- the lines of a block ----

  function ProductRows(vendor: u16, products: seq<Named>): (rows: seq<Row>)
    ensures |rows| == |products|
  {
    seq(|products|, i requires 0 <= i < |products| =>
      Row(IndentedTag, products[i].id, 4, products[i].name, Product(vendor, products[i].id)))
  }

  function ProtocolRows(class_: u8, sub: u8, protocols: seq<Small>): (rows: seq<Row>)
    ensures |rows| == |protocols|
  {
    seq(|protocols|, i requires 0 <= i < |protocols| =>
      Row(DoubleIndentedTag, protocols[i].id, 2, protocols[i].name, Protocol(class_, sub, protocols[i].id)))
  }

  function SubclassRows(class_: u8, subs: seq<Sub>): seq<Row> {
    if subs == [] then []
    else
      [Row(IndentedTag, subs[0].id, 2, subs[0].name, Subclass(class_, subs[0].id))]
      + ProtocolRows(class_, subs[0].id, subs[0].protocols)
      + SubclassRows(class_, subs[1..])
  }

  function UsageRows(page: u16, usages: seq<Named>): (rows: seq<Row>)
    ensures |rows| == |usages|
  {
    seq(|usages|, i requires 0 <= i < |usages| =>
      Row(IndentedTag, usages[i].id, 3, usages[i].name, HutUsage(page * 0x1_0000 + usages[i].id)))
  }

  function DialectRows(lang: u16, dialects: seq<Named>): (rows: seq<Row>)
    ensures |rows| == |dialects|
  {
    seq(|dialects|, i requires 0 <= i < |dialects| =>
      Row(IndentedTag, dialects[i].id, 2, dialects[i].name, Langid((lang + 0x400 * dialects[i].id) % 0x1_0000)))
  }

  predicate IsSingle(tag: Tag) {
    tag in {PhysdesTag, BiasTag, AudioTerminalTag, VideoTerminalTag, CountryTag, HidTag, ReportTag}
  }

  function Rows(b: Block): seq<Row>
    requires b.SingleLine? ==> IsSingle(b.tag)
  {
    match b
    case VendorBlock(id, name, products) => [Row(VendorTag, id, 4, name, Vendor(id))] + ProductRows(id, products)
    case ClassBlock(id, name, subs) => [Row(ClassTag, id, 2, name, Class(id))] + SubclassRows(id, subs)
    case PageBlock(id, name, usages) => [Row(HutTag, id, 2, name, Hut(id))] + UsageRows(id, usages)
    case LanguageBlock(id, name, dialects) => [Row(LangidTag, id, 4, name, Langid(id))] + DialectRows(id, dialects)
    case SingleLine(tag, code, name) => [Row(tag, code, 2, name, KeyOfLine(tag, code))]
  }

  ghost predicate CleanBlock(b: Block) {
    && (b.SingleLine? ==> IsSingle(b.tag))
    && forall i :: 0 <= i < |Rows(b)| ==> Clean(Rows(b)[i].name)
  }

  ghost predicate CleanFile(blocks: seq<Block>) {
    forall i :: 0 <= i < |blocks| ==> CleanBlock(blocks[i])
  }

  ghost function FileRows(blocks: seq<Block>): seq<Row>
    requires CleanFile(blocks)
  {
    if blocks == [] then [] else FileRows(blocks[..|blocks| - 1]) + Rows(blocks[|blocks| - 1])
  }

  ghost function PrintFile(blocks: seq<Block>): seq<string>
    requires CleanFile(blocks)
  {
    Texts(FileRows(blocks))
  }

  ghost function FileDefinitions(blocks: seq<Block>): seq<Def>
    requires CleanFile(blocks)
  {
    Defs(FileRows(blocks))
  }

  // ---- what lines define one after the other ----

  function SpecOf(r: Row): Spec {
    Entry(r.tag, r.id, r.name)
  }

  function SpecsOf(rows: seq<Row>): (specs: seq<Spec>)
    ensures |specs| == |rows|
  {
    seq(|rows|, i requires 0 <= i < |rows| => SpecOf(rows[i]))
  }

  function Defs(rows: seq<Row>): (defs: seq<Def>)
    ensures |defs| == |rows|
  {
    seq(|rows|, i requires 0 <= i < |rows| => DefOf(rows[i]))
  }

  /** In this context, the lines define their keys. */
  ghost predicate Yields(c: Context, rows: seq<Row>)
    decreases |rows|
  {
    rows == [] || (KeyOf(c, SpecOf(rows[0])) == Some(rows[0].key) && Yields(NextContext(c, SpecOf(rows[0])), rows[1..]))
  }

  function After(c: Context, rows: seq<Row>): Context
    decreases |rows|
  {
    if rows == [] then c else After(NextContext(c, SpecOf(rows[0])), rows[1..])
  }

  lemma {:induction false} YieldsSum(c: Context, a: seq<Row>, b: seq<Row>)
    ensures After(c, a + b) == After(After(c, a), b)
    ensures Yields(c, a + b) <==> Yields(c, a) && Yields(After(c, a), b)
    decreases |a|
  {
    if a == [] {
      assert a + b == b;
    } else {
      assert (a + b)[1..] == a[1..] + b;
      YieldsSum(NextContext(c, SpecOf(a[0])), a[1..], b);
    }
  }

  lemma HeadAndTail(rows: seq<Row>)
    requires rows != []
    ensures SpecsOf(rows) == [SpecOf(rows[0])] + SpecsOf(rows[1..]) && Defs(rows) == [DefOf(rows[0])] + Defs(rows[1..])
  {
  }

  lemma FirstRow(before: seq<Spec>, r: Row)
    requires KeyOf(ContextAfter(before), SpecOf(r)) == Some(r.key)
    ensures Definitions(before + [SpecOf(r)]) == Definitions(before) + [DefOf(r)]
    ensures ContextAfter(before + [SpecOf(r)]) == NextContext(ContextAfter(before), SpecOf(r))
  {
    DefinitionsOneMore(before, SpecOf(r));
    assert (before + [SpecOf(r)])[..|before|] == before;
  }

  lemma {:induction false} RowsDefine(before: seq<Spec>, rows: seq<Row>)
    requires Yields(ContextAfter(before), rows)
    ensures Definitions(before + SpecsOf(rows)) == Definitions(before) + Defs(rows)
    ensures ContextAfter(before + SpecsOf(rows)) == After(ContextAfter(before), rows)
    decreases |rows|
  {
    if rows == [] {
      assert before + SpecsOf(rows) == before && Definitions(before) + Defs(rows) == Definitions(before);
    } else {
      FirstRow(before, rows[0]);
      HeadAndTail(rows);
      Associative(before, [SpecOf(rows[0])], SpecsOf(rows[1..]));
      Associative(Definitions(before), [DefOf(rows[0])], Defs(rows[1..]));
      RowsDefine(before + [SpecOf(rows[0])], rows[1..]);
    }
  }

  // ---- every block, after whatever came before it ----

  /** Lines that leave the context alone. */
  lemma {:induction false} StableRows(c: Context, rows: seq<Row>)
    requires forall i :: 0 <= i < |rows| ==> KeyOf(c, SpecOf(rows[i])) == Some(rows[i].key) && NextContext(c, SpecOf(rows[i])) == c
    ensures Yields(c, rows) && After(c, rows) == c
    decreases |rows|
  {
    if rows != [] {
      StableRows(c, rows[1..]);
    }
  }

  lemma {:induction false} SubclassesYield(class_: u8, subs: seq<Sub>, c: Context)
    requires c == Nowhere.(class_ := class_, subclass := c.subclass)
    ensures Yields(c, SubclassRows(class_, subs))
    decreases |subs|
  {
    if subs != [] {
      var sub, next := subs[0], c.(subclass := subs[0].id);
      var first := Row(IndentedTag, sub.id, 2, sub.name, Subclass(class_, sub.id));
      var protocols, more := ProtocolRows(class_, sub.id, sub.protocols), SubclassRows(class_, subs[1..]);
      assert KeyOf(c, SpecOf(first)) == Some(first.key) && NextContext(c, SpecOf(first)) == next;
      assert [first][1..] == [];
      StableRows(next, protocols);
      SubclassesYield(class_, subs[1..], next);
      YieldsSum(c, [first], protocols);
      YieldsSum(c, [first] + protocols, more);
    }
  }

  lemma HeadAndBody(c: Context, head: Row, body: seq<Row>)
    requires KeyOf(c, SpecOf(head)) == Some(head.key) && Yields(NextContext(c, SpecOf(head)), body)
    ensures Yields(c, [head] + body)
  {
    assert ([head] + body)[1..] == body;
  }

  lemma VendorYields(c: Context, b: Block)
    requires b.VendorBlock?
    ensures Yields(c, Rows(b))
  {
    StableRows(Nowhere.(vendor := b.vendor), ProductRows(b.vendor, b.products));
    HeadAndBody(c, Row(VendorTag, b.vendor, 4, b.name, Vendor(b.vendor)), ProductRows(b.vendor, b.products));
  }

  lemma PageYields(c: Context, b: Block)
    requires b.PageBlock?
    ensures Yields(c, Rows(b))
  {
    StableRows(Nowhere.(hut := b.page), UsageRows(b.page, b.usages));
    HeadAndBody(c, Row(HutTag, b.page, 2, b.name, Hut(b.page)), UsageRows(b.page, b.usages));
  }

  lemma LanguageYields(c: Context, b: Block)
    requires b.LanguageBlock?
    ensures Yields(c, Rows(b))
  {
    StableRows(Nowhere.(lang := b.lang), DialectRows(b.lang, b.dialects));
    HeadAndBody(c, Row(LangidTag, b.lang, 4, b.name, Langid(b.lang)), DialectRows(b.lang, b.dialects));
  }

  lemma BlockYields(c: Context, b: Block)
    requires CleanBlock(b)
    ensures Yields(c, Rows(b))
  {
    match b
    case VendorBlock(_, _, _) => VendorYields(c, b);
    case PageBlock(_, _, _) => PageYields(c, b);
    case LanguageBlock(_, _, _) => LanguageYields(c, b);
    case ClassBlock(id, name, subs) =>
      SubclassesYield(id, subs, Nowhere.(class_ := id));
      HeadAndBody(c, Row(ClassTag, id, 2, name, Class(id)), SubclassRows(id, subs));
    case SingleLine(tag, code, name) =>
      HeadAndBody(c, Row(tag, code, 2, name, KeyOfLine(tag, code)), []);
  }

  // ---- files ----

  lemma {:induction false} FileYields(blocks: seq<Block>)
    requires CleanFile(blocks)
    ensures Yields(Nowhere, FileRows(blocks)) && forall i :: 0 <= i < |FileRows(blocks)| ==> Clean(FileRows(blocks)[i].name)
  {
    if blocks != [] {
      var before, b := blocks[..|blocks| - 1], blocks[|blocks| - 1];
      FileYields(before);
      BlockYields(After(Nowhere, FileRows(before)), b);
      YieldsSum(Nowhere, FileRows(before), Rows(b));
    }
  }

  lemma RowReads(r: Row)
    requires Clean(r.name)
    ensures LineSpec(PrintRow(r)) == SpecOf(r)
  {
    LineReads(r.tag, "", r.id, r.width, "  ", r.name);
  }

  lemma TextsRead(rows: seq<Row>)
    requires forall i :: 0 <= i < |rows| ==> Clean(rows[i].name)
    ensures Specs(Texts(rows)) == SpecsOf(rows)
  {
    forall i | 0 <= i < |rows|
      ensures LineSpec(Texts(rows)[i]) == SpecsOf(rows)[i]
    {
      RowReads(rows[i]);
    }
  }

  lemma RowsFromStart(rows: seq<Row>)
    requires Yields(Nowhere, rows)
    ensures Definitions(SpecsOf(rows)) == Defs(rows)
  {
    RowsDefine([], rows);
    assert [] + SpecsOf(rows) == SpecsOf(rows);
    assert Definitions([]) + Defs(rows) == Defs(rows);
  }

  /** Parsing a printed file yields the names of all its blocks, in order. */
  lemma DefinitionsOfFile(blocks: seq<Block>)
    requires CleanFile(blocks)
    ensures Definitions(Specs(PrintFile(blocks))) == FileDefinitions(blocks)
  {
    FileYields(blocks);
    TextsRead(FileRows(blocks));
    RowsFromStart(FileRows(blocks));
  }
}
