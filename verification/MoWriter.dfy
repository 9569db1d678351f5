/** Every catalogue has an image in either byte order, in the layout of msgfmt without a hash table: the
    header, the two tables, and the texts. */
module MoWriter {

  import opened Wrappers
  import opened MoWords
  import opened MoCatalog
  import opened MoReading
  import opened MoImage

  const LIMIT: nat := 0x1_0000_0000
  const TABLES: nat := 28

  // ---- pieces of a file ----

  /** The bytes x lie at position a of the file. */
  ghost predicate At(file: seq<byte>, a: nat, x: seq<byte>) {
    a + |x| <= |file| && file[a..a + |x|] == x
  }

  ghost predicate HasWords(o: Order, file: seq<byte>, at: nat, ws: seq<u32>) {
    forall k {:trigger ws[k]} :: 0 <= k < |ws| ==> HasWord(o, file, at + 4 * k, ws[k])
  }

  ghost predicate TextAt(file: seq<byte>, pos: nat, t: Text) {
    pos + |t| < |file| && file[pos..pos + |t|] == t && file[pos + |t|] == 0
  }

  lemma WordMoves(o: Order, file: seq<byte>, a: nat, x: seq<byte>, at: nat, w: u32)
    requires At(file, a, x) && HasWord(o, x, at, w)
    ensures HasWord(o, file, a + at, w)
  {
    var p, y := a + at, file[a..a + |x|];
    assert file[p] == y[at] && file[p + 1] == y[at + 1] && file[p + 2] == y[at + 2] && file[p + 3] == y[at + 3];
    assert file[p] == x[at] && file[p + 1] == x[at + 1] && file[p + 2] == x[at + 2] && file[p + 3] == x[at + 3];
  }

  lemma TextMoves(file: seq<byte>, a: nat, x: seq<byte>, pos: nat, t: Text)
    requires At(file, a, x) && TextAt(x, pos, t)
    ensures TextAt(file, a + pos, t)
  {
    var p, y := a + pos, file[a..a + |x|];
    assert file[p + |t|] == y[pos + |t|];
    forall k | 0 <= k < |t|
      ensures file[p..p + |t|][k] == t[k]
    {
      assert file[p + k] == y[pos + k] == x[pos..pos + |t|][k];
    }
  }

  lemma WordsMove(o: Order, file: seq<byte>, a: nat, x: seq<byte>, ws: seq<u32>)
    requires At(file, a, x) && HasWords(o, x, 0, ws)
    ensures HasWords(o, file, a, ws)
  {
    forall k {:trigger ws[k]} | 0 <= k < |ws|
      ensures HasWord(o, file, a + 4 * k, ws[k])
    {
      WordMoves(o, file, a, x, 4 * k, ws[k]);
    }
  }

  lemma SumLies(x: seq<byte>, y: seq<byte>)
    ensures At(x + y, 0, x) && At(x + y, |x|, y)
  {
    assert (x + y)[0..|x|] == x && (x + y)[|x|..|x| + |y|] == y;
  }

  // ---- writing words and texts ----

  lemma WriteWord(o: Order, w: u32) returns (b: seq<byte>)
    ensures |b| == 4 && HasWord(o, b, 0, w)
  {
    b := Bytes(o, w);
    JoinOfBytes(o, w);
  }

  lemma {:induction false} WriteWords(o: Order, ws: seq<u32>) returns (b: seq<byte>)
    ensures |b| == 4 * |ws| && HasWords(o, b, 0, ws)
  {
    if ws == [] {
      b := [];
    } else {
      var n := |ws| - 1;
      var before := WriteWords(o, ws[..n]);
      var last := WriteWord(o, ws[n]);
      b := before + last;
      SumLies(before, last);
      WordsMove(o, b, 0, before, ws[..n]);
      WordMoves(o, b, 4 * n, last, 0, ws[n]);
      forall k {:trigger ws[k]} | 0 <= k < |ws|
        ensures HasWord(o, b, 4 * k, ws[k])
      {
        assert k < n ==> ws[k] == ws[..n][k];
      }
    }
  }

  /** The size of texts one after the other, each with its zero byte. */
  function Total(texts: seq<Text>): nat {
    if texts == [] then 0 else Total(texts[..|texts| - 1]) + |texts[|texts| - 1]| + 1
  }

  /** Text i lies at position a + ps[i]. */
  ghost predicate HasTexts(file: seq<byte>, a: nat, texts: seq<Text>, ps: seq<nat>) {
    |ps| == |texts| && forall i {:trigger ps[i]} :: 0 <= i < |ps| ==> TextAt(file, a + ps[i], texts[i])
  }

  lemma TextsMove(file: seq<byte>, a: nat, x: seq<byte>, texts: seq<Text>, ps: seq<nat>)
    requires At(file, a, x) && HasTexts(x, 0, texts, ps)
    ensures HasTexts(file, a, texts, ps)
  {
    forall i {:trigger ps[i]} | 0 <= i < |ps|
      ensures TextAt(file, a + ps[i], texts[i])
    {
      TextMoves(file, a, x, ps[i], texts[i]);
    }
  }

  lemma WriteText(t: Text) returns (b: seq<byte>)
    ensures |b| == |t| + 1 && TextAt(b, 0, t)
  {
    b := t + [0];
    assert b[0..|t|] == t;
  }

  lemma {:induction false} WriteTexts(texts: seq<Text>) returns (b: seq<byte>, ps: seq<nat>)
    ensures |b| == Total(texts) && HasTexts(b, 0, texts, ps)
  {
    if texts == [] {
      b, ps := [], [];
    } else {
      var n := |texts| - 1;
      var before, qs := WriteTexts(texts[..n]);
      var last := WriteText(texts[n]);
      b, ps := before + last, qs + [|before|];
      SumLies(before, last);
      TextsMove(b, 0, before, texts[..n], qs);
      TextMoves(b, |before|, last, 0, texts[n]);
      forall i {:trigger ps[i]} | 0 <= i < |ps|
        ensures TextAt(b, ps[i], texts[i])
      {
        if i < n {
          assert ps[i] == qs[i] && texts[i] == texts[..n][i];
        }
      }
    }
  }

  // ---- a table with its texts ----

  ghost predicate TwoWordsAt(o: Order, file: seq<byte>, at: nat, v: nat, w: nat) {
    HasWord(o, file, at, v) && HasWord(o, file, at + 4, w)
  }

  /** The first n slots of a table: the length of each text, and its position from `base` on. */
  ghost predicate HasSlots(o: Order, file: seq<byte>, at: nat, texts: seq<Text>, ps: seq<nat>, base: nat, n: nat)
    requires n <= |ps| == |texts|
  {
    forall i {:trigger ps[i]} :: 0 <= i < n ==> TwoWordsAt(o, file, at + 8 * i, |texts[i]|, base + ps[i])
  }

  /** Text i can be described in 32 bits. */
  predicate SlotInRange(texts: seq<Text>, ps: seq<nat>, base: nat, i: nat)
    requires i < |ps| == |texts|
  {
    |texts[i]| < LIMIT && base + ps[i] < LIMIT
  }

  lemma SlotsMove(
    o: Order, file: seq<byte>, a: nat, x: seq<byte>, texts: seq<Text>, ps: seq<nat>, base: nat, n: nat)
    requires n <= |ps| == |texts| && At(file, a, x) && HasSlots(o, x, 0, texts, ps, base, n)
    ensures HasSlots(o, file, a, texts, ps, base, n)
  {
    forall i {:trigger ps[i]} | 0 <= i < n
      ensures TwoWordsAt(o, file, a + 8 * i, |texts[i]|, base + ps[i])
    {
      assert TwoWordsAt(o, x, 0 + 8 * i, |texts[i]|, base + ps[i]);
      WordMoves(o, file, a, x, 8 * i, |texts[i]|);
      WordMoves(o, file, a, x, 8 * i + 4, base + ps[i]);
    }
  }

  lemma {:induction false} WriteSlots(o: Order, texts: seq<Text>, ps: seq<nat>, base: nat, n: nat) returns (b: seq<byte>)
    requires n <= |ps| == |texts| && forall i :: 0 <= i < |ps| ==> SlotInRange(texts, ps, base, i)
    ensures |b| == 8 * n && HasSlots(o, b, 0, texts, ps, base, n)
  {
    if n == 0 {
      b := [];
    } else {
      var before := WriteSlots(o, texts, ps, base, n - 1);
      assert SlotInRange(texts, ps, base, n - 1);
      var last := WriteWords(o, [|texts[n - 1]|, base + ps[n - 1]]);
      b := before + last;
      SumLies(before, last);
      SlotsMove(o, b, 0, before, texts, ps, base, n - 1);
      WordsMove(o, b, 8 * (n - 1), last, [|texts[n - 1]|, base + ps[n - 1]]);
      TwoWords(o, b, 8 * (n - 1), |texts[n - 1]|, base + ps[n - 1]);
    }
  }

  lemma TwoWords(o: Order, file: seq<byte>, at: nat, v: u32, w: u32)
    requires HasWords(o, file, at, [v, w])
    ensures TwoWordsAt(o, file, at, v, w)
  {
    var ws: seq<u32> := [v, w];
    assert ws[0] == v && ws[1] == w;
  }

  lemma SlotWithText(o: Order, file: seq<byte>, at: nat, i: nat, t: Text, pos: nat)
    requires TwoWordsAt(o, file, at + 8 * i, |t|, pos) && TextAt(file, pos, t)
    ensures SlotHolds(o, file, at, i, t)
  {
  }

  lemma TableWithTexts(o: Order, file: seq<byte>, at: nat, texts: seq<Text>, ps: seq<nat>, base: nat)
    requires |ps| == |texts| && HasSlots(o, file, at, texts, ps, base, |ps|) && HasTexts(file, base, texts, ps)
    ensures TableHolds(o, file, at, texts)
  {
    forall i | 0 <= i < |texts|
      ensures SlotHolds(o, file, at, i, texts[i])
    {
      assert TwoWordsAt(o, file, at + 8 * i, |texts[i]|, base + ps[i]);
      SlotWithText(o, file, at, i, texts[i], base + ps[i]);
    }
  }

  /** The table of texts that have been written already. */
  lemma WriteTable(o: Order, texts: seq<Text>, ps: seq<nat>, blob: seq<byte>, base: nat) returns (table: seq<byte>)
    requires HasTexts(blob, 0, texts, ps) && base + |blob| < LIMIT
    ensures |table| == 8 * |texts| && HasSlots(o, table, 0, texts, ps, base, |ps|)
  {
    forall i | 0 <= i < |ps|
      ensures SlotInRange(texts, ps, base, i)
    {
      assert TextAt(blob, 0 + ps[i], texts[i]);
    }
    table := WriteSlots(o, texts, ps, base, |texts|);
  }

  lemma TableInFile(
    o: Order, file: seq<byte>, at: nat, texts: seq<Text>, ps: seq<nat>, base: nat, table: seq<byte>, blob: seq<byte>)
    requires |ps| == |texts| && HasSlots(o, table, 0, texts, ps, base, |ps|) && HasTexts(blob, 0, texts, ps)
    requires At(file, at, table) && At(file, base, blob)
    ensures TableHolds(o, file, at, texts)
  {
    SlotsMove(o, file, at, table, texts, ps, base, |ps|);
    TextsMove(file, base, blob, texts, ps);
    TableWithTexts(o, file, at, texts, ps, base);
  }

  // ---- a file ----

  /** Magic, revision, number of strings, the two tables, and an empty hash table. */
  lemma WriteHeader(o: Order, n: nat) returns (h: seq<byte>)
    requires TABLES + 16 * n < LIMIT
    ensures |h| == TABLES && HasWord(o, h, 0, MO_MAGIC) && HasWord(o, h, 8, n)
    ensures HasWord(o, h, 12, TABLES) && HasWord(o, h, 16, TABLES + 8 * n)
  {
    var ws: seq<u32> := [MO_MAGIC, 0, n, TABLES, TABLES + 8 * n, 0, TABLES + 16 * n];
    h := WriteWords(o, ws);
    assert ws[0] == MO_MAGIC && ws[2] == n && ws[3] == TABLES && ws[4] == TABLES + 8 * n;
  }

  /** A header of h bytes, two tables of t bytes each, and their texts, one behind the other. */
  lemma Join(a: seq<byte>, b: seq<byte>, c: seq<byte>, d: seq<byte>, e: seq<byte>, h: nat, t: nat) returns (file: seq<byte>)
    requires |a| == h && |b| == t && |c| == t
    ensures |file| == h + 2 * t + |d| + |e|
    ensures At(file, 0, a) && At(file, h, b) && At(file, h + t, c) && At(file, h + 2 * t, d) && At(file, h + 2 * t + |d|, e)
  {
    var x := h + 2 * t;
    var y := x + |d|;
    file := seq(y + |e|, i requires 0 <= i < y + |e| =>
      if i < h then a[i] else if i < h + t then b[i - h] else if i < x then c[i - (h + t)] else if i < y then d[i - x] else e[i - y]);
    assert file[0..h] == a && file[h..h + t] == b && file[h + t..x] == c && file[x..y] == d && file[y..y + |e|] == e;
  }

  /** The size of the file. */
  function Size(orgs: seq<Text>, trans: seq<Text>): nat
    requires |orgs| == |trans|
  {
    TABLES + 16 * |orgs| + Total(orgs) + Total(trans)
  }

  lemma WriteTables(
    o: Order, h: seq<byte>, orgs: seq<Text>, ps: seq<nat>, blob: seq<byte>, trans: seq<Text>, ps': seq<nat>, blob': seq<byte>)
    returns (file: seq<byte>)
    requires |h| == TABLES && |orgs| == |trans| && HasTexts(blob, 0, orgs, ps) && HasTexts(blob', 0, trans, ps')
    requires TABLES + 16 * |orgs| + |blob| + |blob'| < LIMIT
    ensures |file| == TABLES + 16 * |orgs| + |blob| + |blob'| && At(file, 0, h)
    ensures TableHolds(o, file, TABLES, orgs) && TableHolds(o, file, TABLES + 8 * |orgs|, trans)
  {
    var t := 8 * |orgs|;
    var base := TABLES + 2 * t;
    var table := WriteTable(o, orgs, ps, blob, base);
    var table' := WriteTable(o, trans, ps', blob', base + |blob|);
    file := Place(o, h, table, table', orgs, ps, blob, trans, ps', blob', t, base);
  }

  lemma Place(
    o: Order, h: seq<byte>, table: seq<byte>, table': seq<byte>, orgs: seq<Text>, ps: seq<nat>, blob: seq<byte>,
    trans: seq<Text>, ps': seq<nat>, blob': seq<byte>, t: nat, base: nat)
    returns (file: seq<byte>)
    requires |h| == TABLES && |table| == |table'| == t && base == TABLES + 2 * t
    requires HasTexts(blob, 0, orgs, ps) && HasSlots(o, table, 0, orgs, ps, base, |ps|)
    requires HasTexts(blob', 0, trans, ps') && HasSlots(o, table', 0, trans, ps', base + |blob|, |ps'|)
    ensures |file| == base + |blob| + |blob'| && At(file, 0, h)
    ensures TableHolds(o, file, TABLES, orgs) && TableHolds(o, file, TABLES + t, trans)
  {
    file := Join(h, table, table', blob, blob', TABLES, t);
    TableInFile(o, file, TABLES, orgs, ps, base, table, blob);
    TableInFile(o, file, TABLES + t, trans, ps', base + |blob|, table', blob');
  }

  lemma HeaderMoves(o: Order, file: seq<byte>, h: seq<byte>, n: nat)
    requires At(file, 0, h) && TABLES + 8 * n < LIMIT
    requires HasWord(o, h, 0, MO_MAGIC) && HasWord(o, h, 8, n) && HasWord(o, h, 12, TABLES) && HasWord(o, h, 16, TABLES + 8 * n)
    ensures HasWord(o, file, 0, MO_MAGIC) && HasWord(o, file, 8, n)
    ensures HasWord(o, file, 12, TABLES) && HasWord(o, file, 16, TABLES + 8 * n)
  {
    WordMoves(o, file, 0, h, 0, MO_MAGIC);
    WordMoves(o, file, 0, h, 8, n);
    WordMoves(o, file, 0, h, 12, TABLES);
    WordMoves(o, file, 0, h, 16, TABLES + 8 * n);
  }

  lemma WriteFile(o: Order, orgs: seq<Text>, ps: seq<nat>, blob: seq<byte>, trans: seq<Text>, ps': seq<nat>, blob': seq<byte>)
    returns (file: seq<byte>)
    requires |orgs| == |trans| && HasTexts(blob, 0, orgs, ps) && HasTexts(blob', 0, trans, ps')
    requires TABLES + 16 * |orgs| + |blob| + |blob'| < LIMIT
    ensures |file| == TABLES + 16 * |orgs| + |blob| + |blob'|
    ensures HasWord(o, file, 0, MO_MAGIC) && HasWord(o, file, 8, |orgs|)
    ensures HasWord(o, file, 12, TABLES) && HasWord(o, file, 16, TABLES + 8 * |orgs|)
    ensures TableHolds(o, file, TABLES, orgs) && TableHolds(o, file, TABLES + 8 * |orgs|, trans)
  {
    var h := WriteHeader(o, |orgs|);
    file := WriteTables(o, h, orgs, ps, blob, trans, ps', blob');
    HeaderMoves(o, file, h, |orgs|);
  }

  /** Every catalogue whose file stays below 4 GiB has an image in either byte order. */
  lemma CatalogueHasImage(o: Order, cat: seq<Entry>) returns (file: seq<byte>)
    requires Size(Orgs(cat), Translations(cat)) < LIMIT
    ensures IsImage(o, file, cat) && HasWord(o, file, 12, TABLES) && |file| == Size(Orgs(cat), Translations(cat))
  {
    var blob, ps := WriteTexts(Orgs(cat));
    var blob', ps' := WriteTexts(Translations(cat));
    file := WriteFile(o, Orgs(cat), ps, blob, Translations(cat), ps', blob');
  }

  lemma SwappedTables()
    ensures Swap(TABLES) == 0x1C00_0000
  {
  }

  /** In such a file the swapped table offset lies beyond the end, unless it is larger than 448 MiB. */
  lemma SwappedOffsetIsOutside(o: Order, file: seq<byte>)
    requires HasWord(o, file, 12, TABLES) && |file| <= 0x1C00_0000
    ensures Swap(WordAt(o, file, 12).value) + 8 > |file|
  {
    SwappedTables();
  }

  /** So it loads on any machine exactly when the flag is clear or the orders differ. */
  lemma WriteThenLoad(o: Order, host: Order, cat: seq<Entry>, swap0: bool) returns (file: seq<byte>)
    requires Size(Orgs(cat), Translations(cat)) <= 0x1C00_0000 && StorableCatalog(cat) && cat != []
    ensures IsImage(o, file, cat) && (Load(Some(file), host, swap0).status == Ready <==> !swap0 || o != host)
  {
    file := CatalogueHasImage(o, cat);
    SwappedOffsetIsOutside(o, file);
    LoadsIffFlagMatches(o, host, file, cat, swap0);
  }
}
