/** Files in the MO format, and what the loader of src/installer/language.c:315-475 makes of them. */
module MoImage {

  import opened Wrappers
  import opened MoWords
  import opened MoCatalog
  import opened MoReading
  import opened MoLocale

  datatype Entry = Entry(org: Text, trans: Text)

  function Orgs(cat: seq<Entry>): (r: seq<Text>)
    ensures |r| == |cat| && forall i :: 0 <= i < |r| ==> r[i] == cat[i].org
  {
    seq(|cat|, i requires 0 <= i < |cat| => cat[i].org)
  }

  function Translations(cat: seq<Entry>): (r: seq<Text>)
    ensures |r| == |cat| && forall i :: 0 <= i < |r| ==> r[i] == cat[i].trans
  {
    seq(|cat|, i requires 0 <= i < |cat| => cat[i].trans)
  }

  /** A text that the loader can hold: no zero byte, and with its end within the buffer. */
  ghost predicate Storable(t: Text) {
    |t| < 4096 && forall i :: 0 <= i < |t| ==> t[i] != 0
  }

  /** Slot i of the table at `at` leads to the text, followed by a zero byte. */
  ghost predicate SlotHolds(o: Order, file: seq<byte>, at: nat, i: nat, t: Text) {
    && HasWord(o, file, at + 8 * i, |t|)
    && WordAt(o, file, at + 8 * i + 4).Some?
    && var pos := WordAt(o, file, at + 8 * i + 4).value;
       pos + |t| < |file| && file[pos..pos + |t|] == t && file[pos + |t|] == 0
  }

  ghost predicate TableHolds(o: Order, file: seq<byte>, at: nat, texts: seq<Text>) {
    forall i :: 0 <= i < |texts| ==> SlotHolds(o, file, at, i, texts[i])
  }

  /** The file is an image of the catalogue, in this byte order; where its tables and texts lie is
      left open. */
  ghost predicate IsImage(o: Order, file: seq<byte>, cat: seq<Entry>) {
    && |file| >= 20
    && HasWord(o, file, 0, 0x950412de) && HasWord(o, file, 8, |cat|)
    && TableHolds(o, file, WordAt(o, file, 12).value, Orgs(cat))
    && TableHolds(o, file, WordAt(o, file, 16).value, Translations(cat))
  }

  ghost predicate StorableCatalog(cat: seq<Entry>) {
    forall i :: 0 <= i < |cat| ==> Storable(cat[i].org) && Storable(cat[i].trans)
  }

  // ---- reading an image ----

  lemma FetchText(file: seq<byte>, pos: u32, t: Text)
    requires Storable(t) && pos + |t| < |file| && file[pos..pos + |t|] == t && file[pos + |t|] == 0
    ensures Fetch(file, Slot(|t|, pos)) == Got(t)
  {
    var s := file[pos..pos + |t|];
    assert forall i :: 0 <= i < |t| ==> s[i] == file[pos + i];
    TextIsFetchedIff(file, Slot(|t|, pos), t);
  }

  lemma {:induction false} FetchEach(file: seq<byte>, slots: seq<Slot>, texts: seq<Text>)
    requires |slots| == |texts| && forall i :: 0 <= i < |slots| ==> Fetch(file, slots[i]) == Got(texts[i])
    ensures FetchAll(file, slots) == Strings(texts)
  {
    if slots != [] {
      var n := |slots| - 1;
      FetchEach(file, slots[..n], texts[..n]);
      assert texts == texts[..n] + [texts[n]];
    }
  }

  lemma HeldSlotIsFetched(o: Order, file: seq<byte>, at: nat, n: nat, i: nat, t: Text)
    requires Storable(t) && SlotHolds(o, file, at, i, t) && i < n && SlotsIn(o, file, at, n).Some?
    ensures Fetch(file, SlotsIn(o, file, at, n).value[i]) == Got(t)
  {
    SlotsAt(o, file, at, n, i);
    FetchText(file, WordAt(o, file, at + 8 * i + 4).value, t);
  }

  lemma ReadHeldTable(o: Order, host: Order, file: seq<byte>, at: nat, texts: seq<Text>)
    requires TableHolds(o, file, at, texts) && forall i :: 0 <= i < |texts| ==> Storable(texts[i])
    ensures ReadStrings(host, o != host, file, at, |texts|) == Strings(texts)
  {
    var n := |texts|;
    SlotsReadOrder(o, host, file, at, n);
    forall i | 0 <= i < n
      ensures HasSlot(o, file, at, i)
    {
      assert SlotHolds(o, file, at, i, texts[i]);
    }
    SlotsExistIff(o, file, at, n);
    var slots := SlotsIn(o, file, at, n).value;
    forall i | 0 <= i < n
      ensures Fetch(file, slots[i]) == Got(texts[i])
    {
      HeldSlotIsFetched(o, file, at, n, i, texts[i]);
    }
    FetchEach(file, slots, texts);
  }

  lemma HostReadsMagic(o: Order, host: Order, file: seq<byte>)
    requires HasWord(o, file, 0, MO_MAGIC)
    ensures WordAt(host, file, 0) == Some(if o == host then MO_MAGIC else MO_MAGIC_SWAPPED)
  {
    if o != host {
      SwapJoin(o, file[0], file[1], file[2], file[3]);
      SwappedMagic();
    }
  }

  /** An image in either byte order loads into the catalogue itself, unless a file in the other order
      was loaded before one in the order of the machine. */
  lemma ImageLoads(o: Order, host: Order, file: seq<byte>, cat: seq<Entry>, swap0: bool)
    requires IsImage(o, file, cat) && StorableCatalog(cat) && cat != []
    requires swap0 ==> o != host
    ensures Load(Some(file), host, swap0) == Outcome(Ready, o != host, |cat|, Orgs(cat), Translations(cat))
  {
    HostReadsMagic(o, host, file);
    HostReadsCount(o, host, file);
    FieldReadsWord(o, host, file, 8);
    FieldReadsWord(o, host, file, 12);
    FieldReadsWord(o, host, file, 16);
    ReadHeldTable(o, host, file, WordAt(o, file, 12).value, Orgs(cat));
    ReadHeldTable(o, host, file, WordAt(o, file, 16).value, Translations(cat));
  }

  /** The two images of a catalogue load into identical tables. */
  lemma BothOrdersLoadAlike(host: Order, native: seq<byte>, swapped: seq<byte>, cat: seq<Entry>)
    requires IsImage(host, native, cat) && IsImage(Other(host), swapped, cat) && StorableCatalog(cat) && cat != []
    ensures var a, b := Load(Some(native), host, false), Load(Some(swapped), host, false);
            a.status == b.status == Ready && a.org == b.org == Orgs(cat) && a.trans == b.trans == Translations(cat)
  {
    ImageLoads(host, host, native, cat, false);
    ImageLoads(Other(host), host, swapped, cat, false);
  }

  // ---- images and the flag ----

  /** The flag is never cleared: once a swapped file was loaded, a file in the order of the machine is
      misread.  It fails to load whenever its swapped table offset lies beyond its end. */
  lemma StaleSwapFails(host: Order, file: seq<byte>, cat: seq<Entry>)
    requires IsImage(host, file, cat) && cat != []
    requires Swap(WordAt(host, file, 12).value) + 8 > |file|
    ensures Load(Some(file), host, true).status == ReadError
  {
    HostReadsCount(Other(host), host, file);
    var at, n := Field(host, true, file, 12).value, Field(host, true, file, 8).value;
    SwapJoin(host, file[8], file[9], file[10], file[11]);
    assert n != 0;
    SlotsMissing(host, true, file, at, 0, n);
  }

  /** An image whose swapped table offset lies beyond its end loads exactly when the flag is clear or the
      file is in the other order. */
  lemma LoadsIffFlagMatches(o: Order, host: Order, file: seq<byte>, cat: seq<Entry>, swap0: bool)
    requires IsImage(o, file, cat) && StorableCatalog(cat) && cat != []
    requires Swap(WordAt(o, file, 12).value) + 8 > |file|
    ensures Load(Some(file), host, swap0).status == Ready <==> !swap0 || o != host
  {
    if !swap0 || o != host {
      ImageLoads(o, host, file, cat, swap0);
    } else {
      StaleSwapFails(host, file, cat);
    }
  }

  // ---- lookup ----

  /** The meaning of a catalogue: the translation of its first entry for a text, or else the text. */
  function Lookup(cat: seq<Entry>, text: Text): Text {
    if cat == [] then text else if cat[0].org == text then cat[0].trans else Lookup(cat[1..], text)
  }

  lemma {:induction false} TranslateIsLookup(cat: seq<Entry>, text: Text)
    ensures Translate(Orgs(cat), Translations(cat), text) == Lookup(cat, text)
  {
    if cat != [] {
      assert Orgs(cat)[1..] == Orgs(cat[1..]) && Translations(cat)[1..] == Translations(cat[1..]);
      TranslateIsLookup(cat[1..], text);
    }
  }

  /** A fresh start: load an image in either order, then translate. */
  method LoadAndTranslate(o: Order, host: Order, file: seq<byte>, ghost cat: seq<Entry>, text: Text) returns (r: Text)
    requires IsImage(o, file, cat) && StorableCatalog(cat)
    ensures r == Lookup(cat, text)
  {
    var locale := new Locale();
    var status := locale.IpcopLocale(Some(file), host);
    if cat == [] {
      HostReadsMagic(o, host, file);
      HostReadsCount(o, host, file);
    } else {
      ImageLoads(o, host, file, cat, false);
    }
    assert cat != [] ==> locale.stringsOrg[..locale.count] == Orgs(cat) && locale.stringsTrans[..locale.count] == Translations(cat);
    r := locale.IpcopGettext(text);
    TranslateIsLookup(cat, text);
  }
}
