/** What loading a message catalogue and looking texts up yields (src/installer/language.c:315-475).  The
    format is that of the GNU gettext manual, section "The Format of GNU MO Files". */
module MoCatalog {

  import opened Wrappers
  import opened MoWords

  type Text = seq<byte>

  const BUFFER: nat := 4096
  const HEADER: nat := 20

  // ---- what the loader reads ----

  function WordAt(o: Order, file: seq<byte>, at: nat): Option<u32> {
    if at + 4 <= |file| then Some(Join(o, file[at], file[at + 1], file[at + 2], file[at + 3])) else None
  }

  /** mo_swap of a word read in the order of the machine. */
  function Field(host: Order, swap: bool, file: seq<byte>, at: nat): Option<u32> {
    match WordAt(host, file, at)
    case None => None
    case Some(w) => Some(if swap then Swap(w) else w)
  }

  datatype Slot = Slot(len: u32, pos: u32)

  /** The first n length and position pairs of a table, if the file is long enough. */
  function Slots(host: Order, swap: bool, file: seq<byte>, at: nat, n: nat): (r: Option<seq<Slot>>)
    ensures r.Some? ==> |r.value| == n
  {
    if n == 0 then Some([])
    else
      var before := Slots(host, swap, file, at, n - 1);
      var len, pos := Field(host, swap, file, at + 8 * (n - 1)), Field(host, swap, file, at + 8 * (n - 1) + 4);
      if before.None? || len.None? || pos.None? then None else Some(before.value + [Slot(len.value, pos.value)])
  }

  /** One string: it may be cut short by the end of the file; it may not fit the buffer, or have no end
      there, and then the behaviour of the program is undefined. */
  datatype Fetched = Got(text: Text) | Short | Undefined

  function UpToZero(s: seq<byte>): (t: Text)
    ensures t <= s && (forall i :: 0 <= i < |t| ==> t[i] != 0)
    ensures |t| < |s| ==> s[|t|] == 0
  {
    if s == [] || s[0] == 0 then [] else [s[0]] + UpToZero(s[1..])
  }

  function Fetch(file: seq<byte>, slot: Slot): Fetched {
    var want := (slot.len + 1) % 0x1_0000_0000;
    var there := if slot.pos <= |file| then |file| - slot.pos else 0;
    if want > BUFFER && there > BUFFER then Undefined
    else if there < want then Short
    else if slot.pos > |file| then Undefined
    else
      var text := UpToZero(file[slot.pos..slot.pos + want]);
      if |text| == want then Undefined else Got(text)
  }

  /** The strings of a table: all of them, or those in front of the first that cannot be read. */
  datatype Strings = Strings(texts: seq<Text>) | Cut(texts: seq<Text>) | Overrun(texts: seq<Text>)

  function FetchAll(file: seq<byte>, slots: seq<Slot>): (r: Strings)
    ensures if r.Strings? then |r.texts| == |slots| else |r.texts| < |slots|
  {
    if slots == [] then Strings([])
    else
      var before := FetchAll(file, slots[..|slots| - 1]);
      if !before.Strings? then before
      else match Fetch(file, slots[|slots| - 1])
        case Got(text) => Strings(before.texts + [text])
        case Short => Cut(before.texts)
        case Undefined => Overrun(before.texts)
  }

  /** A whole table: first its slots, then its strings. */
  function ReadStrings(host: Order, swap: bool, file: seq<byte>, at: nat, n: nat): (r: Strings)
    ensures r.Strings? ==> |r.texts| == n
    ensures !r.Strings? ==> n > 0 && |r.texts| < n
  {
    match Slots(host, swap, file, at, n)
    case None => Cut([])
    case Some(slots) => FetchAll(file, slots)
  }

  datatype Status = NoFile | NoHeader | BadMagic | Empty | ReadError | Crashed | Ready

  /** What a load leaves behind.  The tables are arrays of `count` strings, of which those listed have
      been filled in; the others are null. */
  datatype Outcome = Outcome(status: Status, swap: bool, count: nat, org: seq<Text>, trans: seq<Text>)

  function LoadTables(file: seq<byte>, host: Order, swap: bool): Outcome
    requires |file| >= HEADER
  {
    var count := Field(host, swap, file, 8).value;
    var org := ReadStrings(host, swap, file, Field(host, swap, file, 12).value, count);
    if !org.Strings? then Outcome(if org.Cut? then ReadError else Crashed, swap, count, org.texts, [])
    else
      var trans := ReadStrings(host, swap, file, Field(host, swap, file, 16).value, count);
      if !trans.Strings? then Outcome(if trans.Cut? then ReadError else Crashed, swap, count, org.texts, trans.texts)
      else Outcome(Ready, swap, count, org.texts, trans.texts)
  }

  /** The load got as far as replacing the tables. */
  predicate Replaced(status: Status) {
    status == ReadError || status == Crashed || status == Ready
  }

  function ByteAt(file: seq<byte>, at: nat): byte {
    if at < |file| then file[at] else 0
  }

  /** The count as it stands once the header has been read.  A header that is cut short leaves the bytes
      that are there, as the C library stores them, over a zero. */
  function CountRead(host: Order, file: seq<byte>): u32 {
    Join(host, ByteAt(file, 8), ByteAt(file, 9), ByteAt(file, 10), ByteAt(file, 11))
  }

  function Load(file: Option<seq<byte>>, host: Order, swap0: bool): Outcome {
    if file.None? then Outcome(NoFile, swap0, 0, [], [])
    else if |file.value| < HEADER then Outcome(NoHeader, swap0, CountRead(host, file.value), [], [])
    else
      var magic := WordAt(host, file.value, 0).value;
      var swap := swap0 || magic == MO_MAGIC_SWAPPED;
      if magic != MO_MAGIC && magic != MO_MAGIC_SWAPPED then
        Outcome(BadMagic, swap0, CountRead(host, file.value), [], [])
      else if CountRead(host, file.value) == 0 then Outcome(Empty, swap, 0, [], [])
      else LoadTables(file.value, host, swap)
  }

  /** The translation of the first entry with this text, or the text itself. */
  function Translate(org: seq<Text>, trans: seq<Text>, text: Text): Text
    requires |org| == |trans|
  {
    if org == [] then text
    else if org[0] == text then trans[0]
    else Translate(org[1..], trans[1..], text)
  }

  lemma {:induction false} SlotsMissing(host: Order, swap: bool, file: seq<byte>, at: nat, i: nat, n: nat)
    requires i < n
    requires Field(host, swap, file, at + 8 * i) == None || Field(host, swap, file, at + 8 * i + 4) == None
    ensures Slots(host, swap, file, at, n) == None
  {
    if i < n - 1 {
      SlotsMissing(host, swap, file, at, i, n - 1);
    }
  }

  lemma {:induction false} FetchStops(file: seq<byte>, slots: seq<Slot>, i: nat)
    requires i < |slots| && FetchAll(file, slots[..i]).Strings? && !Fetch(file, slots[i]).Got?
    ensures var got := FetchAll(file, slots[..i]).texts;
            FetchAll(file, slots) == if Fetch(file, slots[i]).Short? then Cut(got) else Overrun(got)
  {
    if i < |slots| - 1 {
      assert slots[..|slots| - 1][..i] == slots[..i];
      FetchStops(file, slots[..|slots| - 1], i);
    } else {
      assert slots[..|slots| - 1] == slots[..i];
    }
  }
}
