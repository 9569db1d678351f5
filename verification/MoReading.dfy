/** Exactly which files the loader of src/installer/language.c:326-443 can read, and when a further load
    leaves lookups safe. */
module MoReading {

  import opened Wrappers
  import opened MoWords
  import opened MoCatalog

  /** The word at a position of a file written in this order. */
  ghost predicate HasWord(o: Order, file: seq<byte>, at: nat, w: nat) {
    WordAt(o, file, at) == Some(w)
  }

  // ---- what the loader reads, in terms of the byte order ----

  /** Swapping just when the orders differ reads the file as it was written. */
  lemma FieldReadsWord(o: Order, host: Order, file: seq<byte>, at: nat)
    ensures Field(host, o != host, file, at) == WordAt(o, file, at)
  {
    if at + 4 <= |file| && o != host {
      SwapJoin(host, file[at], file[at + 1], file[at + 2], file[at + 3]);
    }
  }

  /** The slots of a table in a file written in this order. */
  function SlotsIn(o: Order, file: seq<byte>, at: nat, n: nat): (r: Option<seq<Slot>>)
    ensures r.Some? ==> |r.value| == n
  {
    if n == 0 then Some([])
    else
      var before := SlotsIn(o, file, at, n - 1);
      var len, pos := WordAt(o, file, at + 8 * (n - 1)), WordAt(o, file, at + 8 * (n - 1) + 4);
      if before.None? || len.None? || pos.None? then None else Some(before.value + [Slot(len.value, pos.value)])
  }

  lemma {:induction false} SlotsReadOrder(o: Order, host: Order, file: seq<byte>, at: nat, n: nat)
    ensures Slots(host, o != host, file, at, n) == SlotsIn(o, file, at, n)
  {
    if n != 0 {
      SlotsReadOrder(o, host, file, at, n - 1);
      FieldReadsWord(o, host, file, at + 8 * (n - 1));
      FieldReadsWord(o, host, file, at + 8 * (n - 1) + 4);
    }
  }

  ghost predicate HasSlot(o: Order, file: seq<byte>, at: nat, i: nat) {
    WordAt(o, file, at + 8 * i).Some? && WordAt(o, file, at + 8 * i + 4).Some?
  }

  lemma {:induction false} SlotsExistIff(o: Order, file: seq<byte>, at: nat, n: nat)
    ensures SlotsIn(o, file, at, n).Some? <==> forall i :: 0 <= i < n ==> HasSlot(o, file, at, i)
  {
    if n != 0 {
      SlotsExistIff(o, file, at, n - 1);
      assert HasSlot(o, file, at, n - 1) || !HasSlot(o, file, at, n - 1);
    }
  }

  lemma {:induction false} SlotsAt(o: Order, file: seq<byte>, at: nat, n: nat, i: nat)
    requires SlotsIn(o, file, at, n).Some? && i < n
    ensures HasSlot(o, file, at, i)
    ensures SlotsIn(o, file, at, n).value[i]
         == Slot(WordAt(o, file, at + 8 * i).value, WordAt(o, file, at + 8 * i + 4).value)
  {
    if i < n - 1 {
      SlotsAt(o, file, at, n - 1, i);
    }
  }

  /** No order of the bytes matters for zero. */
  lemma HostReadsCount(o: Order, host: Order, file: seq<byte>)
    requires |file| >= HEADER
    ensures CountRead(host, file) == WordAt(host, file, 8).value
    ensures CountRead(host, file) == 0 <==> WordAt(o, file, 8) == Some(0)
  {
  }

  // ---- exactly which files load ----

  /** All n strings of the table at `at` can be read, in this byte order. */
  ghost predicate TableReadable(o: Order, file: seq<byte>, at: nat, n: nat) {
    forall i :: 0 <= i < n ==> SlotReadable(o, file, at, i)
  }

  ghost predicate SlotReadable(o: Order, file: seq<byte>, at: nat, i: nat) {
    HasSlot(o, file, at, i)
    && Fetch(file, Slot(WordAt(o, file, at + 8 * i).value, WordAt(o, file, at + 8 * i + 4).value)).Got?
  }

  lemma {:induction false} FetchAllIff(file: seq<byte>, slots: seq<Slot>)
    ensures FetchAll(file, slots).Strings? <==> forall i :: 0 <= i < |slots| ==> Fetch(file, slots[i]).Got?
  {
    if slots != [] {
      FetchAllIff(file, slots[..|slots| - 1]);
    }
  }

  lemma ReadStringsIff(o: Order, host: Order, file: seq<byte>, at: nat, n: nat)
    ensures ReadStrings(host, o != host, file, at, n).Strings? <==> TableReadable(o, file, at, n)
  {
    SlotsReadOrder(o, host, file, at, n);
    SlotsExistIff(o, file, at, n);
    if SlotsIn(o, file, at, n).Some? {
      var slots := SlotsIn(o, file, at, n).value;
      FetchAllIff(file, slots);
      forall i | 0 <= i < n
        ensures Fetch(file, slots[i]).Got? <==> SlotReadable(o, file, at, i)
      {
        SlotsAt(o, file, at, n, i);
      }
    } else {
      var i :| 0 <= i < n && !HasSlot(o, file, at, i);
      assert !SlotReadable(o, file, at, i);
    }
  }

  lemma UpToZeroIs(s: seq<byte>, t: Text)
    requires |t| < |s| && s[|t|] == 0 && forall i :: 0 <= i < |t| ==> t[i] == s[i] && t[i] != 0
    ensures UpToZero(s) == t
  {
    var u := UpToZero(s);
    assert |u| == |t|;
  }

  /** How many bytes are read for a string, with its end. */
  function Wanted(slot: Slot): nat {
    if slot.len == 0xFFFF_FFFF then 0 else slot.len + 1
  }

  function Available(file: seq<byte>, slot: Slot): nat {
    if slot.pos <= |file| then |file| - slot.pos else 0
  }

  /** A text is read exactly if at most 4096 bytes are wanted, the file has them, and the text is what stands
      there before the first zero byte. */
  lemma TextIsFetchedIff(file: seq<byte>, slot: Slot, t: Text)
    ensures Fetch(file, slot) == Got(t)
       <==> && |t| < Wanted(slot) <= 4096 && slot.pos + Wanted(slot) <= |file|
            && file[slot.pos + |t|] == 0 && forall i :: 0 <= i < |t| ==> t[i] == file[slot.pos + i] && t[i] != 0
  {
    var n := Wanted(slot);
    assert n == (slot.len + 1) % 0x1_0000_0000;
    if n <= 4096 && slot.pos + n <= |file| {
      var s := file[slot.pos..slot.pos + n];
      assert forall i :: 0 <= i < n ==> s[i] == file[slot.pos + i];
      if |t| < n && file[slot.pos + |t|] == 0 && forall i :: 0 <= i < |t| ==> t[i] == file[slot.pos + i] && t[i] != 0 {
        UpToZeroIs(s, t);
      }
    }
  }

  /** The file cuts it short if it has fewer bytes than wanted, unless these overrun the buffer first. */
  lemma TextIsShortIff(file: seq<byte>, slot: Slot)
    ensures Fetch(file, slot) == Short
       <==> Available(file, slot) < Wanted(slot) && (Wanted(slot) <= 4096 || Available(file, slot) <= 4096)
  {
    assert Wanted(slot) == (slot.len + 1) % 0x1_0000_0000;
  }

  /** Position j is that of the first string that cannot be read. */
  ghost predicate IsFirstUnread(file: seq<byte>, slots: seq<Slot>, j: nat) {
    && j <= |slots| && (forall i :: 0 <= i < j ==> Fetch(file, slots[i]).Got?)
    && (j < |slots| ==> !Fetch(file, slots[j]).Got?)
  }

  /** Of a table the strings in front of the first that cannot be read are there, and the result tells
      whether the file cuts that one short or it overruns the buffer. */
  lemma {:induction false} FetchedUpTo(file: seq<byte>, slots: seq<Slot>, j: nat)
    requires IsFirstUnread(file, slots, j)
    ensures var r := FetchAll(file, slots);
            && |r.texts| == j && (forall i :: 0 <= i < j ==> Fetch(file, slots[i]) == Got(r.texts[i]))
            && (r.Strings? <==> j == |slots|)
            && (r.Cut? <==> j < |slots| && Fetch(file, slots[j]).Short?)
  {
    if slots != [] {
      var before := slots[..|slots| - 1];
      FetchedUpTo(file, before, if j == |slots| then j - 1 else j);
    }
  }

  /** What a load leaves behind, for every file: why it ended, the flag, which a swapped magic number sets, the
      count, in the byte order used, and the tables at the two offsets. */
  lemma LoadExactly(file: seq<byte>, host: Order, swap0: bool)
    ensures var r := Load(Some(file), host, swap0);
            && (r.swap <==> swap0 || (|file| >= 20 && WordAt(host, file, 0) == Some(0xde120495)))
            && (r.status == NoHeader <==> |file| < 20)
            && (r.status == BadMagic <==> |file| >= 20 && !HasMagic(host, file))
            && (r.status == Empty <==> HasMagic(host, file) && CountRead(host, file) == 0)
            && (!HasMagic(host, file) ==> r.count == CountRead(host, file))
            && (r.status == Empty ==> r.count == 0)
            && (HasMagic(host, file) && CountRead(host, file) != 0 ==> AreTablesOf(r, file, host, OrderUsed(host, file, swap0)))
  {
    if HasMagic(host, file) && CountRead(host, file) != 0 {
      HostReadsCount(host, host, file);
      FieldReadsWord(OrderUsed(host, file, swap0), host, file, 8);
      FieldReadsWord(OrderUsed(host, file, swap0), host, file, 12);
      FieldReadsWord(OrderUsed(host, file, swap0), host, file, 16);
    }
  }

  /** The originals come from the first offset, and the translations, if all originals were read, from the
      second; a table cut short ends the load, and one that overruns the buffer the program. */
  ghost predicate AreTablesOf(r: Outcome, file: seq<byte>, host: Order, o: Order)
    requires |file| >= 20
  {
    var n := WordAt(o, file, 8).value;
    var org := ReadStrings(host, o != host, file, WordAt(o, file, 12).value, n);
    var trans := ReadStrings(host, o != host, file, WordAt(o, file, 16).value, n);
    && r.count == n && r.org == org.texts && r.trans == (if org.Strings? then trans.texts else [])
    && (r.status == Ready <==> org.Strings? && trans.Strings?)
    && (r.status == ReadError <==> org.Cut? || (org.Strings? && trans.Cut?))
    && (r.status == Crashed <==> org.Overrun? || (org.Strings? && trans.Overrun?))
  }

  /** The byte order that the loader reads a file in: that of the machine, unless the magic number is
      swapped or the flag is still set from an earlier load. */
  function OrderUsed(host: Order, file: seq<byte>, swap0: bool): Order {
    if swap0 || WordAt(host, file, 0) == Some(MO_MAGIC_SWAPPED) then Other(host) else host
  }

  /** All strings can be read, in the order used. */
  ghost predicate TablesReadable(host: Order, file: seq<byte>, swap0: bool)
    requires |file| >= HEADER
  {
    var o := OrderUsed(host, file, swap0);
    && TableReadable(o, file, WordAt(o, file, 12).value, WordAt(o, file, 8).value)
    && TableReadable(o, file, WordAt(o, file, 16).value, WordAt(o, file, 8).value)
  }

  lemma TablesLoadIff(o: Order, host: Order, file: seq<byte>)
    requires |file| >= HEADER
    ensures LoadTables(file, host, o != host).status == Ready
       <==> && TableReadable(o, file, WordAt(o, file, 12).value, WordAt(o, file, 8).value)
            && TableReadable(o, file, WordAt(o, file, 16).value, WordAt(o, file, 8).value)
    ensures var r := LoadTables(file, host, o != host); r.status == Ready <==> |r.org| >= r.count && |r.trans| >= r.count
  {
    FieldReadsWord(o, host, file, 8);
    FieldReadsWord(o, host, file, 12);
    FieldReadsWord(o, host, file, 16);
    ReadStringsIff(o, host, file, WordAt(o, file, 12).value, WordAt(o, file, 8).value);
    ReadStringsIff(o, host, file, WordAt(o, file, 16).value, WordAt(o, file, 8).value);
  }

  /** A whole header with the magic number, in either order. */
  predicate HasMagic(host: Order, file: seq<byte>) {
    |file| >= 20 && (WordAt(host, file, 0) == Some(0x950412de) || WordAt(host, file, 0) == Some(0xde120495))
  }

  /** A file with a header loads exactly when it has the magic number in either order, some strings, and
      two tables whose strings can all be read in the order used.  In particular a file in the order of
      the machine, read while the flag is set, loads only if it happens to be readable the other way round. */
  lemma LoadsIffReadable(file: seq<byte>, host: Order, swap0: bool)
    requires |file| >= HEADER
    ensures var r := Load(Some(file), host, swap0);
            && (r.status == Ready <==> HasMagic(host, file) && CountRead(host, file) != 0 && TablesReadable(host, file, swap0))
            && (Replaced(r.status) ==> (r.status == Ready <==> |r.org| >= r.count && |r.trans| >= r.count))
  {
    HostReadsCount(host, host, file);
    TablesLoadIff(OrderUsed(host, file, swap0), host, file);
  }

  // ---- after which loads lookups are safe ----

  /** In use, the tables have an entry for every string, if a load with this outcome follows the state
      with tables of these lengths. */
  predicate SafeAfter(inUse: bool, o: Outcome, orgs: nat, translations: nat) {
    inUse || o.status == Ready ==>
      && o.count <= (if Replaced(o.status) then |o.org| else orgs)
      && o.count <= (if Replaced(o.status) then |o.trans| else translations)
  }

  /** The files that can be loaded over tables of these lengths: without the magic number, those whose
      count word is not above them; with it, those without strings and those that can be read. */
  ghost predicate SafeFile(file: seq<byte>, host: Order, swap0: bool, orgs: nat, translations: nat) {
    if HasMagic(host, file) then CountRead(host, file) == 0 || TablesReadable(host, file, swap0)
    else CountRead(host, file) <= orgs && CountRead(host, file) <= translations
  }

  /** Lookups are safe after a load if no catalogue was in use, there is no file, or the file can be loaded
      over the tables in use. */
  ghost predicate SafeLoad(inUse: bool, file: Option<seq<byte>>, host: Order, swap0: bool, orgs: nat, translations: nat) {
    !inUse || file.None? || SafeFile(file.value, host, swap0, orgs, translations)
  }

  lemma FileIsSafeIff(file: seq<byte>, host: Order, swap0: bool, orgs: nat, translations: nat)
    ensures SafeAfter(true, Load(Some(file), host, swap0), orgs, translations) <==> SafeFile(file, host, swap0, orgs, translations)
  {
    if HasMagic(host, file) {
      LoadsIffReadable(file, host, swap0);
    }
  }

  lemma FirstLoadIsSafe(file: seq<byte>, host: Order, swap0: bool, orgs: nat, translations: nat)
    ensures SafeAfter(false, Load(Some(file), host, swap0), orgs, translations)
  {
    if HasMagic(host, file) {
      LoadsIffReadable(file, host, swap0);
    }
  }

  /** A load leaves lookups safe on this condition and no other. */
  lemma LoadIsSafeIff(inUse: bool, file: Option<seq<byte>>, host: Order, swap0: bool, orgs: nat, translations: nat)
    ensures SafeAfter(inUse, Load(file, host, swap0), orgs, translations)
       <==> SafeLoad(inUse, file, host, swap0, orgs, translations)
  {
    if file.Some? {
      if inUse {
        FileIsSafeIff(file.value, host, swap0, orgs, translations);
      } else {
        FirstLoadIsSafe(file.value, host, swap0, orgs, translations);
      }
    }
  }

  lemma StateIsSafeIff(
    inUse: bool, file: Option<seq<byte>>, host: Order, swap0: bool, orgs: nat, translations: nat,
    inUse': bool, count: nat, orgs': nat, translations': nat)
    requires var o := Load(file, host, swap0);
             && inUse' == (inUse || o.status == Ready) && count == o.count
             && orgs' == (if Replaced(o.status) then |o.org| else orgs)
             && translations' == (if Replaced(o.status) then |o.trans| else translations)
    ensures (inUse' ==> count <= orgs' && count <= translations') <==> SafeLoad(inUse, file, host, swap0, orgs, translations)
  {
    LoadIsSafeIff(inUse, file, host, swap0, orgs, translations);
  }

  /** Twenty bytes without the magic number, read while a catalogue of one entry is in use, make the next
      lookup run beyond its tables. */
  lemma BadMagicBreaksLookup(host: Order, swap0: bool)
    ensures Load(Some(seq(20, _ => 1)), host, swap0).status == BadMagic
    ensures !SafeAfter(true, Load(Some(seq(20, _ => 1)), host, swap0), 1, 1)
  {
    LoadIsSafeIff(true, Some(seq(20, _ => 1)), host, swap0, 1, 1);
  }
}
