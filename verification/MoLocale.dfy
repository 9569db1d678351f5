/** The loader and the lookup with their state (src/installer/language.c:308-475). */
module MoLocale {

  import opened Wrappers
  import opened MoWords
  import opened MoCatalog
  import opened MoReading

  class Locale {
    var mustSwap: bool
    var bLocale: bool
    var count: nat
    var stringsOrg: seq<Text>
    var stringsTrans: seq<Text>

    /** When the locale is in use, both tables have an entry for every string. */
    ghost predicate Valid()
      reads this
    {
      bLocale ==> count <= |stringsOrg| && count <= |stringsTrans|
    }

    constructor ()
      ensures Valid() && !mustSwap && !bLocale
    {
      mustSwap, bLocale, count, stringsOrg, stringsTrans := false, false, 0, [], [];
    }

    method ReadSlots(host: Order, file: seq<byte>, at: nat, n: nat) returns (slots: Option<seq<Slot>>)
      ensures slots == Slots(host, mustSwap, file, at, n)
    {
      var found: seq<Slot> := [];
      for i := 0 to n
        invariant Slots(host, mustSwap, file, at, i) == Some(found)
      {
        var len := Field(host, mustSwap, file, at + 8 * i);
        var pos := Field(host, mustSwap, file, at + 8 * i + 4);
        if len.None? || pos.None? {
          SlotsMissing(host, mustSwap, file, at, i, n);
          return None;
        }
        found := found + [Slot(len.value, pos.value)];
      }
      slots := Some(found);
    }

    method FetchStrings(file: seq<byte>, slots: seq<Slot>) returns (strings: Strings)
      ensures strings == FetchAll(file, slots)
    {
      var texts: seq<Text> := [];
      assert slots[..0] == [];
      for i := 0 to |slots|
        invariant FetchAll(file, slots[..i]) == Strings(texts)
      {
        assert slots[..i + 1][..i] == slots[..i];
        var fetched := Fetch(file, slots[i]);
        if !fetched.Got? {
          strings := if fetched.Short? then Cut(texts) else Overrun(texts);
          FetchStops(file, slots, i);
          return;
        }
        texts := texts + [fetched.text];
      }
      assert slots[..|slots|] == slots;
      strings := Strings(texts);
    }

    method ReadTable(host: Order, file: seq<byte>, at: nat, n: nat) returns (strings: Strings)
      ensures strings == ReadStrings(host, mustSwap, file, at, n)
    {
      var slots := ReadSlots(host, file, at, n);
      if slots.None? {
        return Cut([]);
      }
      strings := FetchStrings(file, slots.value);
    }

    /** The part of ipcop_locale behind the checks of the header. */
    method ReadTables(file: seq<byte>, host: Order) returns (status: Status)
      requires |file| >= HEADER
      modifies this
      ensures var o := LoadTables(file, host, mustSwap);
              && status == o.status && count == o.count && mustSwap == old(mustSwap)
              && bLocale == (old(bLocale) || status == Ready)
              && stringsOrg == o.org && stringsTrans == o.trans
    {
      count := Field(host, mustSwap, file, 8).value;
      stringsOrg, stringsTrans := [], [];
      var org := ReadTable(host, file, Field(host, mustSwap, file, 12).value, count);
      stringsOrg := org.texts;
      if !org.Strings? {
        return if org.Cut? then ReadError else Crashed;
      }
      var trans := ReadTable(host, file, Field(host, mustSwap, file, 16).value, count);
      stringsTrans := trans.texts;
      if !trans.Strings? {
        return if trans.Cut? then ReadError else Crashed;
      }
      bLocale := true;
      status := Ready;
    }

    /** The part of ipcop_locale that reads and checks the header. */
    method CheckHeader(file: Option<seq<byte>>, host: Order) returns (stop: Option<Status>)
      modifies this`count, this`mustSwap
      ensures var o := Load(file, host, old(mustSwap));
              match stop
              case Some(status) => status == o.status && !Replaced(status) && count == o.count && mustSwap == o.swap
              case None => file.Some? && |file.value| >= HEADER && o == LoadTables(file.value, host, mustSwap)
    {
      count := 0;
      if file.None? {
        return Some(NoFile);
      }
      count := CountRead(host, file.value);
      if |file.value| < HEADER {
        return Some(NoHeader);
      }
      var magic := WordAt(host, file.value, 0).value;
      if magic == MO_MAGIC {
      } else if magic == MO_MAGIC_SWAPPED {
        mustSwap := true;
      } else {
        return Some(BadMagic);
      }
      if count == 0 {
        return Some(Empty);
      }
      stop := None;
    }

    method IpcopLocale(file: Option<seq<byte>>, host: Order) returns (status: Status)
      modifies this
      ensures var o := Load(file, host, old(mustSwap));
              && status == o.status && mustSwap == o.swap && count == o.count
              && bLocale == (old(bLocale) || status == Ready)
              && (Replaced(status) ==> stringsOrg == o.org && stringsTrans == o.trans)
              && (!Replaced(status) ==> stringsOrg == old(stringsOrg) && stringsTrans == old(stringsTrans))
      ensures Valid() <==> SafeLoad(old(bLocale), file, host, old(mustSwap), |old(stringsOrg)|, |old(stringsTrans)|)
    {
      var stop := CheckHeader(file, host);
      if stop.Some? {
        status := stop.value;
      } else {
        status := ReadTables(file.value, host);
      }
      StateIsSafeIff(old(bLocale), file, host, old(mustSwap), |old(stringsOrg)|, |old(stringsTrans)|,
                     bLocale, count, |stringsOrg|, |stringsTrans|);
    }

    method IpcopGettext(text: Text) returns (r: Text)
      requires Valid()
      ensures r == if bLocale then Translate(stringsOrg[..count], stringsTrans[..count], text) else text
    {
      if !bLocale {
        return text;
      }
      ghost var org, trans := stringsOrg[..count], stringsTrans[..count];
      for i := 0 to count
        invariant Translate(org[i..], trans[i..], text) == Translate(org, trans, text)
      {
        assert org[i..][1..] == org[i + 1..] && trans[i..][1..] == trans[i + 1..];
        if stringsOrg[i] == text {
          return stringsTrans[i];
        }
      }
      r := text;
    }
  }
}
