/** What one call of probecard does to the fields of every card (src/installer/networking.c:121-269), for
    any table, directory and answers. */
module NetCalls {

  import opened Wrappers
  import opened NetTable
  import opened NetMatch
  import opened Positions

  // ---- the devices that a call looks at ----

  /** A network device that no card has. */
  predicate Shown(cards: seq<Card>, name: string) {
    && name !in {"lo", ".", ".."}
    && !(|name| >= 3 && name[..3] == "tun")
    && !(|name| >= 7 && name[..7] == "wmaster")
    && forall i :: 0 <= i < |cards| && cards[i].device != "" ==> cards[i].device != name
  }

  function IsShown(cards: seq<Card>): string -> bool {
    (name: string) => Shown(cards, name)
  }

  /** Where the directory shows such devices. */
  function ShownAt(cards: seq<Card>, names: seq<string>): (p: seq<nat>)
    ensures ArePlaces(p, names, IsShown(cards), 0)
  {
    Places(names, IsShown(cards))
  }

  /** The entries at these places, in this order. */
  ghost predicate AreAt(found: seq<string>, names: seq<string>, p: seq<nat>) {
    |found| == |p| && forall j :: 0 <= j < |p| ==> p[j] < |names| && found[j] == names[p[j]]
  }

  lemma ShownIsKept(cards: seq<Card>, name: string)
    ensures Shown(cards, name) <==> !Hidden(name) && !Listed(cards, name)
  {
    assert "tun" <= name <==> |name| >= 3 && name[..3] == "tun";
    assert "wmaster" <= name <==> |name| >= 7 && name[..7] == "wmaster";
  }

  lemma AreAtOneMore(found: seq<string>, names: seq<string>, p: seq<nat>, i: nat)
    requires AreAt(found, names, p) && i < |names|
    ensures AreAt([names[i]] + found, names, [i] + p)
  {
  }

  lemma {:induction false} ScanFromAt(cards: seq<Card>, names: seq<string>, i: nat)
    requires i <= |names|
    ensures AreAt(Scan(cards, names[i..]), names, PlacesFrom(names, IsShown(cards), i))
    decreases |names| - i
  {
    if i < |names| {
      var later, p := Scan(cards, names[i + 1..]), PlacesFrom(names, IsShown(cards), i + 1);
      ScanFromAt(cards, names, i + 1);
      PlacesAre(names, IsShown(cards), i + 1);
      ScanStep(cards, names, i);
      ShownIsKept(cards, names[i]);
      AreAtOneMore(later, names, p, i);
      assert [] + later == later;
    }
  }

  /** The devices found are those shown, in the order of the directory. */
  lemma ScanIsShown(cards: seq<Card>, names: seq<string>)
    ensures AreAt(Scan(cards, names), names, ShownAt(cards, names))
  {
    ScanFromAt(cards, names, 0);
    assert names[0..] == names;
  }

  lemma FoundIffShown(cards: seq<Card>, names: seq<string>)
    ensures Scan(cards, names) != [] <==> exists i :: 0 <= i < |names| && Shown(cards, names[i])
  {
    var p := ShownAt(cards, names);
    ScanIsShown(cards, names);
    if i :| 0 <= i < |names| && Shown(cards, names[i]) {
      assert i in p;
    }
    if p != [] {
      assert Shown(cards, names[p[0]]);
    }
  }

  lemma NothingToFill(cards: seq<Card>, k: nat, driver: string, sys: Sysfs)
    requires k <= |cards|
    ensures FillByDriver(cards, k, driver, [], sys) == (cards, [])
  {
  }

  /** The result tells whether the module could be loaded, if there is one, and a new device was found; if
      not, nothing changes. */
  lemma ResultOfCall(cards: seq<Card>, c: Call)
    ensures ProbeResult(cards, c)
         == if (c.driver.None? || c.loads) && exists i :: 0 <= i < |c.names| && Shown(cards, c.names[i]) then 0 else 1
    ensures ProbeResult(cards, c) == 1 ==> Probe(cards, c) == cards
  {
    FoundIffShown(cards, c.names);
    if c.driver.Some? {
      NothingToFill(cards, 0, c.driver.value, c.sys);
    }
  }

  // ---- a module was loaded ----

  function IsSlotOf(driver: string): Card -> bool {
    (card: Card) => card.device == "" && card.driver == driver
  }

  /** The slots of a module: its cards without a device. */
  function SlotsOf(cards: seq<Card>, driver: string): (s: seq<nat>)
    ensures ArePlaces(s, cards, IsSlotOf(driver), 0)
  {
    Places(cards, IsSlotOf(driver))
  }

  function Served(card: Card, name: string, sys: Sysfs): Card {
    Card(card.driver, card.options, name, card.description, card.colour, sys(name).mac, card.vendorid, card.modelid)
  }

  /** The first m slots of s have been given the first m devices, and nothing else has changed. */
  ghost predicate Given(cards: seq<Card>, filled: seq<Card>, s: seq<nat>, found: seq<string>, m: nat, sys: Sysfs) {
    && |filled| == |cards| && m <= |s| && m <= |found|
    && (forall j :: 0 <= j < m ==> s[j] < |cards| && filled[s[j]] == Served(cards[s[j]], found[j], sys))
    && (forall k :: 0 <= k < |cards| && k !in s[..m] ==> filled[k] == cards[k])
  }

  function Least(a: nat, b: nat): nat {
    if a < b then a else b
  }

  /** From position k on, the slots of the module take the devices found, both in order. */
  ghost predicate FillsInOrder(cards: seq<Card>, k: nat, driver: string, found: seq<string>, sys: Sysfs)
    requires k <= |cards|
  {
    var s := PlacesFrom(cards, IsSlotOf(driver), k);
    var m := Least(|s|, |found|);
    var (filled, rest) := FillByDriver(cards, k, driver, found, sys);
    Given(cards, filled, s, found, m, sys) && rest == found[m..]
  }

  lemma {:induction false} FillIsInOrder(cards: seq<Card>, k: nat, driver: string, found: seq<string>, sys: Sysfs)
    requires k <= |cards|
    ensures FillsInOrder(cards, k, driver, found, sys)
    decreases |cards| - k
  {
    if k < |cards| && found != [] {
      if cards[k].device == "" && cards[k].driver == driver {
        FillIsInOrder(cards[k := Served(cards[k], found[0], sys)], k + 1, driver, found[1..], sys);
        TakenSlot(cards, k, driver, found, sys);
      } else {
        FillIsInOrder(cards, k + 1, driver, found, sys);
        PassedCard(cards, k, driver, found, sys);
      }
    } else {
      NothingLeft(cards, k, driver, found, sys);
    }
  }

  lemma NothingLeft(cards: seq<Card>, k: nat, driver: string, found: seq<string>, sys: Sysfs)
    requires k <= |cards| && (k == |cards| || found == [])
    ensures FillsInOrder(cards, k, driver, found, sys)
  {
    var s := PlacesFrom(cards, IsSlotOf(driver), k);
    assert s[..0] == [] && found[0..] == found;
    assert Least(|s|, |found|) == 0;
  }

  lemma PassedCard(cards: seq<Card>, k: nat, driver: string, found: seq<string>, sys: Sysfs)
    requires k < |cards| && found != [] && !(cards[k].device == "" && cards[k].driver == driver)
    requires FillsInOrder(cards, k + 1, driver, found, sys)
    ensures FillsInOrder(cards, k, driver, found, sys)
  {
    assert PlacesFrom(cards, IsSlotOf(driver), k) == PlacesFrom(cards, IsSlotOf(driver), k + 1);
    assert FillByDriver(cards, k, driver, found, sys) == FillByDriver(cards, k + 1, driver, found, sys);
  }

  lemma TakenSlot(cards: seq<Card>, k: nat, driver: string, found: seq<string>, sys: Sysfs)
    requires k < |cards| && found != [] && cards[k].device == "" && cards[k].driver == driver
    requires FillsInOrder(cards[k := Served(cards[k], found[0], sys)], k + 1, driver, found[1..], sys)
    ensures FillsInOrder(cards, k, driver, found, sys)
  {
    var cards' := cards[k := Served(cards[k], found[0], sys)];
    var later := PlacesFrom(cards, IsSlotOf(driver), k + 1);
    var m := Least(|later|, |found| - 1);
    PlacesAre(cards, IsSlotOf(driver), k + 1);
    SamePlaces(cards, cards', IsSlotOf(driver), k + 1);
    OneSlotMore(cards, cards', FillByDriver(cards', k + 1, driver, found[1..], sys).0, k, later, found, m, sys);
    DropTwice(found, m);
  }

  lemma DropTwice(found: seq<string>, m: nat)
    requires m < |found|
    ensures found[1..][m..] == found[m + 1..]
  {
  }

  lemma OneSlotMore(
    cards: seq<Card>, cards': seq<Card>, filled: seq<Card>, k: nat, later: seq<nat>, found: seq<string>, m: nat, sys: Sysfs)
    requires k < |cards| && found != [] && cards' == cards[k := Served(cards[k], found[0], sys)] && k !in later
    requires Given(cards', filled, later, found[1..], m, sys)
    ensures Given(cards, filled, [k] + later, found, m + 1, sys)
  {
    var s := [k] + later;
    assert s[..m + 1] == [k] + later[..m];
    assert k !in later[..m];
    forall j | 0 <= j < m + 1
      ensures s[j] < |cards| && filled[s[j]] == Served(cards[s[j]], found[j], sys)
    {
      if j > 0 {
        assert s[j] == later[j - 1] && found[j] == found[1..][j - 1];
        assert later[j - 1] in later;
      }
    }
  }

  lemma {:induction false} AppendedCards(
    cards: seq<Card>, driver: string, options: string, description: string, found: seq<string>, sys: Sysfs)
    ensures var r := AppendAll(cards, driver, options, description, found, sys);
            && |r| == |cards| + |found|
            && (forall k :: 0 <= k < |cards| ==> r[k] == cards[k])
            && (forall i :: 0 <= i < |found| ==>
                  r[|cards| + i] == Card(driver, options, found[i], description, NoColour, sys(found[i]).mac, "", ""))
    decreases |found|
  {
    if found != [] {
      var one := cards + [Card(driver, options, found[0], description, NoColour, sys(found[0]).mac, "", "")];
      AppendedCards(one, driver, options, description, found[1..], sys);
      var r := AppendAll(one, driver, options, description, found[1..], sys);
      assert forall i :: 0 < i < |found| ==> r[|cards| + i] == r[|one| + (i - 1)] && found[i] == found[1..][i - 1];
      assert r[|cards|] == one[|cards|];
    }
  }

  function NewOf(c: Call, name: string): Card
    requires c.driver.Some? && c.description.Some?
  {
    Card(c.driver.value, c.options, name, c.description.value, NoColour, c.sys(name).mac, "", "")
  }

  /** With slots s and devices shown at p: the slots take the devices, both in order; then every device
      that is left over becomes a card of the module, again in order, if there is a description for it.
      No other card changes. */
  ghost predicate Loads(cards: seq<Card>, r: seq<Card>, c: Call, s: seq<nat>, p: seq<nat>)
    requires c.driver.Some?
  {
    var m := Least(|s|, |p|);
    && |r| == |cards| + (if c.description.Some? then |p| - m else 0)
    && (forall j :: 0 <= j < m ==> s[j] < |cards| && p[j] < |c.names| && r[s[j]] == Served(cards[s[j]], c.names[p[j]], c.sys))
    && (forall k :: 0 <= k < |cards| && k !in s[..m] ==> r[k] == cards[k])
    && (c.description.Some? ==>
          forall j :: m <= j < |p| ==> p[j] < |c.names| && r[|cards| - m + j] == NewOf(c, c.names[p[j]]))
  }

  lemma LoadedCall(cards: seq<Card>, c: Call)
    requires c.driver.Some? && c.loads
    ensures Loads(cards, Probe(cards, c), c, SlotsOf(cards, c.driver.value), ShownAt(cards, c.names))
  {
    var s, p := SlotsOf(cards, c.driver.value), ShownAt(cards, c.names);
    var found, filled, rest := LoadedSteps(cards, c, s, p);
    SlotsAreServed(cards, filled, Probe(cards, c), c, s, p, found);
    if c.description.Some? {
      LeftoversAreNew(cards, Probe(cards, c), c, p, found, Least(|s|, |p|));
    }
  }

  lemma LoadedSteps(cards: seq<Card>, c: Call, s: seq<nat>, p: seq<nat>)
    returns (found: seq<string>, filled: seq<Card>, rest: seq<string>)
    requires c.driver.Some? && c.loads && s == SlotsOf(cards, c.driver.value) && p == ShownAt(cards, c.names)
    ensures var m := Least(|s|, |p|);
            && AreAt(found, c.names, p) && Given(cards, filled, s, found, m, c.sys) && rest == found[m..]
            && var r := Probe(cards, c);
               && |r| == |cards| + (if c.description.Some? then |rest| else 0)
               && (forall k :: 0 <= k < |cards| ==> r[k] == filled[k])
               && (c.description.Some? ==> forall i :: 0 <= i < |rest| ==> r[|cards| + i] == NewOf(c, rest[i]))
  {
    found := Scan(cards, c.names);
    ScanIsShown(cards, c.names);
    FillIsInOrder(cards, 0, c.driver.value, found, c.sys);
    filled, rest := ProbeFillsAndAppends(cards, c, found);
  }

  lemma ProbeFillsAndAppends(cards: seq<Card>, c: Call, found: seq<string>) returns (filled: seq<Card>, rest: seq<string>)
    requires c.driver.Some? && c.loads && found == Scan(cards, c.names)
    ensures FillByDriver(cards, 0, c.driver.value, found, c.sys) == (filled, rest)
    ensures var r := Probe(cards, c);
            && |r| == |cards| + (if c.description.Some? then |rest| else 0)
            && (forall k :: 0 <= k < |cards| ==> r[k] == filled[k])
            && (c.description.Some? ==> forall i :: 0 <= i < |rest| ==> r[|cards| + i] == NewOf(c, rest[i]))
  {
    var both := FillByDriver(cards, 0, c.driver.value, found, c.sys);
    filled, rest := both.0, both.1;
    if c.description.Some? {
      AppendedCards(filled, c.driver.value, c.options, c.description.value, rest, c.sys);
    }
  }

  lemma SlotsAreServed(cards: seq<Card>, filled: seq<Card>, r: seq<Card>, c: Call, s: seq<nat>, p: seq<nat>, found: seq<string>)
    requires |cards| <= |r| && AreAt(found, c.names, p) && Given(cards, filled, s, found, Least(|s|, |p|), c.sys)
    requires forall k :: 0 <= k < |cards| ==> r[k] == filled[k]
    ensures var m := Least(|s|, |p|);
            && (forall j :: 0 <= j < m ==>
                  s[j] < |cards| && p[j] < |c.names| && r[s[j]] == Served(cards[s[j]], c.names[p[j]], c.sys))
            && (forall k :: 0 <= k < |cards| && k !in s[..m] ==> r[k] == cards[k])
  {
  }

  lemma LeftoversAreNew(cards: seq<Card>, r: seq<Card>, c: Call, p: seq<nat>, found: seq<string>, m: nat)
    requires c.driver.Some? && c.description.Some? && AreAt(found, c.names, p) && m <= |p| && |r| == |cards| + |p| - m
    requires forall i :: 0 <= i < |found[m..]| ==> r[|cards| + i] == NewOf(c, found[m..][i])
    ensures forall j :: m <= j < |p| ==> p[j] < |c.names| && r[|cards| - m + j] == NewOf(c, c.names[p[j]])
  {
    forall j | m <= j < |p|
      ensures r[|cards| - m + j] == NewOf(c, c.names[p[j]])
    {
      assert found[m..][j - m] == found[j] && |cards| + (j - m) == |cards| - m + j;
    }
  }

  // ---- nothing was loaded ----

  predicate EmptyWithIds(card: Card, info: Info) {
    && card.device == ""
    && info.vendorid != "" && info.modelid != ""
    && card.vendorid == info.vendorid && card.modelid == info.modelid
  }

  predicate EmptyWithModule(card: Card, info: Info) {
    card.device == "" && info.driver != "" && card.driver == info.driver
  }

  /** The first card of the table that passes the test has been given the device. */
  ghost predicate FirstIsServed(before: seq<Card>, after: seq<Card>, test: Card -> bool, name: string, sys: Sysfs) {
    exists k :: 0 <= k < |before| && test(before[k]) && (forall i :: 0 <= i < k ==> !test(before[i]))
                && after == before[k := Served(before[k], name, sys)]
  }

  ghost predicate Exists(cards: seq<Card>, test: Card -> bool) {
    exists k :: 0 <= k < |cards| && test(cards[k])
  }

  /** One device: it goes to the first empty card with its ids, else to the first empty card of its
      module, else nowhere. */
  ghost predicate Assigns(before: seq<Card>, after: seq<Card>, name: string, sys: Sysfs) {
    var byIds := (card: Card) => EmptyWithIds(card, sys(name));
    var byModule := (card: Card) => EmptyWithModule(card, sys(name));
    if Exists(before, byIds) then FirstIsServed(before, after, byIds, name, sys)
    else if Exists(before, byModule) then FirstIsServed(before, after, byModule, name, sys)
    else after == before
  }

  lemma SlotIsFirst(cards: seq<Card>, test: Test, t: Card -> bool, name: string, sys: Sysfs)
    requires forall i :: 0 <= i < |cards| ==> (t(cards[i]) <==> Takes(cards[i], test))
    ensures var k := Slot(cards, test, 0);
            && (k < |cards| <==> Exists(cards, t))
            && (k < |cards| ==> FirstIsServed(cards, cards[k := Served(cards[k], name, sys)], t, name, sys))
  {
  }

  lemma MatchAssigns(cards: seq<Card>, name: string, sys: Sysfs)
    ensures Assigns(cards, MatchOne(cards, name, sys(name)), name, sys)
  {
    var info := sys(name);
    SlotIsFirst(cards, ByIds(info.vendorid, info.modelid), (card: Card) => EmptyWithIds(card, info), name, sys);
    if info.driver != "" {
      SlotIsFirst(cards, ByDriver(info.driver), (card: Card) => EmptyWithModule(card, info), name, sys);
    }
  }

  /** The tables that one device after the other leaves behind. */
  ghost predicate AssignsInTurn(tables: seq<seq<Card>>, found: seq<string>, sys: Sysfs) {
    |tables| == |found| + 1 && forall j :: 0 <= j < |found| ==> Assigns(tables[j], tables[j + 1], found[j], sys)
  }

  lemma {:induction false} MatchAllInTurn(cards: seq<Card>, found: seq<string>, sys: Sysfs) returns (tables: seq<seq<Card>>)
    ensures AssignsInTurn(tables, found, sys) && tables[0] == cards && tables[|found|] == MatchAll(cards, found, sys)
    decreases |found|
  {
    if found == [] {
      tables := [cards];
    } else {
      MatchAssigns(cards, found[0], sys);
      var later := MatchAllInTurn(MatchOne(cards, found[0], sys(found[0])), found[1..], sys);
      tables := [cards] + later;
      forall j | 0 <= j < |found|
        ensures Assigns(tables[j], tables[j + 1], found[j], sys)
      {
        assert j > 0 ==> tables[j] == later[j - 1] && found[j] == found[1..][j - 1];
        assert tables[j + 1] == later[j];
      }
    }
  }

  /** Without a module, the devices shown are assigned in the order of the directory, each against the
      table that the earlier ones have left. */
  lemma ScannedCall(cards: seq<Card>, c: Call) returns (tables: seq<seq<Card>>)
    requires c.driver.None?
    ensures var p := ShownAt(cards, c.names);
            && |tables| == |p| + 1 && tables[0] == cards && tables[|p|] == Probe(cards, c)
            && forall j :: 0 <= j < |p| ==> Assigns(tables[j], tables[j + 1], c.names[p[j]], c.sys)
  {
    ScanIsShown(cards, c.names);
    tables := MatchAllInTurn(cards, Scan(cards, c.names), c.sys);
  }

  // ---- addresses ----

  /** The card has its device from the directory, and with it the address that sysfs gives. */
  ghost predicate ComesFrom(card: Card, cards: seq<Card>, c: Call) {
    && card.address == c.sys(card.device).mac
    && exists i :: 0 <= i < |c.names| && Shown(cards, c.names[i]) && c.names[i] == card.device
  }

  lemma ComesFromPlace(card: Card, cards: seq<Card>, c: Call, j: nat)
    requires j < |ShownAt(cards, c.names)| && card.address == c.sys(card.device).mac
    requires card.device == c.names[ShownAt(cards, c.names)[j]]
    ensures ComesFrom(card, cards, c)
  {
    var p := ShownAt(cards, c.names);
    assert Shown(cards, c.names[p[j]]);
  }

  lemma SlotComesFrom(cards: seq<Card>, c: Call, k: nat)
    requires c.driver.Some? && c.loads && k < |cards| && cards[k].device == "" && Probe(cards, c)[k].device != ""
    ensures ComesFrom(Probe(cards, c)[k], cards, c)
  {
    var s, p := SlotsOf(cards, c.driver.value), ShownAt(cards, c.names);
    LoadedCall(cards, c);
    assert k in s[..Least(|s|, |p|)];
    var j :| 0 <= j < Least(|s|, |p|) && s[j] == k;
    ComesFromPlace(Probe(cards, c)[k], cards, c, j);
  }

  lemma NewCardComesFrom(cards: seq<Card>, c: Call, k: nat)
    requires c.driver.Some? && c.loads && |cards| <= k < |Probe(cards, c)|
    ensures ComesFrom(Probe(cards, c)[k], cards, c)
  {
    var s, p := SlotsOf(cards, c.driver.value), ShownAt(cards, c.names);
    LoadedCall(cards, c);
    var j := k - |cards| + Least(|s|, |p|);
    assert Probe(cards, c)[k] == NewOf(c, c.names[p[j]]);
    ComesFromPlace(Probe(cards, c)[k], cards, c, j);
  }

  /** Whatever is probed: a card that has come to its device by this call has it from the directory, with
      the address that sysfs gives for it. */
  lemma DevicesComeWithAddress(cards: seq<Card>, c: Call, k: nat)
    requires k < |Probe(cards, c)| && Probe(cards, c)[k].device != "" && (k < |cards| ==> cards[k].device == "")
    ensures ComesFrom(Probe(cards, c)[k], cards, c)
  {
    if c.driver.None? {
      ProbeIsJustified(cards, c, k);
      ScanIsShown(cards, c.names);
      var j :| 0 <= j < |Scan(cards, c.names)| && Scan(cards, c.names)[j] == Probe(cards, c)[k].device;
      ComesFromPlace(Probe(cards, c)[k], cards, c, j);
    } else if k < |cards| {
      SlotComesFrom(cards, c, k);
    } else {
      NewCardComesFrom(cards, c, k);
    }
  }
}
