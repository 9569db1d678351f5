/** Matching network devices to detected hardware (src/installer/networking.c:116-269).

    The functions below say what one call does to the table of cards; the class further down
    updates the table in place, slot by slot, as the source does. */
module NetTable {

  import opened Sequences
  import opened Wrappers

  datatype Colour = Green | Red | Blue | Orange | NoColour

  datatype Card = Card(
    driver: string, options: string, device: string, description: string,
    colour: Colour, address: string, vendorid: string, modelid: string)

  /** What sysfs tells about a device: its kernel module, its vendor and device ids, its MAC address. */
  datatype Info = Info(driver: string, vendorid: string, modelid: string, mac: string)

  type Sysfs = string -> Info

  /** Devices that filternet never lists. */
  predicate Hidden(name: string) {
    name == "lo" || name == "." || name == ".." || "tun" <= name || "wmaster" <= name
  }

  predicate Listed(cards: seq<Card>, name: string) {
    exists i :: 0 <= i < |cards| && cards[i].device != "" && cards[i].device == name
  }

  function Scan(cards: seq<Card>, names: seq<string>): seq<string> {
    if names == [] then []
    else (if Hidden(names[0]) || Listed(cards, names[0]) then [] else [names[0]]) + Scan(cards, names[1..])
  }

  lemma ScanStep(cards: seq<Card>, names: seq<string>, i: nat)
    requires i < |names|
    ensures Scan(cards, names[i..])
         == (if Hidden(names[i]) || Listed(cards, names[i]) then [] else [names[i]]) + Scan(cards, names[i + 1..])
  {
    assert names[i..][1..] == names[i + 1..];
  }

  lemma KeptSoFar(cards: seq<Card>, names: seq<string>, i: nat, found: seq<string>)
    requires i < |names| && found + Scan(cards, names[i..]) == Scan(cards, names)
    ensures if Hidden(names[i]) || Listed(cards, names[i]) then found + Scan(cards, names[i + 1..]) == Scan(cards, names)
            else found + [names[i]] + Scan(cards, names[i + 1..]) == Scan(cards, names)
  {
    ScanStep(cards, names, i);
    var rest := Scan(cards, names[i + 1..]);
    assert [] + rest == rest;
    Associative(found, [names[i]], rest);
  }

  // ---- one device looks for a slot ----

  datatype Test = ByIds(vendorid: string, modelid: string) | ByDriver(driver: string)

  /** An empty slot whose hardware answers to the test. */
  predicate Takes(card: Card, test: Test) {
    && card.device == ""
    && match test
       case ByIds(v, m) => v != "" && m != "" && card.vendorid == v && card.modelid == m
       case ByDriver(d) => card.driver == d
  }

  /** The first slot from k on that passes, or the length of the table. */
  function Slot(cards: seq<Card>, test: Test, k: nat): (s: nat)
    requires k <= |cards|
    ensures k <= s <= |cards|
    ensures s < |cards| ==> Takes(cards[s], test)
    ensures forall i :: k <= i < s ==> !Takes(cards[i], test)
    decreases |cards| - k
  {
    if k == |cards| || Takes(cards[k], test) then k else Slot(cards, test, k + 1)
  }

  function Fill(card: Card, name: string, info: Info): Card {
    card.(device := name, address := info.mac)
  }

  function MatchOne(cards: seq<Card>, name: string, info: Info): (r: seq<Card>)
    ensures |r| == |cards|
  {
    var byIds := Slot(cards, ByIds(info.vendorid, info.modelid), 0);
    var byDriver := Slot(cards, ByDriver(info.driver), 0);
    if byIds < |cards| then cards[byIds := Fill(cards[byIds], name, info)]
    else if info.driver != "" && byDriver < |cards| then cards[byDriver := Fill(cards[byDriver], name, info)]
    else cards
  }

  function MatchAll(cards: seq<Card>, found: seq<string>, sys: Sysfs): (r: seq<Card>)
    ensures |r| == |cards|
    decreases |found|
  {
    if found == [] then cards else MatchAll(MatchOne(cards, found[0], sys(found[0])), found[1..], sys)
  }

  // ---- a probed module takes the new devices ----

  function FillByDriver(cards: seq<Card>, i: nat, driver: string, found: seq<string>, sys: Sysfs): (r: (seq<Card>, seq<string>))
    requires i <= |cards|
    ensures |r.0| == |cards|
    decreases |cards| - i
  {
    if i == |cards| || found == [] then (cards, found)
    else if Takes(cards[i], ByDriver(driver)) then
      FillByDriver(cards[i := Fill(cards[i], found[0], sys(found[0]))], i + 1, driver, found[1..], sys)
    else FillByDriver(cards, i + 1, driver, found, sys)
  }

  function NewCard(driver: string, options: string, description: string, name: string, info: Info): Card {
    Card(driver, options, name, description, NoColour, info.mac, "", "")
  }

  function AppendAll(cards: seq<Card>, driver: string, options: string, description: string, found: seq<string>, sys: Sysfs)
    : (r: seq<Card>)
    ensures |r| == |cards| + |found|
    decreases |found|
  {
    if found == [] then cards
    else AppendAll(cards + [NewCard(driver, options, description, found[0], sys(found[0]))],
                   driver, options, description, found[1..], sys)
  }

  // ---- one call ----

  /** A call of probecard together with what the system answers: whether modprobe succeeds, what
      the directory then lists, and what sysfs says about each device. */
  datatype Call = Call(
    driver: Option<string>, description: Option<string>, options: string,
    loads: bool, names: seq<string>, sys: Sysfs)

  function Probe(cards: seq<Card>, c: Call): (r: seq<Card>)
    ensures |cards| <= |r|
  {
    var found := Scan(cards, c.names);
    if c.driver.Some? && !c.loads then cards
    else if c.driver.None? then MatchAll(cards, found, c.sys)
    else
      var (filled, rest) := FillByDriver(cards, 0, c.driver.value, found, c.sys);
      if c.description.Some? then AppendAll(filled, c.driver.value, c.options, c.description.value, rest, c.sys) else filled
  }

  const SUCCESS: int := 0
  const FAILURE: int := 1

  function ProbeResult(cards: seq<Card>, c: Call): int {
    if (c.driver.Some? && !c.loads) || Scan(cards, c.names) == [] then FAILURE else SUCCESS
  }

  class Table {
    var networks: seq<Card>

    constructor ()
      ensures networks == []
    {
      networks := [];
    }

    method FilterNet(name: string) returns (keep: bool)
      ensures keep <==> !Hidden(name) && !Listed(networks, name)
    {
      if Hidden(name) {
        return false;
      }
      for i := 0 to |networks|
        invariant !Listed(networks[..i], name)
      {
        if networks[i].device != "" && name == networks[i].device {
          return false;
        }
      }
      assert networks[..|networks|] == networks;
      keep := true;
    }

    method ScanDir(names: seq<string>) returns (found: seq<string>)
      ensures found == Scan(networks, names)
    {
      found := [];
      for i := 0 to |names|
        invariant found + Scan(networks, names[i..]) == Scan(networks, names)
      {
        KeptSoFar(networks, names, i, found);
        var keep := FilterNet(names[i]);
        if keep {
          found := found + [names[i]];
        }
      }
      assert names[|names|..] == [] && found + [] == found;
    }

    method FindSlot(test: Test) returns (k: nat)
      ensures k == Slot(networks, test, 0)
    {
      k := 0;
      while k < |networks| && !Takes(networks[k], test)
        invariant k <= |networks| && Slot(networks, test, 0) == Slot(networks, test, k)
      {
        k := k + 1;
      }
    }

    /** The two searches for one device: by vendor and device id, then by kernel module. */
    method MatchDevice(name: string, info: Info) returns (hit: bool)
      modifies this
      ensures networks == MatchOne(old(networks), name, info)
    {
      if info.vendorid != "" && info.modelid != "" {
        var k := FindSlot(ByIds(info.vendorid, info.modelid));
        if k < |networks| {
          networks := networks[k := Fill(networks[k], name, info)];
          return true;
        }
      }
      if info.driver == "" {
        return false;
      }
      var k := FindSlot(ByDriver(info.driver));
      hit := k < |networks|;
      if hit {
        networks := networks[k := Fill(networks[k], name, info)];
      }
    }

    /** Nothing was probed: every new device looks for its card. */
    method AssignScanned(found: seq<string>, sys: Sysfs)
      modifies this
      ensures networks == MatchAll(old(networks), found, sys)
    {
      for i := 0 to |found|
        invariant MatchAll(networks, found[i..], sys) == MatchAll(old(networks), found, sys)
      {
        assert found[i..][1..] == found[i + 1..];
        var hit := MatchDevice(found[i], sys(found[i]));
      }
    }

    /** A module was probed: its empty slots take the new devices in order. */
    method AssignLoaded(driver: string, found: seq<string>, sys: Sysfs) returns (j: nat)
      modifies this
      ensures j <= |found| && (networks, found[j..]) == FillByDriver(old(networks), 0, driver, found, sys)
    {
      j := 0;
      var i := 0;
      while i < |networks| && j < |found|
        invariant 0 <= i <= |networks| && 0 <= j <= |found|
        invariant FillByDriver(networks, i, driver, found[j..], sys) == FillByDriver(old(networks), 0, driver, found, sys)
        decreases |networks| - i
      {
        if networks[i].device == "" && driver == networks[i].driver {
          assert found[j..][1..] == found[j + 1..];
          networks := networks[i := Fill(networks[i], found[j], sys(found[j]))];
          j := j + 1;
        }
        i := i + 1;
      }
    }

    method AppendCards(driver: string, options: string, description: string, found: seq<string>, from: nat, sys: Sysfs)
      requires from <= |found|
      modifies this
      ensures networks == AppendAll(old(networks), driver, options, description, found[from..], sys)
    {
      var j := from;
      while j < |found|
        invariant from <= j <= |found|
        invariant AppendAll(networks, driver, options, description, found[j..], sys)
               == AppendAll(old(networks), driver, options, description, found[from..], sys)
      {
        assert found[j..][1..] == found[j + 1..];
        networks := networks + [NewCard(driver, options, description, found[j], sys(found[j]))];
        j := j + 1;
      }
    }

    method ProbeCard(c: Call) returns (rc: int)
      modifies this
      ensures networks == Probe(old(networks), c) && rc == ProbeResult(old(networks), c)
    {
      if c.driver.Some? && !c.loads {
        return FAILURE;
      }
      var found := ScanDir(c.names);
      if found == [] {
        return FAILURE;
      }
      if c.driver.None? {
        AssignScanned(found, c.sys);
      } else {
        var j := AssignLoaded(c.driver.value, found, c.sys);
        if c.description.Some? {
          AppendCards(c.driver.value, c.options, c.description.value, found, j, c.sys);
        }
      }
      rc := SUCCESS;
    }
  }

  // ---- what every call keeps ----

  /** No device serves two cards, and hidden devices serve none. */
  ghost predicate Sound(cards: seq<Card>) {
    && (forall i :: 0 <= i < |cards| && cards[i].device != "" ==> !Hidden(cards[i].device))
    && (forall i, j :: 0 <= i < j < |cards| && cards[i].device != "" ==> cards[i].device != cards[j].device)
  }

  ghost predicate Distinct(names: seq<string>) {
    forall i, j :: 0 <= i < j < |names| ==> names[i] != names[j]
  }

  /** Devices that may still be given to a slot. */
  ghost predicate Free(cards: seq<Card>, found: seq<string>) {
    && Distinct(found)
    && forall i :: 0 <= i < |found| ==> !Hidden(found[i]) && !Listed(cards, found[i])
  }

  /** The table only grows, filled slots stay as they are, and an empty slot changes at most its
      device and address. */
  ghost predicate Grows(cards: seq<Card>, cards': seq<Card>) {
    && |cards| <= |cards'|
    && forall k :: 0 <= k < |cards| ==>
         && (cards[k].device != "" ==> cards'[k] == cards[k])
         && cards'[k] == cards[k].(device := cards'[k].device, address := cards'[k].address)
  }

  lemma {:induction false} ScanIsFree(cards: seq<Card>, names: seq<string>)
    requires Distinct(names)
    ensures Free(cards, Scan(cards, names))
    ensures forall n :: n in Scan(cards, names) <==> n in names && !Hidden(n) && !Listed(cards, n)
  {
    if names != [] {
      ScanIsFree(cards, names[1..]);
    }
  }

  lemma ListedAfterFill(cards: seq<Card>, k: nat, name: string, info: Info, other: string)
    requires k < |cards| && cards[k].device == ""
    ensures Listed(cards[k := Fill(cards[k], name, info)], other) <==> Listed(cards, other) || (other == name && name != "")
  {
    var cards' := cards[k := Fill(cards[k], name, info)];
    if Listed(cards, other) {
      var i :| 0 <= i < |cards| && cards[i].device != "" && cards[i].device == other;
      assert cards'[i] == cards[i];
    }
    if other == name && name != "" {
      assert cards'[k].device == other;
    }
  }

  /** Giving a free device to an empty slot. */
  lemma FillKeeps(cards: seq<Card>, k: nat, found: seq<string>, info: Info)
    requires Sound(cards) && k < |cards| && cards[k].device == "" && found != [] && Free(cards, found)
    ensures Sound(cards[k := Fill(cards[k], found[0], info)])
    ensures Free(cards[k := Fill(cards[k], found[0], info)], found[1..])
  {
    forall i | 0 <= i < |found[1..]|
      ensures !Listed(cards[k := Fill(cards[k], found[0], info)], found[1..][i])
    {
      ListedAfterFill(cards, k, found[0], info, found[1..][i]);
    }
  }

  lemma MatchOneKeeps(cards: seq<Card>, found: seq<string>, info: Info)
    requires Sound(cards) && found != [] && Free(cards, found)
    ensures Sound(MatchOne(cards, found[0], info)) && Free(MatchOne(cards, found[0], info), found[1..])
  {
    var byIds := Slot(cards, ByIds(info.vendorid, info.modelid), 0);
    var byDriver := Slot(cards, ByDriver(info.driver), 0);
    if byIds < |cards| {
      FillKeeps(cards, byIds, found, info);
    } else if info.driver != "" && byDriver < |cards| {
      FillKeeps(cards, byDriver, found, info);
    }
  }

  lemma {:induction false} MatchAllKeeps(cards: seq<Card>, found: seq<string>, sys: Sysfs)
    requires Sound(cards) && Free(cards, found)
    ensures Sound(MatchAll(cards, found, sys))
    decreases |found|
  {
    if found != [] {
      MatchOneKeeps(cards, found, sys(found[0]));
      MatchAllKeeps(MatchOne(cards, found[0], sys(found[0])), found[1..], sys);
    }
  }

  lemma {:induction false} FillByDriverKeeps(cards: seq<Card>, i: nat, driver: string, found: seq<string>, sys: Sysfs)
    requires i <= |cards| && Sound(cards) && Free(cards, found)
    ensures var (filled, rest) := FillByDriver(cards, i, driver, found, sys); Sound(filled) && Free(filled, rest)
    decreases |cards| - i
  {
    if i < |cards| && found != [] {
      if Takes(cards[i], ByDriver(driver)) {
        FillKeeps(cards, i, found, sys(found[0]));
        FillByDriverKeeps(cards[i := Fill(cards[i], found[0], sys(found[0]))], i + 1, driver, found[1..], sys);
      } else {
        FillByDriverKeeps(cards, i + 1, driver, found, sys);
      }
    }
  }

  lemma {:induction false} AppendAllKeeps(
    cards: seq<Card>, driver: string, options: string, description: string, found: seq<string>, sys: Sysfs)
    requires Sound(cards) && Free(cards, found)
    ensures Sound(AppendAll(cards, driver, options, description, found, sys))
    decreases |found|
  {
    if found != [] {
      var cards' := cards + [NewCard(driver, options, description, found[0], sys(found[0]))];
      forall i | 0 <= i < |cards|
        ensures cards[i].device != "" ==> cards[i].device != found[0]
      {
        assert !Listed(cards, found[0]);
      }
      forall i | 0 <= i < |found[1..]|
        ensures !Listed(cards', found[1..][i])
      {
        assert !Listed(cards, found[i + 1]);
      }
      AppendAllKeeps(cards', driver, options, description, found[1..], sys);
    }
  }

  lemma ProbeKeeps(cards: seq<Card>, c: Call)
    requires Sound(cards) && Distinct(c.names)
    ensures Sound(Probe(cards, c))
  {
    var found := Scan(cards, c.names);
    ScanIsFree(cards, c.names);
    if c.driver.None? {
      MatchAllKeeps(cards, found, c.sys);
    } else if c.loads {
      FillByDriverKeeps(cards, 0, c.driver.value, found, c.sys);
      var (filled, rest) := FillByDriver(cards, 0, c.driver.value, found, c.sys);
      if c.description.Some? {
        AppendAllKeeps(filled, c.driver.value, c.options, c.description.value, rest, c.sys);
      }
    }
  }
}
