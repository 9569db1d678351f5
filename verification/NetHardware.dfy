/** What a scan makes of the hardware and of the settings, in terms of their fields
    (src/installer/networking.c:272-402). */
module NetHardware {

  import opened Decimals
  import opened Wrappers
  import opened Positions
  import opened NetTable
  import opened NetMatch
  import opened NetCalls
  import opened NetColours
  import opened NetScan

  // ---- the detected hardware ----

  function IsNetworkCard(): Hardware -> bool {
    (h: Hardware) => h.isNetwork
  }

  /** Where the network cards stand in the list of hardware. */
  function NetworkAt(hw: seq<Hardware>): (p: seq<nat>)
    ensures ArePlaces(p, hw, IsNetworkCard(), 0)
  {
    Places(hw, IsNetworkCard())
  }

  /** Card k of the table is for the hardware at place p[k]: its module, description and ids, and nothing
      else yet. */
  ghost predicate AreForHardware(cards: seq<Card>, hw: seq<Hardware>, p: seq<nat>) {
    && |cards| == |p|
    && forall k :: 0 <= k < |p| ==>
         && p[k] < |hw|
         && cards[k] == Card(hw[p[k]].driver, "", "", hw[p[k]].description, NoColour, "", hw[p[k]].vendorid, hw[p[k]].modelid)
  }

  lemma OneMoreHardware(cards: seq<Card>, hw: seq<Hardware>, p: seq<nat>, h: Hardware)
    requires AreForHardware(cards, hw, p)
    ensures AreForHardware(cards, hw + [h], p)
    ensures AreForHardware(cards + [Card(h.driver, "", "", h.description, NoColour, "", h.vendorid, h.modelid)], hw + [h], p + [|hw|])
  {
  }

  /** The table starts with one card per network card, in order. */
  lemma {:induction false} DetectedIsForHardware(hw: seq<Hardware>)
    ensures AreForHardware(Detected(hw), hw, NetworkAt(hw))
  {
    if hw != [] {
      var before, h := hw[..|hw| - 1], hw[|hw| - 1];
      assert hw == before + [h];
      DetectedIsForHardware(before);
      PlacesOneMore(before, h, IsNetworkCard(), 0);
      OneMoreHardware(Detected(before), before, NetworkAt(before), h);
    }
  }

  // ---- a fresh scan gives devices to their own hardware ----

  /** The hardware has these ids. */
  predicate HasIds(h: Hardware, info: Info) {
    info.vendorid != "" && info.modelid != "" && h.vendorid == info.vendorid && h.modelid == info.modelid
  }

  lemma EmptyHardwareTakes(hw: seq<Hardware>, k: nat, info: Info, device: string, address: string)
    requires k < |NetworkAt(hw)| && HasIds(hw[NetworkAt(hw)[k]], info)
    ensures k < |Detected(hw)|
    ensures device == "" ==>
              Takes(Detected(hw)[k].(device := device, address := address), ByIds(info.vendorid, info.modelid))
  {
    DetectedIsForHardware(hw);
  }

  lemma FirstProbeServesIds(hw: seq<Hardware>, c: Call, name: string, k: nat)
    requires c.driver.None? && Distinct(c.names) && name in c.names && name != "" && !Hidden(name)
    requires k < |NetworkAt(hw)| && HasIds(hw[NetworkAt(hw)[k]], c.sys(name))
    ensures var r := Probe(Detected(hw), c);
            |r| == |NetworkAt(hw)| && (r[k].device != ""
                        || exists i :: 0 <= i < |NetworkAt(hw)| && r[i].device == name && HasIds(hw[NetworkAt(hw)[i]], c.sys(name)))
  {
    var cards, r, info := Detected(hw), Probe(Detected(hw), c), c.sys(name);
    DetectedIsForHardware(hw);
    ProbeGrows(cards, c);
    assert |r| == |cards|;
    if r[k].device == "" {
      assert r[k] == cards[k].(device := r[k].device, address := r[k].address);
      EmptyHardwareTakes(hw, k, info, r[k].device, r[k].address);
      ProbeIsMaximal(cards, c, name);
      assert Listed(r, name);
      var i :| 0 <= i < |r| && r[i].device != "" && r[i].device == name;
      DetectedIsBlank(hw);
      ProbeIsJustified(cards, c, i);
    }
  }

  /** A fresh scan: a device that is there from the start goes to network hardware with its own vendor and
      model ids, as long as some is left.  The hardware is that of the list, in its order. */
  lemma FreshScanServesIds(
    hw: seq<Hardware>, eth: Settings, present: set<string>, sys: Sysfs, replies: nat -> Reply, name: string, k: nat)
    requires IsSystem(replies) && name in replies(0).names && !Hidden(name)
    requires k < |NetworkAt(hw)| && HasIds(hw[NetworkAt(hw)[k]], replies(0).sys(name))
    ensures var r, p := Scanned(false, hw, eth, present, sys, replies), NetworkAt(hw);
            && |r| == |p|
            && (|| r[k].device != ""
                || exists i :: 0 <= i < |p| && r[i].device == name && HasIds(hw[p[i]], replies(0).sys(name)))
            && forall i :: 0 <= i < |p| ==>
                 && r[i].driver == hw[p[i]].driver && r[i].description == hw[p[i]].description
                 && r[i].vendorid == hw[p[i]].vendorid && r[i].modelid == hw[p[i]].modelid && r[i].colour == NoColour
  {
    var cards, c := Detected(hw), NetScan.CallWith(None, replies(0));
    var first, r := Probe(cards, c), Scanned(false, hw, eth, present, sys, replies);
    DetectedIsForHardware(hw);
    FirstProbeServesIds(hw, c, name, k);
    AllCallsKeepLength(cards, replies);
    assert AllCalls(cards, replies)[1..] == ModuleCalls(first, 0, 1, replies);
    RunGrows(first, ModuleCalls(first, 0, 1, replies));
    RunGrows(cards, AllCalls(cards, replies));
    assert r == Probed(false, hw, eth, present, sys, replies) == Run(first, ModuleCalls(first, 0, 1, replies));
    forall i | 0 <= i < |r|
      ensures r[i] == cards[i].(device := r[i].device, address := r[i].address)
    {
    }
  }

  // ---- the devices that the settings name ----

  /** A device of the settings has gone to the first card that passes the test, with its colour and its
      address. */
  ghost predicate FirstIsOwned(before: seq<Card>, after: seq<Card>, test: Card -> bool, e: Configured, info: Info) {
    exists k :: 0 <= k < |before| && test(before[k]) && (forall i :: 0 <= i < k ==> !test(before[i]))
                && after == before[k := before[k].(device := e.device, colour := e.colour, address := info.mac)]
  }

  function EmptyById(info: Info): Card -> bool {
    (card: Card) => EmptyWithIds(card, info)
  }

  function EmptyOfDriver(driver: Option<string>): Card -> bool {
    (card: Card) => card.device == "" && driver == Some(card.driver)
  }

  /** One device of the settings: if it is there, it goes to the first empty card with its ids, else to the
      first empty card of the module noted for it, else to a new card if sysfs tells all about it. */
  ghost predicate Adopts(before: seq<Card>, after: seq<Card>, e: Configured, present: set<string>, sys: Sysfs) {
    var info := sys(e.device);
    if e.device == "" || e.device !in present then after == before
    else if Exists(before, EmptyById(info)) then FirstIsOwned(before, after, EmptyById(info), e, info)
    else if Exists(before, EmptyOfDriver(e.driver)) then FirstIsOwned(before, after, EmptyOfDriver(e.driver), e, info)
    else if info.driver == "" || info.vendorid == "" || info.modelid == "" then after == before
    else after == before + [Card(info.driver, "", e.device, "Unknown card", e.colour, info.mac, info.vendorid, info.modelid)]
  }

  lemma SlotIsOwned(cards: seq<Card>, test: Test, t: Card -> bool, e: Configured, info: Info)
    requires forall i :: 0 <= i < |cards| ==> (t(cards[i]) <==> Takes(cards[i], test))
    ensures var k := Slot(cards, test, 0);
            && (k < |cards| <==> Exists(cards, t))
            && (k < |cards| ==>
                  FirstIsOwned(cards, cards[k := cards[k].(device := e.device, colour := e.colour, address := info.mac)], t, e, info))
  {
  }

  lemma AdoptAdopts(cards: seq<Card>, e: Configured, present: set<string>, sys: Sysfs)
    ensures Adopts(cards, Adopt(cards, e, present, sys), e, present, sys)
  {
    var info := sys(e.device);
    SlotIsOwned(cards, ByIds(info.vendorid, info.modelid), EmptyById(info), e, info);
    if e.driver.Some? {
      SlotIsOwned(cards, ByDriver(e.driver.value), EmptyOfDriver(e.driver), e, info);
    }
  }

  ghost predicate AdoptsInTurn(
    tables: seq<seq<Card>>, configured: seq<Configured>, present: set<string>, sys: Sysfs)
  {
    && |tables| == |configured| + 1
    && forall j :: 0 <= j < |configured| ==> Adopts(tables[j], tables[j + 1], configured[j], present, sys)
  }

  lemma {:induction false} AdoptAllInTurn(cards: seq<Card>, configured: seq<Configured>, present: set<string>, sys: Sysfs)
    returns (tables: seq<seq<Card>>)
    ensures AdoptsInTurn(tables, configured, present, sys)
    ensures tables[0] == cards && tables[|configured|] == AdoptAll(cards, configured, present, sys)
    decreases |configured|
  {
    if configured == [] {
      tables := [cards];
    } else {
      AdoptAdopts(cards, configured[0], present, sys);
      var later := AdoptAllInTurn(Adopt(cards, configured[0], present, sys), configured[1..], present, sys);
      tables := [cards] + later;
      AdoptsOneMore(cards, later, configured, present, sys);
    }
  }

  lemma AdoptsOneMore(
    cards: seq<Card>, later: seq<seq<Card>>, configured: seq<Configured>, present: set<string>, sys: Sysfs)
    requires configured != [] && AdoptsInTurn(later, configured[1..], present, sys)
    requires Adopts(cards, later[0], configured[0], present, sys)
    ensures AdoptsInTurn([cards] + later, configured, present, sys)
  {
    var tables := [cards] + later;
    forall j | 0 <= j < |configured|
      ensures Adopts(tables[j], tables[j + 1], configured[j], present, sys)
    {
      assert j > 0 ==> tables[j] == later[j - 1] && configured[j] == configured[1..][j - 1];
      assert tables[j + 1] == later[j];
    }
  }

  function Text(eth: Settings, key: string): string {
    if key in eth then eth[key] else ""
  }

  /** The device number j of a colour, as the settings spell it. */
  function Spelled(eth: Settings, c: Colour, j: nat): Configured {
    var name := ColourText(c) + "_" + Decimal(j);
    Configured(c, Text(eth, name + "_DEV"), Get(eth, name + "_DRIVER"))
  }

  lemma EntryIsSpelled(eth: Settings, c: Colour, j: nat)
    ensures EntryOf(eth, c, j) == Spelled(eth, c, j)
  {
    var name := ColourText(c) + "_" + Decimal(j);
    assert name + "_" + "DEV" == name + "_DEV" && name + "_" + "DRIVER" == name + "_DRIVER";
  }

  lemma {:induction false} EntriesAreSpelled(eth: Settings, c: Colour, n: nat)
    ensures forall j :: 0 <= j < n ==> Entries(eth, c, n)[j] == Spelled(eth, c, j + 1)
  {
    if n != 0 {
      EntriesAreSpelled(eth, c, n - 1);
      EntryIsSpelled(eth, c, n);
    }
  }

  /** As many entries as the count of the colour says. */
  function Counted(eth: Settings, c: Colour): nat {
    var n := Atoi(Text(eth, ColourText(c) + "_COUNT"));
    if n > 0 then n else 0
  }

  ghost predicate AreSpelled(entries: seq<Configured>, eth: Settings, c: Colour) {
    |entries| == Counted(eth, c) && forall j :: 0 <= j < |entries| ==> entries[j] == Spelled(eth, c, j + 1)
  }

  /** The devices of the settings: those of GREEN, RED, BLUE and ORANGE, each counted from one. */
  lemma ConfiguredAreSpelled(eth: Settings)
    returns (green: seq<Configured>, red: seq<Configured>, blue: seq<Configured>, orange: seq<Configured>)
    ensures ConfiguredIn(eth) == green + red + blue + orange
    ensures AreSpelled(green, eth, Green) && AreSpelled(red, eth, Red) && AreSpelled(blue, eth, Blue) && AreSpelled(orange, eth, Orange)
  {
    green, red := Entries(eth, Green, CountOf(eth, Green)), Entries(eth, Red, CountOf(eth, Red));
    blue, orange := Entries(eth, Blue, CountOf(eth, Blue)), Entries(eth, Orange, CountOf(eth, Orange));
    EntriesAreSpelled(eth, Green, CountOf(eth, Green));
    EntriesAreSpelled(eth, Red, CountOf(eth, Red));
    EntriesAreSpelled(eth, Blue, CountOf(eth, Blue));
    EntriesAreSpelled(eth, Orange, CountOf(eth, Orange));
    assert COLOURS == [Green, Red, Blue, Orange];
    assert EntriesAmong(eth, 0) == [];
    assert EntriesAmong(eth, 1) == green;
    assert EntriesAmong(eth, 3) == green + red + blue;
  }

  // ---- numbers in the settings ----

  lemma {:induction false} LeadingDecimal(n: nat, rest: string)
    ensures LeadingNumber(Decimal(n) + rest, 0) == LeadingNumber(rest, n)
  {
    if n < 10 {
      assert ([Digit(n)] + rest)[1..] == rest;
    } else {
      var last := [Digit(n % 10)] + rest;
      assert Decimal(n) + rest == Decimal(n / 10) + last;
      LeadingDecimal(n / 10, last);
      assert last[1..] == rest;
    }
  }

  lemma {:induction false} AtoiSkips(gap: string, s: string)
    requires forall i :: 0 <= i < |gap| ==> gap[i] in {' ', '\t', '\n', '\r'}
    ensures Atoi(gap + s) == Atoi(s)
  {
    if gap == "" {
      assert gap + s == s;
    } else {
      assert (gap + s)[1..] == gap[1..] + s;
      AtoiSkips(gap[1..], s);
    }
  }

  lemma AtoiOfDigits(s: string)
    requires s != "" && IsDigit(s[0])
    ensures Atoi(s) == LeadingNumber(s, 0)
  {
  }

  lemma AtoiOfSigned(s: string)
    ensures Atoi("+" + s) == LeadingNumber(s, 0) && Atoi("-" + s) + LeadingNumber(s, 0) == 0
  {
    assert ("+" + s)[1..] == s && ("-" + s)[1..] == s;
  }

  /** A text that starts with a number means that number, whatever stands around it. */
  lemma AtoiReads(gap: string, n: nat, rest: string)
    requires (forall i :: 0 <= i < |gap| ==> gap[i] in {' ', '\t', '\n', '\r'}) && (rest == "" || !('0' <= rest[0] <= '9'))
    ensures Atoi(gap + (Decimal(n) + rest)) == n == Atoi(gap + ("+" + (Decimal(n) + rest)))
    ensures Atoi(gap + ("-" + (Decimal(n) + rest))) + n == 0
  {
    var s := NumberAndRest(n, rest);
    AtoiOfDigits(s);
    AtoiOfSigned(s);
    AtoiSkips(gap, s);
    AtoiSkips(gap, "+" + s);
    AtoiSkips(gap, "-" + s);
  }

  lemma NumberAndRest(n: nat, rest: string) returns (s: string)
    requires rest == "" || !('0' <= rest[0] <= '9')
    ensures s == Decimal(n) + rest && s != "" && IsDigit(s[0]) && LeadingNumber(s, 0) == n
  {
    s := Decimal(n) + rest;
    LeadingDecimal(n, rest);
    assert IsDigit(Decimal(n)[0]) && s[0] == Decimal(n)[0];
  }

  /** Any other text means zero. */
  lemma AtoiOfNone(s: string)
    requires s == "" || s[0] !in {' ', '\t', '\n', '\U{0B}', '\U{0C}', '\r', '+', '-', '0', '1', '2', '3', '4', '5', '6', '7', '8', '9'}
    ensures Atoi(s) == 0
  {
  }

  // ---- what the made-up cards show ----

  /** Place m is that of the last device of the settings that is there. */
  ghost predicate IsLastPresent(configured: seq<Configured>, present: set<string>, m: int) {
    && -1 <= m < |configured|
    && (m >= 0 ==> configured[m].device != "" && configured[m].device in present)
    && forall i :: m < i < |configured| ==> configured[i].device == "" || configured[i].device !in present
  }

  lemma {:induction false} LastReadIsLast(configured: seq<Configured>, present: set<string>, sys: Sysfs, before: Info, m: int)
    requires IsLastPresent(configured, present, m)
    ensures LastRead(configured, present, sys, before) == if m >= 0 then sys(configured[m].device) else before
  {
    if configured != [] && m < |configured| - 1 {
      LastReadIsLast(configured[..|configured| - 1], present, sys, before, m);
    }
  }

  /** A card that was made up shows the module and the ids of the last device that the scan has read: the
      last one shown at the first probe, or else the last one of the settings that is there. */
  lemma MadeUpShowLastRead(
    hw: seq<Hardware>, eth: Settings, present: set<string>, sys: Sysfs, replies: nat -> Reply, k: nat, m: int)
    requires k < |Scanned(true, hw, eth, present, sys, replies)| && IsLastPresent(ConfiguredIn(eth), present, m) && m >= 0
    ensures var card := Scanned(true, hw, eth, present, sys, replies)[k];
            var probed := Run(Start(true, hw, eth, present, sys), AllCalls(Start(true, hw, eth, present, sys), replies))[k];
            var p := ShownAt(Start(true, hw, eth, present, sys), replies(0).names);
            var info := if p != [] then replies(0).sys(replies(0).names[p[|p| - 1]]) else sys(ConfiguredIn(eth)[m].device);
            card == if k < |Detected(hw)| then probed
                    else Card(info.driver, probed.options, probed.device, probed.description, probed.colour, probed.address,
                              info.vendorid, info.modelid)
  {
    ScanIsShown(Start(true, hw, eth, present, sys), replies(0).names);
    LastReadIsLast(ConfiguredIn(eth), present, sys, NoInfo, m);
  }

  // ---- the probes of a scan ----

  /** Call j is for the module of card ks[j], which has no device when its turn comes; a card between two
      of these has one then. */
  ghost predicate AreModuleCalls(cards: seq<Card>, calls: seq<Call>, ks: seq<nat>, i: nat, n: nat, replies: nat -> Reply)
    decreases |calls|
  {
    if calls == [] then ks == [] && forall k :: i <= k < |cards| ==> cards[k].device != ""
    else
      && ks != [] && i <= ks[0] < |cards| && cards[ks[0]].device == ""
      && (forall k :: i <= k < ks[0] ==> cards[k].device != "")
      && calls[0] == Call(Some(cards[ks[0]].driver), None, "", replies(n).loads, replies(n).names, replies(n).sys)
      && AreModuleCalls(Probe(cards, calls[0]), calls[1..], ks[1..], ks[0] + 1, n + 1, replies)
  }

  lemma {:induction false} ModuleCallsAreInOrder(cards: seq<Card>, i: nat, n: nat, replies: nat -> Reply) returns (ks: seq<nat>)
    requires i <= |cards|
    ensures AreModuleCalls(cards, ModuleCalls(cards, i, n, replies), ks, i, n, replies)
    decreases |cards| - i
  {
    if i == |cards| {
      ks := [];
    } else if cards[i].device != "" {
      ks := ModuleCallsAreInOrder(cards, i + 1, n, replies);
    } else {
      var c := NetScan.CallWith(Some(cards[i].driver), replies(n));
      ProbeKeepsLength(cards, c);
      var later := ModuleCallsAreInOrder(Probe(cards, c), i + 1, n + 1, replies);
      ks := [i] + later;
      assert ModuleCalls(cards, i, n, replies)[1..] == ModuleCalls(Probe(cards, c), i + 1, n + 1, replies);
      assert ks[1..] == later;
    }
  }

  /** A scan looks for devices that are there, and then loads the modules of the cards that have none, in
      the order of the table, each for the table that the earlier probes have left. */
  lemma ScanProbesInOrder(cards: seq<Card>, replies: nat -> Reply) returns (ks: seq<nat>)
    ensures var calls := AllCalls(cards, replies);
            && calls != [] && calls[0] == Call(None, None, "", replies(0).loads, replies(0).names, replies(0).sys)
            && AreModuleCalls(Probe(cards, calls[0]), calls[1..], ks, 0, 1, replies)
  {
    var c := NetScan.CallWith(None, replies(0));
    ks := ModuleCallsAreInOrder(Probe(cards, c), 0, 1, replies);
    assert AllCalls(cards, replies)[1..] == ModuleCalls(Probe(cards, c), 0, 1, replies);
  }
}
