/** Building the table of cards (src/installer/networking.c:272-402): the detected hardware, the
    devices that the settings of an installed system already name, and then the probes. */
module NetScan {

  import opened Decimals
  import opened Wrappers
  import opened NetTable
  import opened NetMatch
  import opened NetColours
  import opened NetSafety

  datatype Hardware = Hardware(isNetwork: bool, driver: string, description: string, vendorid: string, modelid: string)

  function CardFor(h: Hardware): Card {
    Card(h.driver, "", "", h.description, NoColour, "", h.vendorid, h.modelid)
  }

  function Detected(hw: seq<Hardware>): seq<Card> {
    if hw == [] then []
    else Detected(hw[..|hw| - 1]) + if hw[|hw| - 1].isNetwork then [CardFor(hw[|hw| - 1])] else []
  }

  // ---- the devices of an installed system ----

  function Setting(eth: Settings, key: string): string {
    if key in eth then eth[key] else ""
  }

  function LeadingNumber(s: string, before: nat): nat {
    if s != "" && IsDigit(s[0]) then LeadingNumber(s[1..], 10 * before + DigitOf(s[0])) else before
  }

  /** atoi of a text that fits an int. */
  function Atoi(s: string): int {
    if s != "" && (s[0] == ' ' || '\t' <= s[0] <= '\r') then Atoi(s[1..])
    else if s != "" && s[0] == '-' then 0 - LeadingNumber(s[1..], 0)
    else if s != "" && s[0] == '+' then LeadingNumber(s[1..], 0)
    else LeadingNumber(s, 0)
  }

  /** A device that the settings give to a colour, with the driver noted for it. */
  datatype Configured = Configured(colour: Colour, device: string, driver: Option<string>)

  function EntryKey(c: Colour, j: nat, field: string): string {
    ColourText(c) + "_" + Decimal(j) + "_" + field
  }

  function EntryOf(eth: Settings, c: Colour, j: nat): Configured {
    Configured(c, Setting(eth, EntryKey(c, j, "DEV")), Get(eth, EntryKey(c, j, "DRIVER")))
  }

  /** The devices 1 to n of a colour. */
  function Entries(eth: Settings, c: Colour, n: nat): (r: seq<Configured>)
    ensures |r| == n
  {
    if n == 0 then [] else Entries(eth, c, n - 1) + [EntryOf(eth, c, n)]
  }

  function CountOf(eth: Settings, c: Colour): nat {
    var n := Atoi(Setting(eth, Key(c, Count)));
    if n < 0 then 0 else n
  }

  function EntriesAmong(eth: Settings, k: nat): seq<Configured>
    requires k <= 4
  {
    if k == 0 then [] else EntriesAmong(eth, k - 1) + Entries(eth, COLOURS[k - 1], CountOf(eth, COLOURS[k - 1]))
  }

  function ConfiguredIn(eth: Settings): seq<Configured> {
    EntriesAmong(eth, 4)
  }

  /** The slot that a configured device goes to: by its ids, else by the noted driver. */
  function SlotFor(cards: seq<Card>, c: Configured, sys: Sysfs): (k: nat)
    ensures k <= |cards| && (k < |cards| ==> cards[k].device == "")
  {
    var byIds := Slot(cards, ByIds(sys(c.device).vendorid, sys(c.device).modelid), 0);
    if byIds < |cards| || c.driver.None? then byIds else Slot(cards, ByDriver(c.driver.value), 0)
  }

  /** sysfs tells all about the device. */
  predicate Complete(info: Info) {
    info.driver != "" && info.vendorid != "" && info.modelid != ""
  }

  predicate Present(c: Configured, present: set<string>) {
    c.device != "" && c.device in present
  }

  /** The device is there, and so is a slot for it; or a card can be made up for it. */
  predicate Attaches(cards: seq<Card>, c: Configured, present: set<string>, sys: Sysfs) {
    Present(c, present) && (SlotFor(cards, c, sys) < |cards| || Complete(sys(c.device)))
  }

  function UnknownCard(c: Configured, info: Info): Card {
    Card(info.driver, "", c.device, "Unknown card", c.colour, info.mac, info.vendorid, info.modelid)
  }

  /** The card goes to position SlotFor, which is the end of the table if there is no slot. */
  function Adopt(cards: seq<Card>, c: Configured, present: set<string>, sys: Sysfs): (r: seq<Card>)
    ensures |cards| <= |r|
  {
    if Attaches(cards, c, present, sys) then
      var k := SlotFor(cards, c, sys);
      if k < |cards| then cards[k := Fill(cards[k], c.device, sys(c.device)).(colour := c.colour)]
      else cards + [UnknownCard(c, sys(c.device))]
    else cards
  }

  function AdoptAll(cards: seq<Card>, configured: seq<Configured>, present: set<string>, sys: Sysfs): (r: seq<Card>)
    ensures |cards| <= |r|
    decreases |configured|
  {
    if configured == [] then cards
    else AdoptAll(Adopt(cards, configured[0], present, sys), configured[1..], present, sys)
  }

  lemma AdoptOneMore(cards: seq<Card>, configured: seq<Configured>, c: Configured, present: set<string>, sys: Sysfs)
    ensures AdoptAll(cards, configured + [c], present, sys) == Adopt(AdoptAll(cards, configured, present, sys), c, present, sys)
  {
    AdoptSum(cards, configured, [c], present, sys);
  }

  lemma AdoptEntry(cards: seq<Card>, eth: Settings, c: Colour, j: nat, present: set<string>, sys: Sysfs, before: Info)
    requires j >= 1
    ensures var e, done := EntryOf(eth, c, j), Entries(eth, c, j - 1);
            && AdoptAll(cards, Entries(eth, c, j), present, sys) == Adopt(AdoptAll(cards, done, present, sys), e, present, sys)
            && LastRead(Entries(eth, c, j), present, sys, before)
               == if Present(e, present) then sys(e.device) else LastRead(done, present, sys, before)
  {
    var e, done := EntryOf(eth, c, j), Entries(eth, c, j - 1);
    AdoptOneMore(cards, done, e, present, sys);
    assert (done + [e])[..j - 1] == done;
  }

  lemma {:induction false} AdoptSum(
    cards: seq<Card>, a: seq<Configured>, b: seq<Configured>, present: set<string>, sys: Sysfs)
    ensures AdoptAll(cards, a + b, present, sys) == AdoptAll(AdoptAll(cards, a, present, sys), b, present, sys)
    decreases |a|
  {
    if a == [] {
      assert a + b == b;
    } else {
      assert (a + b)[1..] == a[1..] + b;
      AdoptSum(Adopt(cards, a[0], present, sys), a[1..], b, present, sys);
    }
  }

  /** What the last reading of sysfs has left in the buffers for module and ids. */
  function LastRead(configured: seq<Configured>, present: set<string>, sys: Sysfs, before: Info): Info {
    if configured == [] then before
    else
      var last := configured[|configured| - 1];
      if Present(last, present) then sys(last.device) else LastRead(configured[..|configured| - 1], present, sys, before)
  }

  lemma {:induction false} LastReadOfSum(
    a: seq<Configured>, b: seq<Configured>, present: set<string>, sys: Sysfs, before: Info)
    ensures LastRead(a + b, present, sys, before) == LastRead(b, present, sys, LastRead(a, present, sys, before))
  {
    if b == [] {
      assert a + b == a;
    } else {
      assert (a + b)[..|a + b| - 1] == a + b[..|b| - 1];
      LastReadOfSum(a, b[..|b| - 1], present, sys, before);
    }
  }

  /** The cards from n on, which were made up, point to those buffers.  As they have devices, nothing
      looks at their module and ids during the scan. */
  function Overwritten(cards: seq<Card>, n: nat, info: Info): (r: seq<Card>)
    requires n <= |cards|
    ensures |r| == |cards|
    ensures forall i :: 0 <= i < |r| ==> r[i].device == cards[i].device && r[i].colour == cards[i].colour
                                         && r[i].address == cards[i].address && (i < n ==> r[i] == cards[i])
  {
    seq(|cards|, i requires 0 <= i < |cards| =>
      if i < n then cards[i] else cards[i].(driver := info.driver, vendorid := info.vendorid, modelid := info.modelid))
  }

  // ---- the whole scan ----

  /** What the system answers to one probe. */
  datatype Reply = Reply(loads: bool, names: seq<string>, sys: Sysfs)

  /** A directory lists no name twice, and none that is empty. */
  ghost predicate IsSystem(replies: nat -> Reply) {
    forall n :: Distinct(replies(n).names) && "" !in replies(n).names
  }

  function CallWith(driver: Option<string>, r: Reply): Call {
    Call(driver, None, "", r.loads, r.names, r.sys)
  }

  /** The table before anything is probed. */
  function Start(setup: bool, hw: seq<Hardware>, eth: Settings, present: set<string>, sys: Sysfs): seq<Card> {
    if setup then AdoptAll(Detected(hw), ConfiguredIn(eth), present, sys) else Detected(hw)
  }

  /** The buffers after the first probe, which reads every device it finds. */
  function ReadByProbe(cards: seq<Card>, r: Reply, before: Info): Info {
    var found := Scan(cards, r.names);
    if found == [] then before else r.sys(found[|found| - 1])
  }

  const NoInfo := Info("", "", "", "")

  /** What the buffers hold after the scan. */
  function ReadLast(
    setup: bool, hw: seq<Hardware>, eth: Settings, present: set<string>, sys: Sysfs, replies: nat -> Reply): Info
  {
    ReadByProbe(Start(setup, hw, eth, present, sys), replies(0),
                if setup then LastRead(ConfiguredIn(eth), present, sys, NoInfo) else NoInfo)
  }

  /** The table after all probes; the system answers probe number n with replies(n). */
  function Probed(
    setup: bool, hw: seq<Hardware>, eth: Settings, present: set<string>, sys: Sysfs, replies: nat -> Reply): (r: seq<Card>)
    ensures |Detected(hw)| <= |r|
  {
    var start := Start(setup, hw, eth, present, sys);
    RunGrows(start, AllCalls(start, replies));
    Run(start, AllCalls(start, replies))
  }

  function Scanned(
    setup: bool, hw: seq<Hardware>, eth: Settings, present: set<string>, sys: Sysfs, replies: nat -> Reply): (r: seq<Card>)
  {
    Overwritten(Probed(setup, hw, eth, present, sys, replies), |Detected(hw)|,
                ReadLast(setup, hw, eth, present, sys, replies))
  }

  class Scanner {
    const table: Table
    var hardwareScanned: bool
    var read: Info

    constructor (t: Table)
      ensures table == t && !hardwareScanned
    {
      table, hardwareScanned, read := t, false, NoInfo;
    }

    method ListHardware(hw: seq<Hardware>)
      modifies table
      ensures table.networks == Detected(hw)
    {
      table.networks := [];
      assert hw[..0] == [];
      for i := 0 to |hw|
        invariant table.networks == Detected(hw[..i])
      {
        assert hw[..i + 1][..i] == hw[..i];
        if hw[i].isNetwork {
          table.networks := table.networks + [CardFor(hw[i])];
        }
      }
      assert hw[..|hw|] == hw;
    }

    method AdoptDevice(c: Configured, present: set<string>, sys: Sysfs)
      modifies table, this`read
      ensures table.networks == Adopt(old(table.networks), c, present, sys)
      ensures read == if Present(c, present) then sys(c.device) else old(read)
    {
      if c.device == "" || c.device !in present {
        return;
      }
      var info := sys(c.device);
      read := info;
      var k := table.FindSlot(ByIds(info.vendorid, info.modelid));
      if k == |table.networks| && c.driver.Some? {
        k := table.FindSlot(ByDriver(c.driver.value));
      }
      if k < |table.networks| {
        table.networks := table.networks[k := Fill(table.networks[k], c.device, info).(colour := c.colour)];
      } else if info.driver != "" && info.vendorid != "" && info.modelid != "" {
        table.networks := table.networks + [UnknownCard(c, info)];
      }
    }

    /** The devices that the settings count for each colour, one after the other. */
    method AdoptConfigured(eth: Settings, present: set<string>, sys: Sysfs)
      modifies table, this`read
      ensures table.networks == AdoptAll(old(table.networks), ConfiguredIn(eth), present, sys)
      ensures read == LastRead(ConfiguredIn(eth), present, sys, old(read))
    {
      for i := 0 to 4
        invariant table.networks == AdoptAll(old(table.networks), EntriesAmong(eth, i), present, sys)
        invariant read == LastRead(EntriesAmong(eth, i), present, sys, old(read))
      {
        AdoptSum(old(table.networks), EntriesAmong(eth, i), Entries(eth, COLOURS[i], CountOf(eth, COLOURS[i])), present, sys);
        LastReadOfSum(EntriesAmong(eth, i), Entries(eth, COLOURS[i], CountOf(eth, COLOURS[i])), present, sys, old(read));
        AdoptColour(COLOURS[i], eth, present, sys);
      }
    }

    method AdoptColour(colour: Colour, eth: Settings, present: set<string>, sys: Sysfs)
      modifies table, this`read
      ensures table.networks == AdoptAll(old(table.networks), Entries(eth, colour, CountOf(eth, colour)), present, sys)
      ensures read == LastRead(Entries(eth, colour, CountOf(eth, colour)), present, sys, old(read))
    {
      var c := Atoi(Setting(eth, Key(colour, Count)));
      var j := 1;
      while j <= c
        invariant 1 <= j && (j <= c + 1 || j == 1)
        invariant table.networks == AdoptAll(old(table.networks), Entries(eth, colour, j - 1), present, sys)
        invariant read == LastRead(Entries(eth, colour, j - 1), present, sys, old(read))
      {
        AdoptEntry(old(table.networks), eth, colour, j, present, sys, old(read));
        var device := Setting(eth, EntryKey(colour, j, "DEV"));
        var driver := Get(eth, EntryKey(colour, j, "DRIVER"));
        AdoptDevice(Configured(colour, device, driver), present, sys);
        j := j + 1;
      }
    }

    /** The call without a module, which reads what sysfs tells about every new device. */
    method ProbePresent(r: Reply) returns (rc: int)
      modifies table, this`read
      ensures table.networks == Probe(old(table.networks), CallWith(None, r))
      ensures read == ReadByProbe(old(table.networks), r, old(read))
    {
      var found := table.ScanDir(r.names);
      if found != [] {
        read := r.sys(found[|found| - 1]);
      }
      rc := table.ProbeCard(CallWith(None, r));
    }

    /** Look for devices that are already there, then load the module of every card that still has
        none. */
    method ProbeEverything(replies: nat -> Reply)
      modifies table, this`read
      ensures table.networks == Run(old(table.networks), AllCalls(old(table.networks), replies))
      ensures read == ReadByProbe(old(table.networks), replies(0), old(read))
    {
      var rc := ProbePresent(replies(0));
      var n := 1;
      for i := 0 to |table.networks|
        invariant |table.networks| == |old(table.networks)| && read == ReadByProbe(old(table.networks), replies(0), old(read))
        invariant Run(table.networks, ModuleCalls(table.networks, i, n, replies))
               == Run(old(table.networks), AllCalls(old(table.networks), replies))
      {
        if table.networks[i].device == "" {
          NextModule(table.networks, i, n, replies);
          rc := table.ProbeCard(CallWith(Some(table.networks[i].driver), replies(n)));
          n := n + 1;
        }
      }
    }

    /** scancards: the hardware is scanned once only. */
    method ScanCards(setup: bool, hw: seq<Hardware>, eth: Settings, present: set<string>, sys: Sysfs, replies: nat -> Reply)
      modifies this, table
      ensures hardwareScanned
      ensures table.networks == if old(hardwareScanned) then old(table.networks) else Scanned(setup, hw, eth, present, sys, replies)
    {
      if hardwareScanned {
        return;
      }
      hardwareScanned := true;
      ListHardware(hw);
      if setup {
        AdoptConfigured(eth, present, sys);
      }
      ProbeEverything(replies);
      RunGrows(Start(setup, hw, eth, present, sys), AllCalls(Start(setup, hw, eth, present, sys), replies));
      EarlierReadingsDoNotMatter(setup, hw, eth, present, sys, replies, old(read));
      table.networks := Overwritten(table.networks, |Detected(hw)|, read);
    }
  }

  lemma {:induction false} SomethingWasRead(
    cards: seq<Card>, configured: seq<Configured>, present: set<string>, sys: Sysfs, before: Info, before': Info)
    requires |AdoptAll(cards, configured, present, sys)| > |cards|
    ensures LastRead(configured, present, sys, before) == LastRead(configured, present, sys, before')
    decreases |configured|
  {
    if configured != [] {
      var rest, last := configured[..|configured| - 1], configured[|configured| - 1];
      assert configured == rest + [last];
      AdoptOneMore(cards, rest, last, present, sys);
      if !Present(last, present) {
        SomethingWasRead(cards, rest, present, sys, before, before');
      }
    }
  }

  /** What the buffers held before the scan is of no account: where there is a made-up card, its device
      has been read. */
  lemma EarlierReadingsDoNotMatter(
    setup: bool, hw: seq<Hardware>, eth: Settings, present: set<string>, sys: Sysfs, replies: nat -> Reply, before: Info)
    ensures var start, probed := Start(setup, hw, eth, present, sys), Probed(setup, hw, eth, present, sys, replies);
            var read := ReadByProbe(start, replies(0), if setup then LastRead(ConfiguredIn(eth), present, sys, before) else before);
            Overwritten(probed, |Detected(hw)|, read) == Scanned(setup, hw, eth, present, sys, replies)
  {
    var start, probed := Start(setup, hw, eth, present, sys), Probed(setup, hw, eth, present, sys, replies);
    AllCallsKeepLength(start, replies);
    if |probed| > |Detected(hw)| {
      SomethingWasRead(Detected(hw), ConfiguredIn(eth), present, sys, before, NoInfo);
    }
  }

  // ---- the probes of a scan ----

  /** The module of every card from i on that has no device when its turn comes. */
  function ModuleCalls(cards: seq<Card>, i: nat, n: nat, replies: nat -> Reply): seq<Call>
    requires i <= |cards|
    decreases |cards| - i
  {
    if i == |cards| then []
    else if cards[i].device != "" then ModuleCalls(cards, i + 1, n, replies)
    else
      var c := CallWith(Some(cards[i].driver), replies(n));
      ProbeKeepsLength(cards, c);
      [c] + ModuleCalls(Probe(cards, c), i + 1, n + 1, replies)
  }

  function AllCalls(cards: seq<Card>, replies: nat -> Reply): seq<Call> {
    var c := CallWith(None, replies(0));
    [c] + ModuleCalls(Probe(cards, c), 0, 1, replies)
  }

  lemma ProbeKeepsLength(cards: seq<Card>, c: Call)
    requires c.description == None
    ensures |Probe(cards, c)| == |cards|
  {
  }

  lemma NextModule(cards: seq<Card>, i: nat, n: nat, replies: nat -> Reply)
    requires i < |cards| && cards[i].device == ""
    ensures var next := Probe(cards, CallWith(Some(cards[i].driver), replies(n)));
            && |next| == |cards|
            && Run(cards, ModuleCalls(cards, i, n, replies)) == Run(next, ModuleCalls(next, i + 1, n + 1, replies))
  {
    var c := CallWith(Some(cards[i].driver), replies(n));
    ProbeKeepsLength(cards, c);
    assert ModuleCalls(cards, i, n, replies)[1..] == ModuleCalls(Probe(cards, c), i + 1, n + 1, replies);
  }

  lemma {:induction false} ModuleCallsKeepLength(cards: seq<Card>, i: nat, n: nat, replies: nat -> Reply)
    requires i <= |cards|
    ensures |Run(cards, ModuleCalls(cards, i, n, replies))| == |cards|
    decreases |cards| - i
  {
    if i < |cards| {
      if cards[i].device != "" {
        ModuleCallsKeepLength(cards, i + 1, n, replies);
      } else {
        NextModule(cards, i, n, replies);
        ModuleCallsKeepLength(Probe(cards, CallWith(Some(cards[i].driver), replies(n))), i + 1, n + 1, replies);
      }
    }
  }

  lemma {:induction false} ModuleCallsAreDistinct(cards: seq<Card>, i: nat, n: nat, replies: nat -> Reply)
    requires i <= |cards| && IsSystem(replies)
    ensures forall j :: 0 <= j < |ModuleCalls(cards, i, n, replies)| ==>
              Distinct(ModuleCalls(cards, i, n, replies)[j].names) && "" !in ModuleCalls(cards, i, n, replies)[j].names
    decreases |cards| - i
  {
    if i < |cards| {
      if cards[i].device != "" {
        ModuleCallsAreDistinct(cards, i + 1, n, replies);
      } else {
        var c := CallWith(Some(cards[i].driver), replies(n));
        ProbeKeepsLength(cards, c);
        ModuleCallsAreDistinct(Probe(cards, c), i + 1, n + 1, replies);
      }
    }
  }

  lemma AllCallsAreDistinct(cards: seq<Card>, replies: nat -> Reply)
    requires IsSystem(replies)
    ensures forall j :: 0 <= j < |AllCalls(cards, replies)| ==>
              Distinct(AllCalls(cards, replies)[j].names) && "" !in AllCalls(cards, replies)[j].names
  {
    ModuleCallsAreDistinct(Probe(cards, CallWith(None, replies(0))), 0, 1, replies);
  }

  /** This probe of the module of card k cannot give it a device: the module does not load, or every
      device that the directory then shows is in the table. */
  ghost predicate CouldNotHelp(cards: seq<Card>, k: nat, c: Call)
    requires k < |cards|
  {
    c.driver == Some(cards[k].driver) && (!c.loads || forall name :: name in c.names && !Hidden(name) ==> Listed(cards, name))
  }

  lemma OwnProbe(cards: seq<Card>, final: seq<Card>, k: nat, c: Call)
    requires k < |cards| == |final| && Grows(Probe(cards, c), final) && final[k].device == ""
    requires c.driver == Some(cards[k].driver) && c.description == None && Distinct(c.names) && "" !in c.names
    ensures CouldNotHelp(final, k, c)
  {
    var cards' := Probe(cards, c);
    ProbeGrows(cards, c);
    assert final[k].driver == cards'[k].driver == cards[k].driver;
    forall name | c.loads && name in c.names && !Hidden(name)
      ensures Listed(final, name)
    {
      LoadedModuleServes(cards, c, name);
      assert Takes(cards'[k], ByDriver(cards[k].driver));
      GrowthKeepsListed(cards', final, name);
    }
  }

  /** A card is left without a device only when the probe of its own module could not help it. */
  lemma {:induction false} EmptyForAReason(cards: seq<Card>, i: nat, n: nat, replies: nat -> Reply, k: nat)
    requires i <= k < |cards| && IsSystem(replies)
    requires |Run(cards, ModuleCalls(cards, i, n, replies))| == |cards|
    requires Run(cards, ModuleCalls(cards, i, n, replies))[k].device == ""
    ensures exists c :: c in ModuleCalls(cards, i, n, replies)
              && CouldNotHelp(Run(cards, ModuleCalls(cards, i, n, replies)), k, c)
    decreases |cards| - i
  {
    var final := Run(cards, ModuleCalls(cards, i, n, replies));
    if cards[i].device != "" {
      assert i == k ==> cards[k].device != "";
      RunGrows(cards, ModuleCalls(cards, i, n, replies));
      EmptyForAReason(cards, i + 1, n, replies, k);
    } else {
      var c := CallWith(Some(cards[i].driver), replies(n));
      var cards' := Probe(cards, c);
      ProbeKeepsLength(cards, c);
      assert ModuleCalls(cards, i, n, replies)[1..] == ModuleCalls(cards', i + 1, n + 1, replies);
      RunGrows(cards', ModuleCalls(cards', i + 1, n + 1, replies));
      if i < k {
        EmptyForAReason(cards', i + 1, n + 1, replies, k);
        var d :| d in ModuleCalls(cards', i + 1, n + 1, replies) && CouldNotHelp(final, k, d);
        assert d in ModuleCalls(cards, i, n, replies);
      } else {
        OwnProbe(cards, final, k, c);
        assert c in ModuleCalls(cards, i, n, replies);
      }
    }
  }

  /** After a scan, a card is without a device only if the probe of its module could not help it. */
  lemma ScanLeavesEmptyForAReason(
    setup: bool, hw: seq<Hardware>, eth: Settings, present: set<string>, sys: Sysfs, replies: nat -> Reply, k: nat)
    requires IsSystem(replies) && k < |Scanned(setup, hw, eth, present, sys, replies)|
    requires Scanned(setup, hw, eth, present, sys, replies)[k].device == ""
    ensures exists c :: c in AllCalls(Start(setup, hw, eth, present, sys), replies)
              && CouldNotHelp(Scanned(setup, hw, eth, present, sys, replies), k, c)
  {
    var probed, final := Probed(setup, hw, eth, present, sys, replies), Scanned(setup, hw, eth, present, sys, replies);
    ProbedLeavesEmptyForAReason(setup, hw, eth, present, sys, replies, k);
    var c :| c in AllCalls(Start(setup, hw, eth, present, sys), replies) && CouldNotHelp(probed, k, c);
    MadeUpCardsHaveDevices(setup, hw, eth, present, sys, replies);
    assert final[k] == probed[k];
    forall name | Listed(probed, name)
      ensures Listed(final, name)
    {
      OverwrittenLists(probed, |Detected(hw)|, ReadLast(setup, hw, eth, present, sys, replies), name);
    }
    assert CouldNotHelp(final, k, c);
  }

  lemma OverwrittenLists(cards: seq<Card>, n: nat, info: Info, name: string)
    requires n <= |cards|
    ensures Listed(Overwritten(cards, n, info), name) <==> Listed(cards, name)
  {
    var r := Overwritten(cards, n, info);
    if Listed(cards, name) {
      var i :| 0 <= i < |cards| && cards[i].device != "" && cards[i].device == name;
      assert r[i].device == name;
    }
  }

  lemma {:induction false} AdoptedHaveDevices(cards: seq<Card>, configured: seq<Configured>, present: set<string>, sys: Sysfs, n: nat)
    requires n <= |cards| && forall k :: n <= k < |cards| ==> cards[k].device != ""
    ensures forall k :: n <= k < |AdoptAll(cards, configured, present, sys)| ==>
              AdoptAll(cards, configured, present, sys)[k].device != ""
    decreases |configured|
  {
    if configured != [] {
      AdoptedHaveDevices(Adopt(cards, configured[0], present, sys), configured[1..], present, sys, n);
    }
  }

  lemma MadeUpCardsHaveDevices(
    setup: bool, hw: seq<Hardware>, eth: Settings, present: set<string>, sys: Sysfs, replies: nat -> Reply)
    ensures var r := Probed(setup, hw, eth, present, sys, replies);
            forall k :: |Detected(hw)| <= k < |r| ==> r[k].device != ""
  {
    var start := Start(setup, hw, eth, present, sys);
    AdoptedHaveDevices(Detected(hw), ConfiguredIn(eth), present, sys, |Detected(hw)|);
    RunGrows(start, AllCalls(start, replies));
    AllCallsKeepLength(start, replies);
  }

  lemma AllCallsKeepLength(cards: seq<Card>, replies: nat -> Reply)
    ensures |Run(cards, AllCalls(cards, replies))| == |cards|
  {
    var c := CallWith(None, replies(0));
    ProbeKeepsLength(cards, c);
    assert AllCalls(cards, replies)[1..] == ModuleCalls(Probe(cards, c), 0, 1, replies);
    ModuleCallsKeepLength(Probe(cards, c), 0, 1, replies);
  }

  lemma ProbedLeavesEmptyForAReason(
    setup: bool, hw: seq<Hardware>, eth: Settings, present: set<string>, sys: Sysfs, replies: nat -> Reply, k: nat)
    requires IsSystem(replies) && k < |Probed(setup, hw, eth, present, sys, replies)|
    requires Probed(setup, hw, eth, present, sys, replies)[k].device == ""
    ensures exists c :: c in AllCalls(Start(setup, hw, eth, present, sys), replies)
              && CouldNotHelp(Probed(setup, hw, eth, present, sys, replies), k, c)
  {
    var start := Start(setup, hw, eth, present, sys);
    var first := Probe(start, CallWith(None, replies(0)));
    assert AllCalls(start, replies)[1..] == ModuleCalls(first, 0, 1, replies);
    ModuleCallsKeepLength(first, 0, 1, replies);
    EmptyForAReason(first, 0, 1, replies, k);
    var c :| c in ModuleCalls(first, 0, 1, replies) && CouldNotHelp(Probed(setup, hw, eth, present, sys, replies), k, c);
    assert c in AllCalls(start, replies);
  }

  lemma {:induction false} DetectedIsBlank(hw: seq<Hardware>)
    ensures forall k :: 0 <= k < |Detected(hw)| ==>
              Detected(hw)[k].device == "" && Detected(hw)[k].address == "" && Detected(hw)[k].colour == NoColour
  {
    if hw != [] {
      DetectedIsBlank(hw[..|hw| - 1]);
    }
  }

  lemma {:induction false} RunKeepsColours(cards: seq<Card>, calls: seq<Call>)
    ensures Unique(Run(cards, calls)) <==> Unique(cards)
    ensures forall c :: c != NoColour ==> (Used(Run(cards, calls), c) <==> Used(cards, c))
    decreases |calls|
  {
    if calls != [] {
      ProbeKeepsColours(cards, calls[0]);
      RunKeepsColours(Probe(cards, calls[0]), calls[1..]);
    }
  }

  // ---- when a scan lists no device twice ----

  ghost predicate KeepsDevices(cards: seq<Card>, cards': seq<Card>) {
    |cards| <= |cards'| && forall k :: 0 <= k < |cards| && cards[k].device != "" ==> cards'[k].device == cards[k].device
  }

  lemma UnsoundStays(cards: seq<Card>, cards': seq<Card>)
    requires !Sound(cards) && KeepsDevices(cards, cards')
    ensures !Sound(cards')
  {
    if k :| 0 <= k < |cards| && cards[k].device != "" && Hidden(cards[k].device) {
      assert Hidden(cards'[k].device);
    } else {
      var i, j :| 0 <= i < j < |cards| && cards[i].device != "" && cards[i].device == cards[j].device;
      assert cards'[i].device == cards'[j].device;
    }
  }

  lemma {:induction false} AdoptAllKeepsDevices(cards: seq<Card>, configured: seq<Configured>, present: set<string>, sys: Sysfs)
    ensures KeepsDevices(cards, AdoptAll(cards, configured, present, sys))
    decreases |configured|
  {
    if configured != [] {
      AdoptAllKeepsDevices(Adopt(cards, configured[0], present, sys), configured[1..], present, sys);
    }
  }

  /** Attaching a configured device keeps the devices distinct exactly when the device is neither hidden
      nor listed. */
  lemma AdoptIsSoundIff(cards: seq<Card>, c: Configured, present: set<string>, sys: Sysfs)
    requires Sound(cards)
    ensures Sound(Adopt(cards, c, present, sys))
       <==> (Attaches(cards, c, present, sys) ==> !Hidden(c.device) && !Listed(cards, c.device))
  {
    if Attaches(cards, c, present, sys) {
      var k, r := SlotFor(cards, c, sys), Adopt(cards, c, present, sys);
      assert r[k].device == c.device;
      if Listed(cards, c.device) {
        var i :| 0 <= i < |cards| && cards[i].device != "" && cards[i].device == c.device;
        assert i != k && r[i].device == r[k].device;
      } else {
        assert forall i :: 0 <= i < |r| && i != k ==> i < |cards| && r[i] == cards[i] && r[i].device != c.device;
      }
    }
  }

  /** Every configured device that is attached is, at its turn, neither hidden nor listed. */
  ghost predicate AttachesOnce(cards: seq<Card>, configured: seq<Configured>, present: set<string>, sys: Sysfs)
    decreases |configured|
  {
    configured == []
    || (&& (Attaches(cards, configured[0], present, sys) ==> !Hidden(configured[0].device) && !Listed(cards, configured[0].device))
        && AttachesOnce(Adopt(cards, configured[0], present, sys), configured[1..], present, sys))
  }

  lemma {:induction false} AdoptAllIsSoundIff(cards: seq<Card>, configured: seq<Configured>, present: set<string>, sys: Sysfs)
    requires Sound(cards)
    ensures Sound(AdoptAll(cards, configured, present, sys)) <==> AttachesOnce(cards, configured, present, sys)
    decreases |configured|
  {
    if configured != [] {
      var next := Adopt(cards, configured[0], present, sys);
      AdoptIsSoundIff(cards, configured[0], present, sys);
      if Sound(next) {
        AdoptAllIsSoundIff(next, configured[1..], present, sys);
      } else {
        AdoptAllKeepsDevices(next, configured[1..], present, sys);
        UnsoundStays(next, AdoptAll(next, configured[1..], present, sys));
      }
    }
  }

  lemma RunIsSoundIff(cards: seq<Card>, calls: seq<Call>)
    requires forall i :: 0 <= i < |calls| ==> Distinct(calls[i].names)
    ensures Sound(Run(cards, calls)) <==> Sound(cards)
  {
    if Sound(cards) {
      RunKeepsSound(cards, calls);
    } else {
      RunGrows(cards, calls);
      UnsoundStays(cards, Run(cards, calls));
    }
  }

  /** A scan of an installed system lists no device twice, and no hidden one, exactly when no device that
      the settings name is attached while it is hidden or listed already. */
  lemma ScanIsSoundIff(hw: seq<Hardware>, eth: Settings, present: set<string>, sys: Sysfs, replies: nat -> Reply)
    requires IsSystem(replies)
    ensures Sound(Scanned(true, hw, eth, present, sys, replies)) <==> AttachesOnce(Detected(hw), ConfiguredIn(eth), present, sys)
  {
    DetectedIsBlank(hw);
    AdoptAllIsSoundIff(Detected(hw), ConfiguredIn(eth), present, sys);
    AllCallsAreDistinct(Start(true, hw, eth, present, sys), replies);
    RunIsSoundIff(Start(true, hw, eth, present, sys), AllCalls(Start(true, hw, eth, present, sys), replies));
    OverwrittenIsAlike(Probed(true, hw, eth, present, sys, replies), |Detected(hw)|, ReadLast(true, hw, eth, present, sys, replies));
  }

  lemma OverwrittenIsAlike(cards: seq<Card>, n: nat, info: Info)
    requires n <= |cards|
    ensures Sound(Overwritten(cards, n, info)) <==> Sound(cards)
    ensures Unique(Overwritten(cards, n, info)) <==> Unique(cards)
    ensures forall c :: Used(Overwritten(cards, n, info), c) <==> Used(cards, c)
  {
    var r := Overwritten(cards, n, info);
    assert forall i :: 0 <= i < |r| ==> r[i].device == cards[i].device && r[i].colour == cards[i].colour;
    forall c | Used(cards, c)
      ensures Used(r, c)
    {
      var i :| 0 <= i < |cards| && cards[i].colour == c;
      assert r[i].colour == c;
    }
  }

  // ---- when a scan gives no colour twice ----

  lemma AdoptKeepsDressed(cards: seq<Card>, c: Configured, present: set<string>, sys: Sysfs)
    requires Dressed(cards)
    ensures Dressed(Adopt(cards, c, present, sys))
    ensures forall k :: 0 <= k < |cards| && cards[k].colour != NoColour ==> Adopt(cards, c, present, sys)[k] == cards[k]
  {
  }

  /** ... exactly when the colour is not in use. */
  lemma AdoptIsUniqueIff(cards: seq<Card>, c: Configured, present: set<string>, sys: Sysfs)
    requires Unique(cards) && Dressed(cards) && c.colour != NoColour
    ensures Unique(Adopt(cards, c, present, sys)) <==> (Attaches(cards, c, present, sys) ==> !Used(cards, c.colour))
  {
    if Attaches(cards, c, present, sys) {
      var k, r := SlotFor(cards, c, sys), Adopt(cards, c, present, sys);
      assert r[k].colour == c.colour && (k < |cards| ==> cards[k].colour == NoColour);
      if Used(cards, c.colour) {
        var i :| 0 <= i < |cards| && cards[i].colour == c.colour;
        assert r[i].colour == r[k].colour && i != k;
      }
    }
  }

  ghost predicate ColoursOnce(cards: seq<Card>, configured: seq<Configured>, present: set<string>, sys: Sysfs)
    decreases |configured|
  {
    configured == []
    || (&& (Attaches(cards, configured[0], present, sys) ==> !Used(cards, configured[0].colour))
        && ColoursOnce(Adopt(cards, configured[0], present, sys), configured[1..], present, sys))
  }

  lemma {:induction false} SharedColourStays(cards: seq<Card>, configured: seq<Configured>, present: set<string>, sys: Sysfs)
    requires Dressed(cards) && !Unique(cards)
    ensures !Unique(AdoptAll(cards, configured, present, sys))
    decreases |configured|
  {
    if configured != [] {
      var next := Adopt(cards, configured[0], present, sys);
      AdoptKeepsDressed(cards, configured[0], present, sys);
      var i, j :| 0 <= i < j < |cards| && cards[i].colour != NoColour && cards[i].colour == cards[j].colour;
      assert next[i] == cards[i] && next[j] == cards[j];
      SharedColourStays(next, configured[1..], present, sys);
    }
  }

  lemma {:induction false} AdoptAllIsUniqueIff(cards: seq<Card>, configured: seq<Configured>, present: set<string>, sys: Sysfs)
    requires Unique(cards) && Dressed(cards) && forall i :: 0 <= i < |configured| ==> configured[i].colour != NoColour
    ensures Unique(AdoptAll(cards, configured, present, sys)) <==> ColoursOnce(cards, configured, present, sys)
    decreases |configured|
  {
    if configured != [] {
      var next := Adopt(cards, configured[0], present, sys);
      AdoptIsUniqueIff(cards, configured[0], present, sys);
      AdoptKeepsDressed(cards, configured[0], present, sys);
      if Unique(next) {
        AdoptAllIsUniqueIff(next, configured[1..], present, sys);
      } else {
        SharedColourStays(next, configured[1..], present, sys);
      }
    }
  }

  lemma {:induction false} EntriesHaveColour(eth: Settings, c: Colour, n: nat)
    ensures forall i :: 0 <= i < |Entries(eth, c, n)| ==> Entries(eth, c, n)[i].colour == c
  {
    if n != 0 {
      EntriesHaveColour(eth, c, n - 1);
    }
  }

  lemma {:induction false} ConfiguredHaveColours(eth: Settings, k: nat)
    requires k <= 4
    ensures forall i :: 0 <= i < |EntriesAmong(eth, k)| ==> EntriesAmong(eth, k)[i].colour in COLOURS[..k]
  {
    if k != 0 {
      ConfiguredHaveColours(eth, k - 1);
      EntriesHaveColour(eth, COLOURS[k - 1], CountOf(eth, COLOURS[k - 1]));
    }
  }

  /** A scan of an installed system gives no colour to two cards exactly when no device is attached
      while its colour is in use. */
  lemma ScanIsUniqueIff(hw: seq<Hardware>, eth: Settings, present: set<string>, sys: Sysfs, replies: nat -> Reply)
    ensures Unique(Scanned(true, hw, eth, present, sys, replies)) <==> ColoursOnce(Detected(hw), ConfiguredIn(eth), present, sys)
  {
    DetectedIsBlank(hw);
    ConfiguredHaveColours(eth, 4);
    AdoptAllIsUniqueIff(Detected(hw), ConfiguredIn(eth), present, sys);
    RunKeepsColours(Start(true, hw, eth, present, sys), AllCalls(Start(true, hw, eth, present, sys), replies));
    OverwrittenIsAlike(Probed(true, hw, eth, present, sys, replies), |Detected(hw)|, ReadLast(true, hw, eth, present, sys, replies));
  }

  /** A fresh installation lists no device twice and colours no card. */
  lemma FreshScanIsClean(hw: seq<Hardware>, eth: Settings, present: set<string>, sys: Sysfs, replies: nat -> Reply)
    requires IsSystem(replies)
    ensures Sound(Scanned(false, hw, eth, present, sys, replies))
    ensures forall c :: c != NoColour ==> !Used(Scanned(false, hw, eth, present, sys, replies), c)
  {
    DetectedIsBlank(hw);
    AllCallsAreDistinct(Detected(hw), replies);
    RunIsSoundIff(Detected(hw), AllCalls(Detected(hw), replies));
    RunKeepsColours(Detected(hw), AllCalls(Detected(hw), replies));
    OverwrittenIsAlike(Probed(false, hw, eth, present, sys, replies), |Detected(hw)|, ReadLast(false, hw, eth, present, sys, replies));
  }
}
