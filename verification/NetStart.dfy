/** The state in which the card list is opened for the first time, as the scan leaves it
    (src/installer/networking.c:272-402, 744-750). */
module NetStart {

  import opened Decimals
  import opened Wrappers
  import opened NetTable
  import opened NetMatch
  import opened NetColours
  import opened NetSafety
  import opened NetRuns
  import opened NetScan

  /** Each colour either has one card or none. */
  ghost predicate OneEach(eth: Settings) {
    forall c :: c != NoColour ==> Says(eth, c, Count, "1") || NamesNobody(eth, c)
  }

  /** The module that the card will show: that of its slot or, for a card that is made up, that of the
      device that was read last. */
  function ShownDriver(cards: seq<Card>, c: Configured, sys: Sysfs, last: Info): string {
    if SlotFor(cards, c, sys) < |cards| then cards[SlotFor(cards, c, sys)].driver else last.driver
  }

  /** The hardware that a device is attached to is the one that the settings have noted. */
  predicate Recognises(cards: seq<Card>, c: Configured, eth: Settings, present: set<string>, sys: Sysfs, last: Info) {
    && Attaches(cards, c, present, sys)
    && Says(eth, c.colour, Driver, ShownDriver(cards, c, sys, last))
    && Says(eth, c.colour, Mac, sys(c.device).mac)
  }

  ghost predicate AllRecognised(
    cards: seq<Card>, configured: seq<Configured>, eth: Settings, present: set<string>, sys: Sysfs, last: Info)
    decreases |configured|
  {
    configured == []
    || (&& Recognises(cards, configured[0], eth, present, sys, last)
        && AllRecognised(Adopt(cards, configured[0], present, sys), configured[1..], eth, present, sys, last))
  }

  // ---- the entries of settings with at most one card per colour ----

  lemma AtoiOfDigit(d: nat)
    requires d < 10
    ensures Atoi([Digit(d)]) == d
  {
    assert [Digit(d)][1..] == "";
    assert LeadingNumber([Digit(d)], 0) == LeadingNumber("", d);
  }

  lemma FirstKeys(c: Colour)
    ensures EntryKey(c, 1, "DEV") == Key(c, Dev) && EntryKey(c, 1, "DRIVER") == Key(c, Driver)
  {
    assert Decimal(1) == "1";
    assert "_" + "1" + "_" + "DEV" == "_1_DEV" && "_" + "1" + "_" + "DRIVER" == "_1_DRIVER";
    SumOfFive(ColourText(c), "_", "1", "_", "DEV");
    SumOfFive(ColourText(c), "_", "1", "_", "DRIVER");
  }

  lemma SumOfFive(a: string, b: string, c: string, d: string, e: string)
    ensures a + b + c + d + e == a + (b + c + d + e)
  {
  }

  lemma OneEntry(eth: Settings, c: Colour)
    requires Says(eth, c, Count, "1")
    ensures Entries(eth, c, CountOf(eth, c)) == [Configured(c, Setting(eth, Key(c, Dev)), Get(eth, Key(c, Driver)))]
  {
    AtoiOfDigit(1);
    FirstKeys(c);
    assert Entries(eth, c, 0) == [];
  }

  lemma NoEntry(eth: Settings, c: Colour)
    requires NamesNobody(eth, c)
    ensures Entries(eth, c, CountOf(eth, c)) == []
  {
    AtoiOfDigit(0);
  }

  /** An entry as the settings of its colour give it. */
  ghost predicate IsEntry(eth: Settings, e: Configured) {
    e.colour != NoColour && Says(eth, e.colour, Count, "1") && e.device == Setting(eth, Key(e.colour, Dev))
  }

  ghost predicate Proper(eth: Settings, configured: seq<Configured>) {
    && (forall i :: 0 <= i < |configured| ==> IsEntry(eth, configured[i]))
    && (forall i, j :: 0 <= i < j < |configured| ==> configured[i].colour != configured[j].colour)
  }

  ghost predicate HasEntry(configured: seq<Configured>, c: Colour) {
    exists i :: 0 <= i < |configured| && configured[i].colour == c
  }

  predicate AmongFirst(c: Colour, k: nat)
    requires k <= 4
  {
    exists i :: 0 <= i < k && COLOURS[i] == c
  }

  /** The entries of the first k colours are those of the colours that count one card. */
  ghost predicate AreEntries(eth: Settings, configured: seq<Configured>, k: nat)
    requires k <= 4
  {
    && Proper(eth, configured)
    && forall c :: HasEntry(configured, c) <==> AmongFirst(c, k) && Says(eth, c, Count, "1")
  }

  lemma {:induction false} ConfiguredIsProper(eth: Settings, k: nat)
    requires OneEach(eth) && k <= 4
    ensures AreEntries(eth, EntriesAmong(eth, k), k)
  {
    if k != 0 {
      ConfiguredIsProper(eth, k - 1);
      var c := COLOURS[k - 1];
      if Says(eth, c, Count, "1") {
        OneEntry(eth, c);
        OneMoreColour(eth, EntriesAmong(eth, k - 1), Configured(c, Setting(eth, Key(c, Dev)), Get(eth, Key(c, Driver))), k);
      } else {
        NoEntry(eth, c);
        assert EntriesAmong(eth, k) == EntriesAmong(eth, k - 1);
      }
    }
  }

  lemma OneMoreColour(eth: Settings, before: seq<Configured>, e: Configured, k: nat)
    requires 0 < k <= 4 && AreEntries(eth, before, k - 1) && IsEntry(eth, e) && e.colour == COLOURS[k - 1]
    ensures AreEntries(eth, before + [e], k)
  {
    assert !AmongFirst(e.colour, k - 1);
    OneMoreIsProper(eth, before, e);
    assert forall c :: AmongFirst(c, k) <==> AmongFirst(c, k - 1) || c == e.colour;
  }

  lemma OneMoreIsProper(eth: Settings, before: seq<Configured>, e: Configured)
    requires Proper(eth, before) && IsEntry(eth, e) && !HasEntry(before, e.colour)
    ensures Proper(eth, before + [e])
    ensures forall c :: HasEntry(before + [e], c) <==> HasEntry(before, c) || c == e.colour
  {
    assert (before + [e])[|before|] == e;
    forall c | HasEntry(before, c)
      ensures HasEntry(before + [e], c)
    {
      var i :| 0 <= i < |before| && before[i].colour == c;
      assert (before + [e])[i].colour == c;
    }
  }

  // ---- what adopting them yields ----

  /** The settings name every coloured card by its device. */
  ghost predicate Named(cards: seq<Card>, eth: Settings) {
    forall n :: 0 <= n < |cards| && cards[n].colour != NoColour ==> Names(eth, cards[n].colour, cards[n], cards[n].device)
  }

  lemma AdoptColours(cards: seq<Card>, e: Configured, present: set<string>, sys: Sysfs, c: Colour)
    requires Dressed(cards) && e.colour != NoColour && c != NoColour
    ensures Used(Adopt(cards, e, present, sys), c) <==> Used(cards, c) || (c == e.colour && Attaches(cards, e, present, sys))
  {
    var r := Adopt(cards, e, present, sys);
    AdoptKeepsDressed(cards, e, present, sys);
    if Used(cards, c) {
      var i :| 0 <= i < |cards| && cards[i].colour == c;
      assert r[i].colour == c;
    }
    if Attaches(cards, e, present, sys) {
      assert r[SlotFor(cards, e, sys)].colour == e.colour;
    }
  }

  lemma {:induction false} ColoursAfterAdopting(
    cards: seq<Card>, configured: seq<Configured>, present: set<string>, sys: Sysfs, c: Colour)
    requires Dressed(cards) && c != NoColour && (forall i :: 0 <= i < |configured| ==> configured[i].colour != NoColour)
    ensures Used(cards, c) ==> Used(AdoptAll(cards, configured, present, sys), c)
    ensures Used(AdoptAll(cards, configured, present, sys), c) ==> Used(cards, c) || HasEntry(configured, c)
    ensures forall k :: 0 <= k < |cards| && cards[k].colour != NoColour ==> AdoptAll(cards, configured, present, sys)[k] == cards[k]
    ensures Dressed(AdoptAll(cards, configured, present, sys))
    decreases |configured|
  {
    if configured != [] {
      var next := Adopt(cards, configured[0], present, sys);
      AdoptKeepsDressed(cards, configured[0], present, sys);
      AdoptColours(cards, configured[0], present, sys, c);
      ColoursAfterAdopting(next, configured[1..], present, sys, c);
      if HasEntry(configured[1..], c) {
        var i :| 0 <= i < |configured[1..]| && configured[1..][i].colour == c;
        assert configured[i + 1].colour == c;
      }
    }
  }

  /** The slots are among the first n cards, those that were detected. */
  ghost predicate MadeUpFrom(cards: seq<Card>, n: nat) {
    n <= |cards| && forall k :: n <= k < |cards| ==> cards[k].device != ""
  }

  lemma OverwrittenAfterAdopting(cards: seq<Card>, e: Configured, present: set<string>, sys: Sysfs, n: nat, last: Info)
    requires MadeUpFrom(cards, n) && Attaches(cards, e, present, sys)
    ensures MadeUpFrom(Adopt(cards, e, present, sys), n)
    ensures var k := SlotFor(cards, e, sys);
            var w, w' := Overwritten(cards, n, last), Overwritten(Adopt(cards, e, present, sys), n, last);
            && k < |w'| <= |w| + 1
            && (forall i :: 0 <= i < |w'| && i != k ==> i < |w| && w'[i] == w[i])
            && (k < |w| ==> w[k].colour == cards[k].colour)
            && w'[k].colour == e.colour && w'[k].device == e.device && w'[k].address == sys(e.device).mac
            && w'[k].driver == ShownDriver(cards, e, sys, last)
  {
  }

  lemma RecognisedIsNamed(
    cards: seq<Card>, e: Configured, eth: Settings, present: set<string>, sys: Sysfs, n: nat, last: Info)
    requires MadeUpFrom(cards, n) && Dressed(cards) && IsEntry(eth, e) && Attaches(cards, e, present, sys)
    requires Named(Overwritten(cards, n, last), eth)
    ensures Named(Overwritten(Adopt(cards, e, present, sys), n, last), eth) <==> Recognises(cards, e, eth, present, sys, last)
  {
    var k, w' := SlotFor(cards, e, sys), Overwritten(Adopt(cards, e, present, sys), n, last);
    OverwrittenAfterAdopting(cards, e, present, sys, n, last);
    assert Names(eth, w'[k].colour, w'[k], w'[k].device) <==> Recognises(cards, e, eth, present, sys, last);
  }

  /** What the settings do not name does not come to be named. */
  lemma UnnamedStays(
    cards: seq<Card>, configured: seq<Configured>, eth: Settings, present: set<string>, sys: Sysfs, n: nat, last: Info)
    requires n <= |cards| && Dressed(cards) && (forall i :: 0 <= i < |configured| ==> configured[i].colour != NoColour)
    requires !Named(Overwritten(cards, n, last), eth)
    ensures !Named(Overwritten(AdoptAll(cards, configured, present, sys), n, last), eth)
  {
    var w, r := Overwritten(cards, n, last), AdoptAll(cards, configured, present, sys);
    var k :| 0 <= k < |w| && w[k].colour != NoColour && !Names(eth, w[k].colour, w[k], w[k].device);
    ColoursAfterAdopting(cards, configured, present, sys, w[k].colour);
    assert r[k] == cards[k] && Overwritten(r, n, last)[k] == w[k];
  }

  /** Adopting proper entries puts every one of them on a card that the settings name, exactly when all
      are recognised. */
  lemma {:induction false} AllNamedIffRecognised(
    cards: seq<Card>, configured: seq<Configured>, eth: Settings, present: set<string>, sys: Sysfs, n: nat, last: Info)
    requires MadeUpFrom(cards, n) && Dressed(cards) && Proper(eth, configured) && Named(Overwritten(cards, n, last), eth)
    requires forall i :: 0 <= i < |configured| ==> !Used(cards, configured[i].colour)
    ensures var r := AdoptAll(cards, configured, present, sys);
            AllRecognised(cards, configured, eth, present, sys, last)
            <==> Named(Overwritten(r, n, last), eth) && forall i :: 0 <= i < |configured| ==> Used(r, configured[i].colour)
    decreases |configured|
  {
    if configured != [] {
      var e, rest := configured[0], configured[1..];
      var next := Adopt(cards, e, present, sys);
      var r := AdoptAll(next, rest, present, sys);
      AdoptKeepsDressed(cards, e, present, sys);
      ColoursAfterAdopting(next, rest, present, sys, e.colour);
      AdoptColours(cards, e, present, sys, e.colour);
      NotAmongOthers(configured);
      if Attaches(cards, e, present, sys) {
        RecognisedIsNamed(cards, e, eth, present, sys, n, last);
        OverwrittenAfterAdopting(cards, e, present, sys, n, last);
        if Recognises(cards, e, eth, present, sys, last) {
          RestIsUnused(cards, configured, present, sys);
          AllNamedIffRecognised(next, rest, eth, present, sys, n, last);
          UsedHeadAndRest(r, configured);
        } else {
          UnnamedStays(next, rest, eth, present, sys, n, last);
        }
      } else {
        assert !Used(r, configured[0].colour);
      }
    }
  }

  lemma UsedHeadAndRest(r: seq<Card>, configured: seq<Configured>)
    requires configured != []
    ensures (forall i :: 0 <= i < |configured| ==> Used(r, configured[i].colour))
       <==> Used(r, configured[0].colour) && forall i :: 0 <= i < |configured[1..]| ==> Used(r, configured[1..][i].colour)
  {
    var rest := configured[1..];
    assert forall i :: 0 < i < |configured| ==> configured[i] == rest[i - 1];
    assert forall i :: 0 <= i < |rest| ==> rest[i] == configured[i + 1];
  }

  lemma RestIsUnused(cards: seq<Card>, configured: seq<Configured>, present: set<string>, sys: Sysfs)
    requires configured != [] && Dressed(cards) && (forall i :: 0 <= i < |configured| ==> configured[i].colour != NoColour)
    requires forall i, j :: 0 <= i < j < |configured| ==> configured[i].colour != configured[j].colour
    requires forall i :: 0 <= i < |configured| ==> !Used(cards, configured[i].colour)
    ensures var rest := configured[1..];
            forall i :: 0 <= i < |rest| ==> !Used(Adopt(cards, configured[0], present, sys), rest[i].colour)
  {
    forall i | 0 <= i < |configured[1..]|
      ensures !Used(Adopt(cards, configured[0], present, sys), configured[1..][i].colour)
    {
      assert configured[1..][i] == configured[i + 1];
      AdoptColours(cards, configured[0], present, sys, configured[i + 1].colour);
    }
  }

  lemma NotAmongOthers(configured: seq<Configured>)
    requires configured != [] && forall i, j :: 0 <= i < j < |configured| ==> configured[i].colour != configured[j].colour
    ensures !HasEntry(configured[1..], configured[0].colour)
  {
  }

  // ---- the scan and the start of a run ----

  lemma AgreesIsNamed(cards: seq<Card>, eth: Settings)
    ensures Agrees(cards, eth, false)
       <==> Named(cards, eth) && forall c :: c != NoColour && !Used(cards, c) ==> NamesNobody(eth, c)
  {
  }

  /** What the settings of an installed system say agrees with the cards that were found for it exactly when
      every colour has one card or none, and each device that they name is attached to hardware with the
      driver and the address that they note; a made-up card counts with the driver that was read last. */
  lemma StartAgreesIff(hw: seq<Hardware>, eth: Settings, present: set<string>, sys: Sysfs, last: Info)
    ensures Agrees(Overwritten(Start(true, hw, eth, present, sys), |Detected(hw)|, last), eth, false)
       <==> OneEach(eth) && AllRecognised(Detected(hw), ConfiguredIn(eth), eth, present, sys, last)
  {
    var cards, configured, n := Detected(hw), ConfiguredIn(eth), |Detected(hw)|;
    var start := Start(true, hw, eth, present, sys);
    var r := Overwritten(start, n, last);
    DetectedIsBlank(hw);
    AgreesIsNamed(r, eth);
    OverwrittenIsAlike(start, n, last);
    if Agrees(r, eth, false) {
      forall c | c != NoColour
        ensures Says(eth, c, Count, "1") || NamesNobody(eth, c)
      {
        if Used(r, c) {
          var n :| 0 <= n < |r| && r[n].colour == c;
          assert Names(eth, r[n].colour, r[n], r[n].device);
        }
      }
    }
    if OneEach(eth) {
      ConfiguredIsProper(eth, 4);
      AllNamedIffRecognised(cards, configured, eth, present, sys, n, last);
      EntriesAreColours(hw, eth, present, sys);
    }
  }

  /** If every entry is on a card, the colours in use are those that count one card. */
  lemma EntriesAreColours(hw: seq<Hardware>, eth: Settings, present: set<string>, sys: Sysfs)
    requires OneEach(eth)
    ensures var r, configured := Start(true, hw, eth, present, sys), ConfiguredIn(eth);
            (forall i :: 0 <= i < |configured| ==> Used(r, configured[i].colour))
            <==> (forall c :: c != NoColour && !Used(r, c) ==> NamesNobody(eth, c))
  {
    var r, configured := Start(true, hw, eth, present, sys), ConfiguredIn(eth);
    if forall i :: 0 <= i < |configured| ==> Used(r, configured[i].colour) {
      forall c | c != NoColour && !Used(r, c)
        ensures NamesNobody(eth, c)
      {
        CountedHasEntry(eth, c);
        assert !HasEntry(configured, c);
      }
    } else {
      ConfiguredIsProper(eth, 4);
      var i :| 0 <= i < |configured| && !Used(r, configured[i].colour);
      NamesNobodyHasCountNone(eth, configured[i]);
    }
  }

  lemma CountedHasEntry(eth: Settings, c: Colour)
    requires OneEach(eth) && c != NoColour
    ensures HasEntry(ConfiguredIn(eth), c) <==> Says(eth, c, Count, "1")
  {
    ConfiguredIsProper(eth, 4);
    assert COLOURS[0] == Green && COLOURS[1] == Red && COLOURS[2] == Blue && COLOURS[3] == Orange;
  }

  lemma NamesNobodyHasCountNone(eth: Settings, e: Configured)
    requires IsEntry(eth, e)
    ensures !NamesNobody(eth, e.colour)
  {
  }

  /** The coloured cards are the same, and no card is new that has a colour. */
  ghost predicate SameColoured(cards: seq<Card>, r: seq<Card>) {
    && |cards| <= |r|
    && (forall k :: 0 <= k < |cards| && cards[k].colour != NoColour ==> r[k] == cards[k])
    && (forall k :: 0 <= k < |r| ==> r[k].colour == if k < |cards| then cards[k].colour else NoColour)
  }

  lemma SameColouredAgrees(cards: seq<Card>, r: seq<Card>, eth: Settings)
    requires SameColoured(cards, r)
    ensures Agrees(r, eth, false) <==> Agrees(cards, eth, false)
  {
    forall c | c != NoColour
      ensures Used(r, c) <==> Used(cards, c)
    {
      if Used(cards, c) {
        var i :| 0 <= i < |cards| && cards[i].colour == c;
        assert r[i].colour == c;
      }
    }
  }

  lemma {:induction false} RunOfDressed(cards: seq<Card>, calls: seq<Call>)
    requires Dressed(cards)
    ensures SameColoured(cards, Run(cards, calls))
    decreases |calls|
  {
    if calls != [] {
      var r := Probe(cards, calls[0]);
      ProbeGrows(cards, calls[0]);
      forall k | 0 <= k < |r|
        ensures r[k].colour == if k < |cards| then cards[k].colour else NoColour
      {
        ColourAfterProbe(cards, calls[0], k);
      }
      RunOfDressed(r, calls[1..]);
    }
  }

  lemma OverwrittenSameColoured(cards: seq<Card>, r: seq<Card>, n: nat, last: Info)
    requires n <= |cards| && SameColoured(cards, r)
    ensures SameColoured(Overwritten(cards, n, last), Overwritten(r, n, last))
  {
  }

  /** The probes of a scan leave it as it is whether cards and settings agree. */
  lemma ScannedAgreesIffStart(
    setup: bool, hw: seq<Hardware>, eth: Settings, present: set<string>, sys: Sysfs, replies: nat -> Reply)
    ensures Agrees(Scanned(setup, hw, eth, present, sys, replies), eth, false)
       <==> Agrees(Overwritten(Start(setup, hw, eth, present, sys), |Detected(hw)|,
                               ReadLast(setup, hw, eth, present, sys, replies)), eth, false)
  {
    var start, n, last := Start(setup, hw, eth, present, sys), |Detected(hw)|, ReadLast(setup, hw, eth, present, sys, replies);
    StartIsDressed(setup, hw, eth, present, sys);
    RunOfDressed(start, AllCalls(start, replies));
    OverwrittenSameColoured(start, Probed(setup, hw, eth, present, sys, replies), n, last);
    SameColouredAgrees(Overwritten(start, n, last), Scanned(setup, hw, eth, present, sys, replies), eth);
  }

  lemma StartIsDressed(setup: bool, hw: seq<Hardware>, eth: Settings, present: set<string>, sys: Sysfs)
    ensures Dressed(Start(setup, hw, eth, present, sys))
  {
    DetectedIsBlank(hw);
    if setup {
      ConfiguredHaveColours(eth, 4);
      ColoursAfterAdopting(Detected(hw), ConfiguredIn(eth), present, sys, Green);
    }
  }

  lemma {:induction false} AdoptAllKeepsAddressed(cards: seq<Card>, configured: seq<Configured>, present: set<string>, sys: Sysfs)
    requires Addressed(cards)
    ensures Addressed(AdoptAll(cards, configured, present, sys))
    decreases |configured|
  {
    if configured != [] {
      AdoptAllKeepsAddressed(Adopt(cards, configured[0], present, sys), configured[1..], present, sys);
    }
  }

  lemma {:induction false} RunKeepsAddressed(cards: seq<Card>, calls: seq<Call>)
    requires Addressed(cards) && forall i :: 0 <= i < |calls| ==> "" !in calls[i].names
    ensures Addressed(Run(cards, calls))
    decreases |calls|
  {
    if calls != [] {
      ProbeKeepsAddressed(cards, calls[0]);
      RunKeepsAddressed(Probe(cards, calls[0]), calls[1..]);
    }
  }

  /** After a scan no card has an address but no device, as the runs of the dialog need it. */
  lemma ScannedIsAddressed(
    setup: bool, hw: seq<Hardware>, eth: Settings, present: set<string>, sys: Sysfs, replies: nat -> Reply)
    requires IsSystem(replies)
    ensures Addressed(Scanned(setup, hw, eth, present, sys, replies))
  {
    var start := Start(setup, hw, eth, present, sys);
    DetectedIsBlank(hw);
    AdoptAllKeepsAddressed(Detected(hw), ConfiguredIn(eth), present, sys);
    AllCallsAreDistinct(start, replies);
    RunKeepsAddressed(start, AllCalls(start, replies));
  }

  /** Where the card list starts. */
  function Opened(cards: seq<Card>, eth: Settings, redType: string, changed: bool): State {
    State(cards, eth, redType, changed, false, [], false, false)
  }

  lemma AgreeingIsUnique(hw: seq<Hardware>, eth: Settings, present: set<string>, sys: Sysfs)
    requires OneEach(eth)
    ensures Unique(Start(true, hw, eth, present, sys))
  {
    DetectedIsBlank(hw);
    ConfiguredIsProper(eth, 4);
    ProperIsUnique(Detected(hw), ConfiguredIn(eth), eth, present, sys);
  }

  lemma {:induction false} ProperIsUnique(
    cards: seq<Card>, configured: seq<Configured>, eth: Settings, present: set<string>, sys: Sysfs)
    requires Unique(cards) && Dressed(cards) && Proper(eth, configured)
    requires forall i :: 0 <= i < |configured| ==> !Used(cards, configured[i].colour)
    ensures Unique(AdoptAll(cards, configured, present, sys))
    decreases |configured|
  {
    if configured != [] {
      var next := Adopt(cards, configured[0], present, sys);
      AdoptIsUniqueIff(cards, configured[0], present, sys);
      AdoptKeepsDressed(cards, configured[0], present, sys);
      RestIsUnused(cards, configured, present, sys);
      ProperIsUnique(next, configured[1..], eth, present, sys);
    }
  }

  /** On an installed system, the card list is opened with cards and settings in step exactly when the
      settings give each colour one card or none and all of these are recognised. */
  lemma SetupStartsInStepIff(
    hw: seq<Hardware>, eth: Settings, present: set<string>, sys: Sysfs, replies: nat -> Reply, redType: string, changed: bool)
    ensures InStep(Opened(Scanned(true, hw, eth, present, sys, replies), eth, redType, changed))
       <==> OneEach(eth) && AllRecognised(Detected(hw), ConfiguredIn(eth), eth, present, sys,
                                          ReadLast(true, hw, eth, present, sys, replies))
  {
    var start, last := Start(true, hw, eth, present, sys), ReadLast(true, hw, eth, present, sys, replies);
    StartAgreesIff(hw, eth, present, sys, last);
    ScannedAgreesIffStart(true, hw, eth, present, sys, replies);
    RunKeepsColours(start, AllCalls(start, replies));
    OverwrittenIsAlike(Probed(true, hw, eth, present, sys, replies), |Detected(hw)|, last);
    if OneEach(eth) {
      AgreeingIsUnique(hw, eth, present, sys);
    }
  }

  /** On a fresh installation, exactly when the settings name no card. */
  lemma InstallationStartsInStepIff(
    hw: seq<Hardware>, eth: Settings, present: set<string>, sys: Sysfs, replies: nat -> Reply, redType: string, changed: bool)
    ensures InStep(Opened(Scanned(false, hw, eth, present, sys, replies), eth, redType, changed))
       <==> forall c :: c != NoColour ==> NamesNobody(eth, c)
  {
    var last := ReadLast(false, hw, eth, present, sys, replies);
    DetectedIsBlank(hw);
    ScannedAgreesIffStart(false, hw, eth, present, sys, replies);
    RunKeepsColours(Detected(hw), AllCalls(Detected(hw), replies));
    OverwrittenIsAlike(Probed(false, hw, eth, present, sys, replies), |Detected(hw)|, last);
  }

  // ---- a scan that lists a device twice ----

  const Twin := Hardware(true, "e100", "Onboard", "8086", "103b")
  const TwinInfo := Info("e100", "8086", "103b", "00:0e")
  const EthTwice := map[Key(Green, Count) := "1", Key(Green, Dev) := "eth0", Key(Blue, Count) := "1", Key(Blue, Dev) := "eth0"]

  lemma EntriesOfEthTwice()
    ensures ConfiguredIn(EthTwice) == [Configured(Green, "eth0", None), Configured(Blue, "eth0", None)]
  {
    forall c: Colour, f: Field
      ensures Get(EthTwice, Key(c, f)) == if c != Green && c != Blue then None
                                          else if f == Count then Some("1") else if f == Dev then Some("eth0") else None
    {
      KeysDiffer(c, f, Green, Count);
      KeysDiffer(c, f, Green, Dev);
      KeysDiffer(c, f, Blue, Count);
      KeysDiffer(c, f, Blue, Dev);
    }
    OneEntry(EthTwice, Green);
    NoEntry(EthTwice, Red);
    OneEntry(EthTwice, Blue);
    NoEntry(EthTwice, Orange);
    assert COLOURS == [Green, Red, Blue, Orange];
    assert EntriesAmong(EthTwice, 0) == [];
    assert EntriesAmong(EthTwice, 2) == EntriesAmong(EthTwice, 1) == [Configured(Green, "eth0", None)];
    assert EntriesAmong(EthTwice, 4) == EntriesAmong(EthTwice, 3);
  }

  lemma AttachedAgain(cards: seq<Card>, a: Configured, b: Configured, present: set<string>, sys: Sysfs)
    requires a.device == b.device && Attaches(cards, a, present, sys) && Attaches(Adopt(cards, a, present, sys), b, present, sys)
    ensures !AttachesOnce(cards, [a, b], present, sys)
  {
    var next := Adopt(cards, a, present, sys);
    assert next[SlotFor(cards, a, sys)].device == b.device;
    assert Listed(next, b.device);
    assert [a, b][1..] == [b];
  }

  lemma BothTwinsAttach()
    ensures var sys := (name: string) => TwinInfo;
            var cards, a, b := Detected([Twin, Twin]), Configured(Green, "eth0", None), Configured(Blue, "eth0", None);
            Attaches(cards, a, {"eth0"}, sys) && Attaches(Adopt(cards, a, {"eth0"}, sys), b, {"eth0"}, sys)
  {
  }

  /** Settings that give one device to two colours, and two cards of one kind: the device is listed
      twice. */
  lemma RepeatedDeviceIsListedTwice(replies: nat -> Reply)
    requires IsSystem(replies)
    ensures !Sound(Scanned(true, [Twin, Twin], EthTwice, {"eth0"}, (name: string) => TwinInfo, replies))
  {
    EntriesOfEthTwice();
    BothTwinsAttach();
    AttachedAgain(Detected([Twin, Twin]), Configured(Green, "eth0", None), Configured(Blue, "eth0", None), {"eth0"},
                  (name: string) => TwinInfo);
    ScanIsSoundIff([Twin, Twin], EthTwice, {"eth0"}, (name: string) => TwinInfo, replies);
  }
}
