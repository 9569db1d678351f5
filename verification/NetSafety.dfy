/** What holds over every run of the card list (src/installer/networking.c:492-659, 744-838):
    a colour is on one card at most, the settings say which, and the udev names do not collide. */
module NetSafety {

  import opened Wrappers
  import opened NetTable
  import opened NetMatch
  import opened NetColours

  ghost predicate Unique(cards: seq<Card>) {
    forall i, j :: 0 <= i < j < |cards| && cards[i].colour != NoColour ==> cards[i].colour != cards[j].colour
  }

  /** A card that has a colour has a device. */
  ghost predicate Dressed(cards: seq<Card>) {
    forall i :: 0 <= i < |cards| && cards[i].colour != NoColour ==> cards[i].device != ""
  }

  predicate Says(eth: Settings, c: Colour, f: Field, value: string) {
    Key(c, f) in eth && eth[Key(c, f)] == value
  }

  predicate SaysNone(eth: Settings, c: Colour, f: Field, none: string) {
    Key(c, f) !in eth || eth[Key(c, f)] == none
  }

  /** The settings of colour c name this card, with this device. */
  predicate Names(eth: Settings, c: Colour, card: Card, device: string) {
    Says(eth, c, Count, "1") && Says(eth, c, Dev, device) && Says(eth, c, Driver, card.driver) && Says(eth, c, Mac, card.address)
  }

  predicate NamesNobody(eth: Settings, c: Colour) {
    SaysNone(eth, c, Count, "0") && SaysNone(eth, c, Dev, "") && SaysNone(eth, c, Driver, "") && SaysNone(eth, c, Mac, "")
  }

  /** The settings of its colour name this card: by its device, or, once udev rules have been written,
      by the name that its rule gives it. */
  predicate Fits(eth: Settings, card: Card, renamed: bool) {
    || Names(eth, card.colour, card, card.device)
    || (renamed && card.address != "" && Names(eth, card.colour, card, ColourName(card.colour)))
  }

  /** The settings of every colour agree with its owner, if it has one. */
  ghost predicate Agrees(cards: seq<Card>, eth: Settings, renamed: bool) {
    && (forall n :: 0 <= n < |cards| && cards[n].colour != NoColour ==> Fits(eth, cards[n], renamed))
    && (forall c :: c != NoColour && !Used(cards, c) ==> NamesNobody(eth, c))
  }

  /** A card without a device has no address. */
  ghost predicate Addressed(cards: seq<Card>) {
    forall k :: 0 <= k < |cards| && cards[k].device == "" ==> cards[k].address == ""
  }

  lemma KeysDiffer(c: Colour, f: Field, c': Colour, f': Field)
    ensures Key(c, f) == Key(c', f') ==> c == c' && f == f'
    ensures Key(c, f) != RED_TYPE
  {
    var k, k', p, p' := Key(c, f), Key(c', f'), |ColourText(c)|, |ColourText(c')|;
    assert k[0] == ColourText(c)[0] && k'[0] == ColourText(c')[0];
    if k == k' {
      assert c == c';
      assert k[p..] == Suffix(f) && k'[p..] == Suffix(f');
      assert Suffix(f) == Suffix(f') ==> |Suffix(f)| == |Suffix(f')| && Suffix(f)[3] == Suffix(f')[3];
    }
  }

  /** A change of the settings that touches at most colour c. */
  ghost predicate OnlyTouches(eth: Settings, eth': Settings, c: Colour) {
    forall c', f :: c' != c ==> Get(eth', Key(c', f)) == Get(eth, Key(c', f))
  }

  lemma FourKeysDiffer(c: Colour, c': Colour, f: Field)
    requires c' != c
    ensures Key(c', f) !in {Key(c, Dev), Key(c, Driver), Key(c, Mac), Key(c, Count)}
  {
    KeysDiffer(c', f, c, Dev);
    KeysDiffer(c', f, c, Driver);
    KeysDiffer(c', f, c, Mac);
    KeysDiffer(c', f, c, Count);
  }

  lemma OwnKeysDiffer(c: Colour)
    ensures Key(c, Dev) != Key(c, Driver) && Key(c, Dev) != Key(c, Mac) && Key(c, Dev) != Key(c, Count)
    ensures Key(c, Driver) != Key(c, Mac) && Key(c, Driver) != Key(c, Count) && Key(c, Mac) != Key(c, Count)
  {
    KeysDiffer(c, Dev, c, Driver);
    KeysDiffer(c, Dev, c, Mac);
    KeysDiffer(c, Dev, c, Count);
    KeysDiffer(c, Driver, c, Mac);
    KeysDiffer(c, Driver, c, Count);
    KeysDiffer(c, Mac, c, Count);
  }

  lemma ClearedSettings(eth: Settings, c: Colour)
    ensures NamesNobody(Cleared(eth, c), c) && OnlyTouches(eth, Cleared(eth, c), c)
  {
    OwnKeysDiffer(c);
    forall c', f | c' != c
      ensures Get(Cleared(eth, c), Key(c', f)) == Get(eth, Key(c', f))
    {
      FourKeysDiffer(c, c', f);
    }
  }

  lemma StoredSettings(eth: Settings, c: Colour, card: Card)
    ensures Names(Stored(eth, c, card), c, card, card.device) && OnlyTouches(eth, Stored(eth, c, card), c)
  {
    OwnKeysDiffer(c);
    forall c', f | c' != c
      ensures Get(Stored(eth, c, card), Key(c', f)) == Get(eth, Key(c', f))
    {
      FourKeysDiffer(c, c', f);
    }
  }

  lemma UntouchedColour(eth: Settings, eth': Settings, c: Colour, c': Colour)
    requires OnlyTouches(eth, eth', c) && c' != c
    ensures NamesNobody(eth, c') ==> NamesNobody(eth', c')
    ensures forall card, device :: Names(eth, c', card, device) ==> Names(eth', c', card, device)
  {
    assert forall f :: Get(eth', Key(c', f)) == Get(eth, Key(c', f));
  }

  lemma UntouchedCard(eth: Settings, eth': Settings, c: Colour, card: Card, renamed: bool)
    requires OnlyTouches(eth, eth', c) && card.colour != c && Fits(eth, card, renamed)
    ensures Fits(eth', card, renamed)
  {
    UntouchedColour(eth, eth', c, card.colour);
  }

  // ---- configuring one card ----

  lemma Recoloured(cards: seq<Card>, n: nat, c: Colour, other: Colour)
    requires n < |cards| && other != c && cards[n].colour != other
    ensures Used(cards[n := cards[n].(colour := c)], other) <==> Used(cards, other)
  {
    var cards' := cards[n := cards[n].(colour := c)];
    assert forall j :: 0 <= j < |cards| ==> (cards'[j].colour == other <==> cards[j].colour == other);
  }

  lemma TakeColourAway(cards: seq<Card>, eth: Settings, n: nat, renamed: bool)
    requires n < |cards| && cards[n].colour != NoColour && Unique(cards) && Agrees(cards, eth, renamed)
    ensures Agrees(cards[n := cards[n].(colour := NoColour)], Cleared(eth, cards[n].colour), renamed)
  {
    var c := cards[n].colour;
    var cards', eth' := cards[n := cards[n].(colour := NoColour)], Cleared(eth, c);
    ClearedSettings(eth, c);
    forall k | 0 <= k < |cards'| && cards'[k].colour != NoColour
      ensures Fits(eth', cards'[k], renamed)
    {
      assert cards'[k] == cards[k];
      UntouchedCard(eth, eth', c, cards[k], renamed);
    }
    forall c' | c' != NoColour && !Used(cards', c')
      ensures NamesNobody(eth', c')
    {
      if c' != c {
        Recoloured(cards, n, NoColour, c');
        UntouchedColour(eth, eth', c, c');
      }
    }
  }

  lemma GiveColour(cards: seq<Card>, eth: Settings, n: nat, c: Colour, renamed: bool)
    requires n < |cards| && cards[n].colour == NoColour && c != NoColour && !Used(cards, c) && Agrees(cards, eth, renamed)
    ensures Agrees(cards[n := cards[n].(colour := c)], Stored(eth, c, cards[n]), renamed)
  {
    var cards', eth' := cards[n := cards[n].(colour := c)], Stored(eth, c, cards[n]);
    StoredSettings(eth, c, cards[n]);
    forall k | 0 <= k < |cards'| && cards'[k].colour != NoColour
      ensures Fits(eth', cards'[k], renamed)
    {
      if k != n {
        assert cards'[k] == cards[k] && cards[k].colour != c;
        UntouchedCard(eth, eth', c, cards[k], renamed);
      }
    }
    forall c' | c' != NoColour && !Used(cards', c')
      ensures NamesNobody(eth', c')
    {
      assert cards'[n].colour == c;
      Recoloured(cards, n, c, c');
      UntouchedColour(eth, eth', c, c');
    }
  }

  lemma {:induction false} OfferedIsFree(cards: seq<Card>, redType: string, k: nat, c: Colour)
    requires k <= 4
    ensures c in OfferedAmong(cards, redType, k) ==> c != NoColour && !Used(cards, c) && !(c == Red && DialUp(redType))
    ensures (exists i :: 0 <= i < k && COLOURS[i] == c) && !Used(cards, c) && !(c == Red && DialUp(redType))
            ==> c in OfferedAmong(cards, redType, k)
  {
    if k != 0 {
      OfferedIsFree(cards, redType, k - 1, c);
    }
  }

  /** The menu of a card offers a colour exactly when no card has it and it can be a card at all. */
  lemma MenuIsExact(cards: seq<Card>, redType: string, c: Colour)
    requires c != NoColour
    ensures c in Offered(cards, redType) <==> !Used(cards, c) && !(c == Red && DialUp(redType))
  {
    OfferedIsFree(cards, redType, 4, c);
    assert COLOURS[0] == Green && COLOURS[1] == Red && COLOURS[2] == Blue && COLOURS[3] == Orange;
  }

  lemma UsedAfterTakingAway(cards: seq<Card>, n: nat, c: Colour)
    requires n < |cards| && c != NoColour && !Used(cards, c)
    ensures !Used(cards[n := cards[n].(colour := NoColour)], c)
  {
  }

  lemma AssignKeepsAgreement(cards: seq<Card>, eth: Settings, n: nat, c: Colour, renamed: bool)
    requires n < |cards| && Unique(cards) && Agrees(cards, eth, renamed) && (c != NoColour ==> !Used(cards, c))
    ensures var (cards', eth') := Assign(cards, eth, n, c); Unique(cards') && Agrees(cards', eth', renamed)
  {
    var bare := cards[n := cards[n].(colour := NoColour)];
    var eth1 := if cards[n].colour != NoColour then Cleared(eth, cards[n].colour) else eth;
    if cards[n].colour != NoColour {
      TakeColourAway(cards, eth, n, renamed);
    } else {
      assert bare == cards;
    }
    if c != NoColour {
      UsedAfterTakingAway(cards, n, c);
      GiveColour(bare, eth1, n, c, renamed);
      assert Stored(eth1, c, bare[n]) == Stored(eth1, c, cards[n]);
      assert bare[n := bare[n].(colour := c)] == cards[n := cards[n].(colour := c)];
    }
  }

  // ---- probing between configurations ----

  lemma {:induction false} NewCardsHaveNoColour(cards: seq<Card>, c: Call, k: nat)
    requires |cards| <= k < |Probe(cards, c)|
    ensures Probe(cards, c)[k].colour == NoColour
  {
    var found := Scan(cards, c.names);
    if c.driver.Some? && c.loads {
      var (filled, rest) := FillByDriver(cards, 0, c.driver.value, found, c.sys);
      if c.description.Some? {
        AppendAllExtends(filled, c.driver.value, c.options, c.description.value, rest, c.sys);
        var i := k - |filled|;
        assert Probe(cards, c)[|filled| + i] == NewCard(c.driver.value, c.options, c.description.value, rest[i], c.sys(rest[i]));
      }
    }
  }

  lemma ColourAfterProbe(cards: seq<Card>, c: Call, k: nat)
    requires k < |Probe(cards, c)|
    ensures Probe(cards, c)[k].colour == if k < |cards| then cards[k].colour else NoColour
  {
    if k < |cards| {
      ProbeGrows(cards, c);
      assert Probe(cards, c)[k] == cards[k].(device := Probe(cards, c)[k].device, address := Probe(cards, c)[k].address);
    } else {
      NewCardsHaveNoColour(cards, c, k);
    }
  }

  lemma ProbeKeepsColours(cards: seq<Card>, c: Call)
    ensures forall colour :: colour != NoColour ==> (Used(Probe(cards, c), colour) <==> Used(cards, colour))
    ensures Unique(Probe(cards, c)) <==> Unique(cards)
  {
    var cards' := Probe(cards, c);
    forall k | 0 <= k < |cards'|
      ensures cards'[k].colour == if k < |cards| then cards[k].colour else NoColour
    {
      ColourAfterProbe(cards, c, k);
    }
    forall colour | colour != NoColour
      ensures Used(cards', colour) <==> Used(cards, colour)
    {
      if Used(cards, colour) {
        var j :| 0 <= j < |cards| && cards[j].colour == colour;
        assert cards'[j].colour == colour;
      }
    }
  }

  /** The probe gives nothing to a card that already has a colour. */
  ghost predicate LeavesColoured(cards: seq<Card>, c: Call) {
    forall k :: 0 <= k < |cards| && cards[k].colour != NoColour ==> Probe(cards, c)[k] == cards[k]
  }

  lemma FilledDoesNotFit(eth: Settings, card: Card, card': Card, renamed: bool)
    requires Fits(eth, card, renamed) && (renamed && card.device == "" ==> card.address == "")
    requires card' == card.(device := card'.device, address := card'.address) && (card.device != "" ==> card' == card)
    ensures Fits(eth, card', renamed) <==> card' == card
  {
  }

  /** A probe leaves the settings in agreement exactly when it gives no device or address to a card
      that already has a colour. */
  lemma ProbeAndAgreement(cards: seq<Card>, eth: Settings, c: Call, renamed: bool)
    requires Agrees(cards, eth, renamed) && (renamed ==> Addressed(cards))
    ensures Agrees(Probe(cards, c), eth, renamed) <==> LeavesColoured(cards, c)
  {
    var cards' := Probe(cards, c);
    ProbeGrows(cards, c);
    ProbeKeepsColours(cards, c);
    forall k | 0 <= k < |cards| && cards[k].colour != NoColour
      ensures Fits(eth, cards'[k], renamed) <==> cards'[k] == cards[k]
    {
      FilledDoesNotFit(eth, cards[k], cards'[k], renamed);
    }
    forall k | |cards| <= k < |cards'|
      ensures cards'[k].colour == NoColour
    {
      NewCardsHaveNoColour(cards, c, k);
    }
  }

  lemma {:induction false} MatchAllKeepsAddressed(cards: seq<Card>, found: seq<string>, sys: Sysfs)
    requires Addressed(cards) && "" !in found
    ensures Addressed(MatchAll(cards, found, sys))
    decreases |found|
  {
    if found != [] {
      MatchAllKeepsAddressed(MatchOne(cards, found[0], sys(found[0])), found[1..], sys);
    }
  }

  lemma {:induction false} FillByDriverKeepsAddressed(cards: seq<Card>, i: nat, driver: string, found: seq<string>, sys: Sysfs)
    requires i <= |cards| && Addressed(cards) && "" !in found
    ensures Addressed(FillByDriver(cards, i, driver, found, sys).0)
    ensures "" !in FillByDriver(cards, i, driver, found, sys).1
    decreases |cards| - i
  {
    if i < |cards| && found != [] {
      if Takes(cards[i], ByDriver(driver)) {
        FillByDriverKeepsAddressed(cards[i := Fill(cards[i], found[0], sys(found[0]))], i + 1, driver, found[1..], sys);
      } else {
        FillByDriverKeepsAddressed(cards, i + 1, driver, found, sys);
      }
    }
  }

  lemma {:induction false} AppendAllKeepsAddressed(
    cards: seq<Card>, driver: string, options: string, description: string, found: seq<string>, sys: Sysfs)
    requires Addressed(cards) && "" !in found
    ensures Addressed(AppendAll(cards, driver, options, description, found, sys))
    decreases |found|
  {
    if found != [] {
      AppendAllKeepsAddressed(cards + [NewCard(driver, options, description, found[0], sys(found[0]))],
                              driver, options, description, found[1..], sys);
    }
  }

  lemma {:induction false} ScanFindsNames(cards: seq<Card>, names: seq<string>)
    requires "" !in names
    ensures "" !in Scan(cards, names)
  {
    if names != [] {
      ScanFindsNames(cards, names[1..]);
    }
  }

  lemma ProbeKeepsAddressed(cards: seq<Card>, c: Call)
    requires Addressed(cards) && "" !in c.names
    ensures Addressed(Probe(cards, c))
  {
    var found := Scan(cards, c.names);
    ScanFindsNames(cards, c.names);
    if c.driver.None? {
      MatchAllKeepsAddressed(cards, found, c.sys);
    } else if c.loads {
      FillByDriverKeepsAddressed(cards, 0, c.driver.value, found, c.sys);
      var (filled, rest) := FillByDriver(cards, 0, c.driver.value, found, c.sys);
      if c.description.Some? {
        AppendAllKeepsAddressed(filled, c.driver.value, c.options, c.description.value, rest, c.sys);
      }
    }
  }

  // ---- when no probe can break the agreement ----

  /** n device names, all longer than `size` characters. */
  function LongNames(size: nat, n: nat): (names: seq<string>)
    ensures |names| == n
  {
    seq(n, i requires 0 <= i < n => seq(size + 1 + i, _ => 'e'))
  }

  function LongestDevice(cards: seq<Card>): (size: nat)
    ensures forall i :: 0 <= i < |cards| ==> |cards[i].device| <= size
  {
    if cards == [] then 0
    else
      var before := LongestDevice(cards[..|cards| - 1]);
      if before < |cards[|cards| - 1].device| then |cards[|cards| - 1].device| else before
  }

  lemma LongNamesAreFree(cards: seq<Card>, n: nat)
    ensures Free(cards, LongNames(LongestDevice(cards), n)) && "" !in LongNames(LongestDevice(cards), n)
  {
    var names := LongNames(LongestDevice(cards), n);
    forall i | 0 <= i < n
      ensures !Hidden(names[i]) && !Listed(cards, names[i])
    {
      assert names[i][0] == 'e';
    }
    forall i, j | 0 <= i < j < n
      ensures names[i] != names[j]
    {
      assert |names[i]| != |names[j]|;
    }
  }

  lemma {:induction false} FreeIsScanned(cards: seq<Card>, names: seq<string>)
    requires Free(cards, names)
    ensures Scan(cards, names) == names
  {
    if names != [] {
      assert !Hidden(names[0]) && !Listed(cards, names[0]);
      FreeIsScanned(cards, names[1..]);
    }
  }

  lemma {:induction false} OnePerSlot(cards: seq<Card>, i: nat, driver: string, found: seq<string>, sys: Sysfs)
    requires i <= |cards|
    ensures |FillByDriver(cards, i, driver, found, sys).1| >= |found| - (|cards| - i)
    decreases |cards| - i
  {
    if i < |cards| && found != [] {
      if Takes(cards[i], ByDriver(driver)) {
        OnePerSlot(cards[i := Fill(cards[i], found[0], sys(found[0]))], i + 1, driver, found[1..], sys);
      } else {
        OnePerSlot(cards, i + 1, driver, found, sys);
      }
    }
  }

  /** The coloured cards of this driver have devices. */
  ghost predicate DressedFor(cards: seq<Card>, driver: string) {
    forall i :: 0 <= i < |cards| && cards[i].colour != NoColour && cards[i].driver == driver ==> cards[i].device != ""
  }

  /** A call that gives a device to every empty slot of a driver. */
  function Plenty(cards: seq<Card>, driver: string, options: string, description: Option<string>): Call {
    Call(Some(driver), description, options, true, LongNames(LongestDevice(cards), |cards| + 1),
         (name: string) => Info(driver, "", "", ""))
  }

  lemma PlentyIsScanned(cards: seq<Card>, c: Call)
    requires c.names == LongNames(LongestDevice(cards), |cards| + 1)
    ensures Scan(cards, c.names) == c.names && Distinct(c.names) && "" !in c.names
  {
    LongNamesAreFree(cards, |cards| + 1);
    FreeIsScanned(cards, c.names);
  }

  lemma PlentyFillsAll(cards: seq<Card>, k: nat, options: string, description: Option<string>)
    requires k < |cards| && cards[k].device == ""
    ensures Probe(cards, Plenty(cards, cards[k].driver, options, description))[k].device != ""
  {
    var c := Plenty(cards, cards[k].driver, options, description);
    PlentyIsScanned(cards, c);
    ManyNamesFillAll(cards, cards[k].driver, c.names, c.sys, k);
    AppendingLeaves(cards, c, k);
  }

  lemma AppendingLeaves(cards: seq<Card>, c: Call, k: nat)
    requires c.driver.Some? && c.loads && k < |cards|
    ensures Probe(cards, c)[k] == FillByDriver(cards, 0, c.driver.value, Scan(cards, c.names), c.sys).0[k]
  {
    var (filled, rest) := FillByDriver(cards, 0, c.driver.value, Scan(cards, c.names), c.sys);
    if c.description.Some? {
      AppendAllExtends(filled, c.driver.value, c.options, c.description.value, rest, c.sys);
    }
  }

  lemma ManyNamesFillAll(cards: seq<Card>, driver: string, found: seq<string>, sys: Sysfs, k: nat)
    requires |found| == |cards| + 1 && "" !in found && k < |cards| && cards[k].driver == driver && cards[k].device == ""
    ensures FillByDriver(cards, 0, driver, found, sys).0[k].device != ""
  {
    OnePerSlot(cards, 0, driver, found, sys);
    FillByDriverServes(cards, 0, driver, found, sys);
    FillByDriverGrows(cards, 0, driver, found, sys);
    assert !Takes(FillByDriver(cards, 0, driver, found, sys).0[k], ByDriver(driver));
  }

  /** A loaded module leaves the coloured cards alone if they have devices. */
  lemma DressedIsLeft(cards: seq<Card>, c: Call)
    requires c.driver.Some? && DressedFor(cards, c.driver.value)
    ensures LeavesColoured(cards, c)
  {
    forall k | c.loads && 0 <= k < |cards| && cards[k].colour != NoColour
      ensures Probe(cards, c)[k] == cards[k]
    {
      AppendingLeaves(cards, c, k);
      if Probe(cards, c)[k] != cards[k] {
        FillByDriverIsJustified(cards, 0, c.driver.value, Scan(cards, c.names), c.sys, k);
      }
    }
  }

  /** Loading a module leaves the settings in agreement, whatever the system answers, exactly when the
      coloured cards of the module have devices. */
  lemma ModuleIsSafeIffDressed(
    cards: seq<Card>, eth: Settings, driver: string, options: string, description: Option<string>, renamed: bool)
    requires Agrees(cards, eth, renamed) && (renamed ==> Addressed(cards))
    ensures DressedFor(cards, driver)
       <==> forall loads: bool, names: seq<string>, sys: Sysfs :: Distinct(names) && "" !in names
              ==> Agrees(Probe(cards, Call(Some(driver), description, options, loads, names, sys)), eth, renamed)
  {
    if DressedFor(cards, driver) {
      forall loads: bool, names: seq<string>, sys: Sysfs
        ensures Agrees(Probe(cards, Call(Some(driver), description, options, loads, names, sys)), eth, renamed)
      {
        DressedIsLeft(cards, Call(Some(driver), description, options, loads, names, sys));
        ProbeAndAgreement(cards, eth, Call(Some(driver), description, options, loads, names, sys), renamed);
      }
    } else {
      var c := UndressedIsHit(cards, eth, driver, options, description, renamed);
      assert !Agrees(Probe(cards, Call(Some(driver), description, options, c.loads, c.names, c.sys)), eth, renamed);
    }
  }

  lemma UndressedIsHit(
    cards: seq<Card>, eth: Settings, driver: string, options: string, description: Option<string>, renamed: bool)
    returns (c: Call)
    requires Agrees(cards, eth, renamed) && (renamed ==> Addressed(cards)) && !DressedFor(cards, driver)
    ensures c == Call(Some(driver), description, options, c.loads, c.names, c.sys) && Distinct(c.names) && "" !in c.names
    ensures !Agrees(Probe(cards, c), eth, renamed)
  {
    var k :| 0 <= k < |cards| && cards[k].colour != NoColour && cards[k].driver == driver && cards[k].device == "";
    c := Plenty(cards, driver, options, description);
    PlentyIsScanned(cards, c);
    PlentyFillsAll(cards, k, options, description);
    ProbeAndAgreement(cards, eth, c, renamed);
  }

  /** No probe whatever can break the agreement, exactly when every coloured card has a device. */
  lemma SafeIffDressed(cards: seq<Card>, eth: Settings, renamed: bool)
    requires Agrees(cards, eth, renamed) && (renamed ==> Addressed(cards))
    ensures Dressed(cards) <==> forall c: Call :: Agrees(Probe(cards, c), eth, renamed)
  {
    if Dressed(cards) {
      forall c: Call
        ensures Agrees(Probe(cards, c), eth, renamed)
      {
        ProbeGrows(cards, c);
        ProbeAndAgreement(cards, eth, c, renamed);
      }
    } else {
      var k :| 0 <= k < |cards| && cards[k].colour != NoColour && cards[k].device == "";
      assert !DressedFor(cards, cards[k].driver);
      var c := UndressedIsHit(cards, eth, cards[k].driver, "", None, renamed);
      assert !Agrees(Probe(cards, c), eth, renamed);
    }
  }
}
