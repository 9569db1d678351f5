/** The answers to the card list, as the screen, the settings and the rules show them
    (src/installer/networking.c:492-659 and 783-835). */
module NetMenu {

  import opened Decimals
  import opened Wrappers
  import opened Positions
  import opened NetTable
  import opened NetColours
  import opened NetSafety
  import opened NetUdev

  /** How the settings of the colours are spelled. */
  lemma KeysAreSpelled()
    ensures Key(Green, Dev) == "GREEN_1_DEV" && Key(Green, Driver) == "GREEN_1_DRIVER"
         && Key(Green, Mac) == "GREEN_1_MAC" && Key(Green, Count) == "GREEN_COUNT"
    ensures Key(Red, Dev) == "RED_1_DEV" && Key(Red, Driver) == "RED_1_DRIVER"
         && Key(Red, Mac) == "RED_1_MAC" && Key(Red, Count) == "RED_COUNT"
    ensures Key(Blue, Dev) == "BLUE_1_DEV" && Key(Blue, Driver) == "BLUE_1_DRIVER"
         && Key(Blue, Mac) == "BLUE_1_MAC" && Key(Blue, Count) == "BLUE_COUNT"
    ensures Key(Orange, Dev) == "ORANGE_1_DEV" && Key(Orange, Driver) == "ORANGE_1_DRIVER"
         && Key(Orange, Mac) == "ORANGE_1_MAC" && Key(Orange, Count) == "ORANGE_COUNT"
    ensures RED_TYPE == "RED_1_TYPE"
  {
  }

  // ---- the menu of a card ----

  predicate HasColour(cards: seq<Card>, c: Colour) {
    exists j :: 0 <= j < |cards| && cards[j].colour == c
  }

  predicate NoCard(redType: string) {
    redType in {"ANALOG", "GSM3G", "ISDN"}
  }

  function IsFree(cards: seq<Card>, redType: string): Colour -> bool {
    (c: Colour) => !HasColour(cards, c) && !(c == Red && NoCard(redType))
  }

  const FOUR: seq<Colour> := [Green, Red, Blue, Orange]

  /** The entries of the menu are the colours at these places. */
  ghost predicate AreColoursAt(menu: seq<Colour>, cs: seq<Colour>, p: seq<nat>) {
    |menu| == |p| && forall i :: 0 <= i < |p| ==> p[i] < |cs| && menu[i] == cs[p[i]]
  }

  lemma OneMoreColour(menu: seq<Colour>, cs: seq<Colour>, p: seq<nat>, c: Colour)
    requires AreColoursAt(menu, cs, p)
    ensures AreColoursAt(menu, cs + [c], p) && AreColoursAt(menu + [c], cs + [c], p + [|cs|])
  {
  }

  lemma IsFreeIff(cards: seq<Card>, redType: string, c: Colour)
    ensures IsFree(cards, redType)(c) <==> !((c == Red && DialUp(redType)) || Used(cards, c))
  {
  }

  lemma OfferedOneMore(cards: seq<Card>, redType: string, before: seq<Colour>, c: Colour, menu: seq<Colour>)
    requires AreColoursAt(menu, before, Places(before, IsFree(cards, redType)))
    ensures AreColoursAt(menu + (if (c == Red && DialUp(redType)) || Used(cards, c) then [] else [c]),
                         before + [c], Places(before + [c], IsFree(cards, redType)))
  {
    var p := Places(before, IsFree(cards, redType));
    PlacesOneMore(before, c, IsFree(cards, redType), 0);
    IsFreeIff(cards, redType, c);
    OneMoreColour(menu, before, p, c);
    assert menu + [] == menu && p + [] == p;
  }

  lemma {:induction false} OfferedAmongAre(cards: seq<Card>, redType: string, k: nat)
    requires k <= 4
    ensures AreColoursAt(OfferedAmong(cards, redType, k), COLOURS[..k], Places(COLOURS[..k], IsFree(cards, redType)))
  {
    if k != 0 {
      OfferedAmongAre(cards, redType, k - 1);
      OfferedOneMore(cards, redType, COLOURS[..k - 1], COLOURS[k - 1], OfferedAmong(cards, redType, k - 1));
      assert COLOURS[..k] == COLOURS[..k - 1] + [COLOURS[k - 1]];
    }
  }

  /** What the menu shows at each position: the free colours in the order GREEN, RED, BLUE, ORANGE, and at
      the end no colour. */
  lemma MenuIsInOrder(cards: seq<Card>, redType: string)
    ensures var p, menu := Places(FOUR, IsFree(cards, redType)), Offered(cards, redType);
            && |menu| == |p| + 1 && menu[|p|] == NoColour
            && forall i :: 0 <= i < |p| ==> menu[i] == FOUR[p[i]]
  {
    OfferedAmongAre(cards, redType, 4);
    assert COLOURS[..4] == COLOURS == FOUR;
  }

  /** The entry at a position of the menu. */
  function EntryAt(cards: seq<Card>, redType: string, choice: nat): Colour {
    var p := Places(FOUR, IsFree(cards, redType));
    if choice < |p| then FOUR[p[choice]] else NoColour
  }

  // ---- one answer ----

  ghost predicate IsKeyOf(k: string, c: Colour) {
    k in {Key(c, Dev), Key(c, Driver), Key(c, Mac), Key(c, Count)}
  }

  ghost predicate Holds(eth: Settings, c: Colour, device: string, driver: string, mac: string, count: string) {
    && Get(eth, Key(c, Dev)) == Some(device) && Get(eth, Key(c, Driver)) == Some(driver)
    && Get(eth, Key(c, Mac)) == Some(mac) && Get(eth, Key(c, Count)) == Some(count)
  }

  lemma ClearedExactly(eth: Settings, c: Colour)
    ensures Holds(Cleared(eth, c), c, "", "", "", "0")
    ensures forall k :: !IsKeyOf(k, c) ==> Get(Cleared(eth, c), k) == Get(eth, k)
  {
    OwnKeysDiffer(c);
  }

  lemma StoredExactly(eth: Settings, c: Colour, card: Card)
    ensures Holds(Stored(eth, c, card), c, card.device, card.driver, card.address, "1")
    ensures forall k :: !IsKeyOf(k, c) ==> Get(Stored(eth, c, card), k) == Get(eth, k)
  {
    OwnKeysDiffer(c);
  }

  lemma NotAKeyOfOther(c: Colour, c': Colour)
    requires c != c'
    ensures !IsKeyOf(Key(c, Dev), c') && !IsKeyOf(Key(c, Driver), c') && !IsKeyOf(Key(c, Mac), c') && !IsKeyOf(Key(c, Count), c')
  {
    FourKeysDiffer(c', c, Dev);
    FourKeysDiffer(c', c, Driver);
    FourKeysDiffer(c', c, Mac);
    FourKeysDiffer(c', c, Count);
  }

  /** What an answer does to the settings, if the card had colour `was` and gets colour c. */
  ghost predicate Resettled(eth: Settings, eth': Settings, was: Colour, c: Colour, card: Card) {
    && (c != NoColour ==> Holds(eth', c, card.device, card.driver, card.address, "1"))
    && (was != NoColour && was != c ==> Holds(eth', was, "", "", "", "0"))
    && forall k :: (c == NoColour || !IsKeyOf(k, c)) && (was == NoColour || !IsKeyOf(k, was)) ==> Get(eth', k) == Get(eth, k)
  }

  lemma AssignResettles(cards: seq<Card>, eth: Settings, n: nat, c: Colour)
    requires n < |cards|
    ensures Resettled(eth, Assign(cards, eth, n, c).1, cards[n].colour, c, cards[n])
  {
    var was := cards[n].colour;
    ClearedExactly(eth, was);
    var eth1 := if was != NoColour then Cleared(eth, was) else eth;
    StoredExactly(eth1, c, cards[n]);
    if was != c {
      NotAKeyOfOther(was, c);
    }
  }

  /** Assigning with button 0 or 1 gives the card the colour that the menu shows at the picked position, and
      changes no other card; the settings of that colour hold the card, those of its old colour nothing,
      and no other setting changes.  Any other button changes nothing. */
  lemma PickIsGiven(st: State, n: nat, rc: int, choice: nat)
    requires Possible(st, Configuring(n, rc, choice))
    ensures var after, c := Step(st, Configuring(n, rc, choice)), EntryAt(st.cards, st.redType, choice);
            if rc != 0 && rc != 1 then after == st
            else
              && after == st.(cards := after.cards, eth := after.eth, changed := true)
              && after.cards == st.cards[n := st.cards[n].(colour := c)]
              && Resettled(st.eth, after.eth, st.cards[n].colour, c, st.cards[n])
  {
    MenuIsInOrder(st.cards, st.redType);
    AssignResettles(st.cards, st.eth, n, EntryAt(st.cards, st.redType, choice));
  }

  // ---- the rules ----

  function HasAddress(): Card -> bool {
    (card: Card) => card.address != ""
  }

  function IsSpare(): Card -> bool {
    (card: Card) => card.address != "" && card.colour == NoColour
  }

  /** The name of a card: that of its colour, or its number among the spare cards. */
  function NameOf(colour: Colour, spares: nat): string {
    match colour
    case Green => "lan-1"
    case Red => "wan-1"
    case Blue => "wlan-1"
    case Orange => "dmz-1"
    case NoColour => "unused-" + Decimal(spares)
  }

  /** The rule for card k. */
  ghost predicate IsRuleFor(rule: Rule, cards: seq<Card>, k: nat) {
    && k < |cards|
    && rule.address == cards[k].address
    && rule.name == NameOf(cards[k].colour, |Places(cards[..k], IsSpare())| + 1)
  }

  /** Rule i is for the i-th card that has an address. */
  ghost predicate AreRules(rules: seq<Rule>, cards: seq<Card>, p: seq<nat>) {
    && |rules| == |p|
    && forall i :: 0 <= i < |p| ==> IsRuleFor(rules[i], cards, p[i])
  }

  lemma NamesAreSpelled(c: Colour, k: nat)
    ensures (if c == NoColour then UnusedName(k) else ColourName(c)) == NameOf(c, k)
  {
    assert "lan" + "-" + "1" == "lan-1";
    assert "unused" + "-" + Decimal(k) == "unused-" + Decimal(k);
  }

  lemma {:induction false} SparesAreCounted(cards: seq<Card>)
    ensures Unaddressed(cards) == |Places(cards, IsSpare())|
  {
    if cards != [] {
      var before, card := cards[..|cards| - 1], cards[|cards| - 1];
      SparesAreCounted(before);
      assert cards == before + [card];
      PlacesOneMore(before, card, IsSpare(), 0);
    }
  }

  lemma RuleStays(rule: Rule, cards: seq<Card>, k: nat, card: Card)
    requires IsRuleFor(rule, cards, k)
    ensures IsRuleFor(rule, cards + [card], k)
  {
    assert (cards + [card])[..k] == cards[..k];
  }

  lemma OneMoreCard(rules: seq<Rule>, cards: seq<Card>, p: seq<nat>, card: Card)
    requires AreRules(rules, cards, p)
    ensures AreRules(rules, cards + [card], p)
    ensures AreRules(rules + [Rule(card.address, NameOf(card.colour, |Places(cards, IsSpare())| + 1))], cards + [card], p + [|cards|])
  {
    forall i | 0 <= i < |p|
      ensures IsRuleFor(rules[i], cards + [card], p[i])
    {
      RuleStays(rules[i], cards, p[i], card);
    }
    assert (cards + [card])[..|cards|] == cards;
  }

  /** The rules file has a rule for every card with an address, in the order of the table: with the address,
      and the name of the colour or the next number of a spare card. */
  lemma {:induction false} RulesAreForCards(cards: seq<Card>)
    ensures AreRules(Rules(cards), cards, Places(cards, HasAddress()))
  {
    if cards != [] {
      var before, card := cards[..|cards| - 1], cards[|cards| - 1];
      RulesAreForCards(before);
      assert cards == before + [card];
      PlacesOneMore(before, card, HasAddress(), 0);
      SparesAreCounted(before);
      NamesAreSpelled(card.colour, Unaddressed(before) + 1);
      OneMoreCard(Rules(before), before, Places(before, HasAddress()), card);
      assert Rules(before) + [] == Rules(before) && Places(before, HasAddress()) + [] == Places(before, HasAddress());
    }
  }

  /** The colour has a card with an address. */
  ghost predicate Owns(cards: seq<Card>, c: Colour) {
    c != NoColour && exists i :: 0 <= i < |cards| && cards[i].colour == c && cards[i].address != ""
  }

  lemma OwnsOneMore(cards: seq<Card>, card: Card, c: Colour)
    ensures Owns(cards + [card], c) <==> Owns(cards, c) || (c != NoColour && card.colour == c && card.address != "")
  {
    var all := cards + [card];
    if Owns(cards, c) {
      var i :| 0 <= i < |cards| && cards[i].colour == c && cards[i].address != "";
      assert all[i] == cards[i];
    }
    assert all[|cards|] == card;
  }

  /** Setting k of eth', once the devices of the colours that have a rule are renamed. */
  ghost predicate RenamedAt(cards: seq<Card>, eth: Settings, eth': Settings, k: string) {
    && ((forall c :: Owns(cards, c) ==> Key(c, Dev) != k) ==> Get(eth', k) == Get(eth, k))
    && (forall c :: Owns(cards, c) && Key(c, Dev) == k ==> Get(eth', k) == Some(NameOf(c, 0)))
  }

  lemma SkipOneMore(before: seq<Card>, card: Card, eth: Settings, eth': Settings, k: string)
    requires RenamedAt(before, eth, eth', k) && (card.address == "" || card.colour == NoColour)
    ensures RenamedAt(before + [card], eth, eth', k)
  {
    forall c
      ensures Owns(before + [card], c) <==> Owns(before, c)
    {
      OwnsOneMore(before, card, c);
    }
  }

  lemma RenameOneMore(before: seq<Card>, card: Card, eth: Settings, eth': Settings, k: string)
    requires RenamedAt(before, eth, eth', k) && card.address != "" && card.colour != NoColour
    ensures RenamedAt(before + [card], eth, eth'[Key(card.colour, Dev) := NameOf(card.colour, 0)], k)
  {
    forall c
      ensures Owns(before + [card], c) <==> Owns(before, c) || c == card.colour
    {
      OwnsOneMore(before, card, c);
    }
    forall c | Key(c, Dev) == Key(card.colour, Dev)
      ensures c == card.colour
    {
      KeysDiffer(c, Dev, card.colour, Dev);
    }
  }

  /** Writing the rules renames the device setting of the colours that have a rule, and changes nothing
      else. */
  lemma {:induction false} RenamedExactly(cards: seq<Card>, eth: Settings, k: string)
    ensures RenamedAt(cards, eth, Renamed(cards, eth), k)
  {
    if cards != [] {
      var before, card := cards[..|cards| - 1], cards[|cards| - 1];
      RenamedExactly(before, eth, k);
      assert cards == before + [card];
      if card.address == "" || card.colour == NoColour {
        SkipOneMore(before, card, eth, Renamed(before, eth), k);
      } else {
        RenameOneMore(before, card, eth, Renamed(before, eth), k);
        NamesAreSpelled(card.colour, 0);
      }
    }
  }

  // ---- leaving ----

  /** There is a GREEN card, and RED is a card, dial-up, or given up by the second button when no card is
      left for it. */
  predicate Leaves(st: State, answer: int) {
    && HasColour(st.cards, Green)
    && (NoCard(st.redType) || HasColour(st.cards, Red) || (!HasColour(st.cards, NoColour) && answer == 2))
  }

  predicate GivesUp(st: State, answer: int) {
    Leaves(st, answer) && !NoCard(st.redType) && !HasColour(st.cards, Red)
  }

  /** The settings after leaving, apart from the renamed devices. */
  function AfterGivingUp(st: State, answer: int, k: string): Option<string> {
    if !GivesUp(st, answer) then Get(st.eth, k)
    else if k == "RED_1_TYPE" then Some("ANALOG")
    else if k == "RED_1_DEV" then Some("")
    else if k == "RED_COUNT" then Some("0")
    else Get(st.eth, k)
  }

  lemma LeavesIff(st: State, answer: int)
    ensures MayExit(st, answer) <==> Leaves(st, answer)
    ensures GivesUp(st, answer) <==> MayExit(st, answer) && !DialUp(st.redType) && !Used(st.cards, Red)
  {
  }

  lemma GivenUp(st: State, answer: int, k: string)
    requires GivesUp(st, answer)
    ensures Get(GiveUpRed(st).eth, k) == AfterGivingUp(st, answer, k)
    ensures GiveUpRed(st) == st.(redType := "ANALOG", changed := true, eth := GiveUpRed(st).eth)
  {
    KeysAreSpelled();
  }

  /** Pressing "done": whether the dialog is left, what becomes of RED, and what is written. */
  lemma DoneExactly(st: State, answer: int, opens: bool)
    requires !st.exited
    ensures var after := Step(st, Done(answer, opens));
            if !Leaves(st, answer) then after == st
            else
              && after.exited && after.cards == st.cards
              && after.redType == (if GivesUp(st, answer) then "ANALOG" else st.redType)
              && after.changed == (st.changed || GivesUp(st, answer))
              && after.wrote == (after.changed && opens) && after.renamed == (st.renamed || after.wrote)
              && (if after.wrote then AreRules(after.rules, st.cards, Places(st.cards, HasAddress())) else after.rules == st.rules)
  {
    LeavesIff(st, answer);
    RulesAreForCards(st.cards);
  }

  /** ... and what becomes of each setting. */
  lemma DoneSettings(st: State, answer: int, opens: bool, k: string) returns (eth: Settings)
    requires !st.exited && Leaves(st, answer)
    ensures var after := Step(st, Done(answer, opens));
            && Get(eth, k) == AfterGivingUp(st, answer, k)
            && (if after.wrote then RenamedAt(st.cards, eth, after.eth, k) else after.eth == eth)
  {
    LeavesIff(st, answer);
    if GivesUp(st, answer) {
      GivenUp(st, answer, k);
      eth := GiveUpRed(st).eth;
    } else {
      eth := st.eth;
    }
    RenamedExactly(st.cards, eth, k);
  }
}
