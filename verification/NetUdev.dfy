/** The names that udevconfig writes (src/installer/networking.c:624-659). */
module NetUdev {

  import opened Decimals
  import opened Wrappers
  import opened NetTable
  import opened NetColours
  import opened NetSafety

  lemma NamesDiffer(c: Colour, c': Colour, k: nat, k': nat)
    requires c != NoColour && c' != NoColour
    ensures ColourName(c) == ColourName(c') ==> c == c'
    ensures UnusedName(k) == UnusedName(k') ==> k == k'
    ensures ColourName(c) != UnusedName(k)
  {
    assert ColourName(c)[0] == Alias(c)[0] && ColourName(c)[1] == Alias(c)[1];
    assert ColourName(c')[0] == Alias(c')[0] && ColourName(c')[1] == Alias(c')[1];
    assert UnusedName(k)[0] == 'u';
    assert UnusedName(k)[7..] == Decimal(k) && UnusedName(k')[7..] == Decimal(k');
    NumberOfDecimal(k);
    NumberOfDecimal(k');
  }

  /** A card that gets a udev rule has this colour. */
  ghost predicate AddressedOwner(cards: seq<Card>, c: Colour) {
    exists i :: 0 <= i < |cards| && cards[i].colour == c && cards[i].address != ""
  }

  ghost predicate RuleNamed(cards: seq<Card>, name: string) {
    exists r :: r in Rules(cards) && r.name == name
  }

  lemma OwnersOfPrefix(cards: seq<Card>, c: Colour)
    requires cards != []
    ensures AddressedOwner(cards, c)
       <==> AddressedOwner(cards[..|cards| - 1], c) || (cards[|cards| - 1].colour == c && cards[|cards| - 1].address != "")
  {
    var before := cards[..|cards| - 1];
    if AddressedOwner(before, c) {
      var i :| 0 <= i < |before| && before[i].colour == c && before[i].address != "";
      assert cards[i] == before[i];
    }
  }

  lemma {:induction false} NamesInRules(cards: seq<Card>, c: Colour, k: nat)
    requires c != NoColour
    ensures RuleNamed(cards, ColourName(c)) <==> AddressedOwner(cards, c)
    ensures RuleNamed(cards, UnusedName(k)) <==> 1 <= k <= Unaddressed(cards)
  {
    if cards != [] {
      var before, card := cards[..|cards| - 1], cards[|cards| - 1];
      NamesInRules(before, c, k);
      OwnersOfPrefix(cards, c);
      NamesDiffer(c, if card.colour == NoColour then c else card.colour, k, Unaddressed(before) + 1);
      NamesDiffer(if card.colour == NoColour then c else card.colour, c, k, k);
      assert Rules(before) <= Rules(cards);
      assert forall r :: r in Rules(cards) <==> r in Rules(before) || (card.address != "" && r == Rules(cards)[|Rules(cards)| - 1]);
    }
  }

  ghost predicate DistinctRules(rules: seq<Rule>) {
    forall i, j :: 0 <= i < j < |rules| ==> rules[i].name != rules[j].name
  }

  ghost predicate AddressedUnique(cards: seq<Card>) {
    forall i, j :: 0 <= i < j < |cards| && cards[i].address != "" && cards[j].address != "" && cards[i].colour != NoColour
      ==> cards[i].colour != cards[j].colour
  }

  lemma UniquePrefix(cards: seq<Card>)
    requires cards != []
    ensures var before, card := cards[..|cards| - 1], cards[|cards| - 1];
            AddressedUnique(cards) <==>
              AddressedUnique(before) && (card.address != "" && card.colour != NoColour ==> !AddressedOwner(before, card.colour))
  {
    var before, card := cards[..|cards| - 1], cards[|cards| - 1];
    if card.address != "" && card.colour != NoColour && AddressedOwner(before, card.colour) {
      var i :| 0 <= i < |before| && before[i].colour == card.colour && before[i].address != "";
      assert cards[i] == before[i];
    }
    if AddressedUnique(cards) {
      forall i, j | 0 <= i < j < |before| && before[i].address != "" && before[j].address != "" && before[i].colour != NoColour
        ensures before[i].colour != before[j].colour
      {
        assert cards[i] == before[i] && cards[j] == before[j];
      }
    }
  }

  lemma DistinctAfterOne(rules: seq<Rule>, r: Rule)
    ensures DistinctRules(rules + [r]) <==> DistinctRules(rules) && forall o :: o in rules ==> o.name != r.name
  {
    var all := rules + [r];
    if DistinctRules(all) {
      forall o | o in rules
        ensures o.name != r.name
      {
        var i :| 0 <= i < |rules| && rules[i] == o;
        assert all[i] == o && all[|rules|] == r;
      }
      forall i, j | 0 <= i < j < |rules|
        ensures rules[i].name != rules[j].name
      {
        assert all[i] == rules[i] && all[j] == rules[j];
      }
    }
  }

  /** The rules give pairwise distinct names exactly when no two cards with an address share a colour. */
  lemma {:induction false} NamesCollideIffColoursDo(cards: seq<Card>)
    ensures DistinctRules(Rules(cards)) <==> AddressedUnique(cards)
  {
    if cards != [] {
      var before, card := cards[..|cards| - 1], cards[|cards| - 1];
      NamesCollideIffColoursDo(before);
      UniquePrefix(cards);
      if card.address != "" {
        var r := Rules(cards)[|Rules(cards)| - 1];
        assert Rules(cards) == Rules(before) + [r];
        DistinctAfterOne(Rules(before), r);
        assert RuleNamed(before, r.name) <==> exists o :: o in Rules(before) && o.name == r.name;
        if card.colour == NoColour {
          NamesInRules(before, Green, Unaddressed(before) + 1);
          assert r.name == UnusedName(Unaddressed(before) + 1);
          assert !RuleNamed(before, r.name);
        } else {
          NamesInRules(before, card.colour, 0);
          assert r.name == ColourName(card.colour);
          assert RuleNamed(before, r.name) <==> AddressedOwner(before, card.colour);
        }
      } else {
        assert Rules(cards) == Rules(before);
      }
    }
  }

  /** Renaming changes the device setting of the colours that got a rule, and no other setting. */
  lemma {:induction false} RenamedSettings(cards: seq<Card>, eth: Settings, c: Colour, f: Field)
    requires c != NoColour
    ensures Get(Renamed(cards, eth), Key(c, f))
         == if f == Dev && AddressedOwner(cards, c) then Some(ColourName(c)) else Get(eth, Key(c, f))
  {
    if cards != [] {
      var before, card := cards[..|cards| - 1], cards[|cards| - 1];
      RenamedSettings(before, eth, c, f);
      OwnersOfPrefix(cards, c);
      KeysDiffer(card.colour, Dev, c, f);
    }
  }

  /** The settings once udevconfig has run: a colour whose card has an address names the device that
      its rule creates. */
  ghost predicate AgreesWithRules(cards: seq<Card>, eth: Settings) {
    && (forall n :: 0 <= n < |cards| && cards[n].colour != NoColour ==>
          Names(eth, cards[n].colour, cards[n],
                if cards[n].address != "" then ColourName(cards[n].colour) else cards[n].device))
    && (forall c :: c != NoColour && !Used(cards, c) ==> NamesNobody(eth, c))
  }

  lemma RenamedAgrees(cards: seq<Card>, eth: Settings, renamed: bool)
    requires Agrees(cards, eth, renamed) && Unique(cards)
    ensures AgreesWithRules(cards, Renamed(cards, eth))
  {
    forall n | 0 <= n < |cards| && cards[n].colour != NoColour
      ensures Names(Renamed(cards, eth), cards[n].colour, cards[n],
                    if cards[n].address != "" then ColourName(cards[n].colour) else cards[n].device)
    {
      var c := cards[n].colour;
      RenamedSettings(cards, eth, c, Count);
      RenamedSettings(cards, eth, c, Dev);
      RenamedSettings(cards, eth, c, Driver);
      RenamedSettings(cards, eth, c, Mac);
      assert Fits(eth, cards[n], renamed);
      assert AddressedOwner(cards, c) <==> cards[n].address != "";
    }
    forall c | c != NoColour && !Used(cards, c)
      ensures NamesNobody(Renamed(cards, eth), c)
    {
      assert NamesNobody(eth, c);
      RenamedSettings(cards, eth, c, Count);
      RenamedSettings(cards, eth, c, Dev);
      RenamedSettings(cards, eth, c, Driver);
      RenamedSettings(cards, eth, c, Mac);
    }
  }
}
