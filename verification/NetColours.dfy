/** Giving colours to cards and keeping the settings in step
    (src/installer/networking.c:492-659 and the exit rules of cardlist, 783-835). */
module NetColours {

  import opened Decimals
  import opened NetTable

  type Settings = map<string, string>

  datatype Field = Dev | Driver | Mac | Count

  const COLOURS: seq<Colour> := [Green, Red, Blue, Orange]

  function ColourText(c: Colour): string {
    match c
    case Green => "GREEN"
    case Red => "RED"
    case Blue => "BLUE"
    case Orange => "ORANGE"
    case NoColour => "----"
  }

  function Alias(c: Colour): string {
    match c
    case Green => "lan"
    case Red => "wan"
    case Blue => "wlan"
    case Orange => "dmz"
    case NoColour => "unused"
  }

  function Suffix(f: Field): string {
    match f
    case Dev => "_1_DEV"
    case Driver => "_1_DRIVER"
    case Mac => "_1_MAC"
    case Count => "_COUNT"
  }

  function Key(c: Colour, f: Field): string {
    ColourText(c) + Suffix(f)
  }

  const RED_TYPE := "RED_1_TYPE"

  predicate DialUp(redType: string) {
    redType == "ANALOG" || redType == "GSM3G" || redType == "ISDN"
  }

  // ---- one card gets a colour ----

  predicate Used(cards: seq<Card>, c: Colour) {
    exists j :: 0 <= j < |cards| && cards[j].colour == c
  }

  /** The menu of cardconfig: the unused colours among the first k, without RED for dial-up types. */
  function OfferedAmong(cards: seq<Card>, redType: string, k: nat): seq<Colour>
    requires k <= |COLOURS|
  {
    if k == 0 then []
    else
      OfferedAmong(cards, redType, k - 1)
      + if (COLOURS[k - 1] == Red && DialUp(redType)) || Used(cards, COLOURS[k - 1]) then [] else [COLOURS[k - 1]]
  }

  /** ... and the entry for taking the colour away. */
  function Offered(cards: seq<Card>, redType: string): (menu: seq<Colour>)
    ensures |menu| > 0
  {
    OfferedAmong(cards, redType, 4) + [NoColour]
  }

  function Cleared(eth: Settings, c: Colour): Settings {
    eth[Key(c, Dev) := ""][Key(c, Driver) := ""][Key(c, Mac) := ""][Key(c, Count) := "0"]
  }

  function Stored(eth: Settings, c: Colour, card: Card): Settings {
    eth[Key(c, Dev) := card.device][Key(c, Driver) := card.driver][Key(c, Mac) := card.address][Key(c, Count) := "1"]
  }

  function Assign(cards: seq<Card>, eth: Settings, n: nat, c: Colour): (seq<Card>, Settings)
    requires n < |cards|
  {
    var eth1 := if cards[n].colour != NoColour then Cleared(eth, cards[n].colour) else eth;
    (cards[n := cards[n].(colour := c)], if c == NoColour then eth1 else Stored(eth1, c, cards[n]))
  }

  // ---- udev names ----

  datatype Rule = Rule(address: string, name: string)

  function ColourName(c: Colour): string {
    Alias(c) + "-1"
  }

  function UnusedName(counter: nat): string {
    Alias(NoColour) + "-" + Decimal(counter)
  }

  function Unaddressed(cards: seq<Card>): nat {
    if cards == [] then 0
    else Unaddressed(cards[..|cards| - 1])
         + if cards[|cards| - 1].address != "" && cards[|cards| - 1].colour == NoColour then 1 else 0
  }

  function Rules(cards: seq<Card>): seq<Rule> {
    if cards == [] then []
    else
      var before, card := cards[..|cards| - 1], cards[|cards| - 1];
      Rules(before)
      + if card.address == "" then []
        else if card.colour == NoColour then [Rule(card.address, UnusedName(Unaddressed(before) + 1))]
        else [Rule(card.address, ColourName(card.colour))]
  }

  function Renamed(cards: seq<Card>, eth: Settings): Settings {
    if cards == [] then eth
    else
      var before, card := cards[..|cards| - 1], cards[|cards| - 1];
      if card.address == "" || card.colour == NoColour then Renamed(before, eth)
      else Renamed(before, eth)[Key(card.colour, Dev) := ColourName(card.colour)]
  }

  // ---- the whole dialog ----

  /** The state of the dialog.  `wrote` says that leaving it wrote the rules, `renamed` that some
      earlier exit did. */
  datatype State = State(
    cards: seq<Card>, eth: Settings, redType: string, changed: bool, exited: bool, rules: seq<Rule>,
    wrote: bool, renamed: bool)

  /** One step of the card list: a manual or ISA module is probed, a card is configured, the user is
      done, or the dialog is opened again from the menu.  The answer to "done" counts only in the
      question whether RED may be given up; `opens` says whether the rules file can be written, and
      `touched` whether other dialogs have changed the configuration in between. */
  datatype Action =
    | Probing(call: Call)
    | Configuring(n: nat, rc: int, choice: nat)
    | Done(answer: int, opens: bool)
    | Reopening(touched: bool)

  /** GREEN is there, and RED too unless it is not a card or has been given up. */
  predicate MayExit(st: State, answer: int) {
    && Used(st.cards, Green)
    && (DialUp(st.redType) || Used(st.cards, Red) || (!Used(st.cards, NoColour) && answer == 2))
  }

  function GiveUpRed(st: State): State {
    st.(redType := "ANALOG", changed := true,
        eth := st.eth[RED_TYPE := "ANALOG"][Key(Red, Dev) := ""][Key(Red, Count) := "0"])
  }

  function Finish(st: State, answer: int, opens: bool): State {
    if !MayExit(st, answer) then st
    else
      var st1 := if DialUp(st.redType) || Used(st.cards, Red) then st else GiveUpRed(st);
      if st1.changed && opens then
        st1.(eth := Renamed(st1.cards, st1.eth), rules := Rules(st1.cards), exited := true, wrote := true, renamed := true)
      else st1.(exited := true, wrote := false)
  }

  predicate Possible(st: State, a: Action) {
    && (a.Reopening? <==> st.exited)
    && (a.Configuring? ==> a.n < |st.cards| && a.choice < |Offered(st.cards, st.redType)|)
  }

  function Step(st: State, a: Action): State
    requires Possible(st, a)
  {
    match a
    case Probing(call) => st.(cards := Probe(st.cards, call))
    case Configuring(n, rc, choice) =>
      if rc != 0 && rc != 1 then st
      else
        var (cards, eth) := Assign(st.cards, st.eth, n, Offered(st.cards, st.redType)[choice]);
        st.(cards := cards, eth := eth, changed := true)
    case Done(answer, opens) => Finish(st, answer, opens)
    case Reopening(touched) => st.(exited := false, changed := st.changed || touched)
  }

  class CardList {
    const table: Table
    var eth: Settings
    var redType: string
    var changed: bool
    var exited: bool
    var rules: seq<Rule>
    ghost var wrote: bool
    ghost var renamed: bool

    ghost function Now(): State
      reads this, table
    {
      State(table.networks, eth, redType, changed, exited, rules, wrote, renamed)
    }

    constructor (t: Table, settings: Settings, red: string, isChanged: bool)
      ensures table == t && Now() == State(t.networks, settings, red, isChanged, false, [], false, false)
    {
      table, eth, redType, changed, exited, rules := t, settings, red, isChanged, false, [];
      wrote, renamed := false, false;
    }

    /** cardlist is entered once more; the hardware is not scanned again. */
    method Reopen(touched: bool)
      requires exited
      modifies this
      ensures Now() == Step(old(Now()), Reopening(touched))
    {
      exited := false;
      if touched {
        changed := true;
      }
    }

    method UpdateSettings(c: Colour, n: int)
      requires -1 <= n < |table.networks|
      modifies this`eth
      ensures eth == if n == -1 then Cleared(old(eth), c) else Stored(old(eth), c, table.networks[n])
    {
      if n == -1 {
        eth := eth[Key(c, Dev) := ""];
        eth := eth[Key(c, Driver) := ""];
        eth := eth[Key(c, Mac) := ""];
        eth := eth[Key(c, Count) := "0"];
      } else {
        eth := eth[Key(c, Dev) := table.networks[n].device];
        eth := eth[Key(c, Driver) := table.networks[n].driver];
        eth := eth[Key(c, Mac) := table.networks[n].address];
        eth := eth[Key(c, Count) := "1"];
      }
    }

    method ColourChoices() returns (choices: seq<Colour>)
      ensures choices == Offered(table.networks, redType)
    {
      choices := [];
      for i := 0 to 4
        invariant choices == OfferedAmong(table.networks, redType, i)
      {
        if COLOURS[i] == Red && DialUp(redType) {
          continue;
        }
        var used := false;
        var j := 0;
        while j < |table.networks| && !used
          invariant 0 <= j <= |table.networks|
          invariant used ==> Used(table.networks, COLOURS[i])
          invariant !used ==> forall k :: 0 <= k < j ==> table.networks[k].colour != COLOURS[i]
        {
          if COLOURS[i] == table.networks[j].colour {
            used := true;
          }
          j := j + 1;
        }
        if !used {
          choices := choices + [COLOURS[i]];
        }
      }
      choices := choices + [NoColour];
    }

    /** The menu answers with a button and an entry; buttons 0 and 1 assign, the others do not. */
    method CardConfig(n: nat, rc: int, choice: nat)
      requires Possible(Now(), Configuring(n, rc, choice))
      modifies this`eth, this`changed, table
      ensures Now() == Step(old(Now()), Configuring(n, rc, choice))
    {
      var choices := ColourChoices();
      if rc == 0 || rc == 1 {
        changed := true;
        if choices[choice] == NoColour {
          if table.networks[n].colour != NoColour {
            UpdateSettings(table.networks[n].colour, -1);
          }
          table.networks := table.networks[n := table.networks[n].(colour := NoColour)];
        } else {
          if table.networks[n].colour != NoColour {
            UpdateSettings(table.networks[n].colour, -1);
          }
          table.networks := table.networks[n := table.networks[n].(colour := choices[choice])];
          UpdateSettings(choices[choice], n);
        }
      }
    }

    /** A module chosen by hand or from the list of undetectable cards is probed. */
    method ManualProbe(call: Call) returns (rc: int)
      requires !exited
      modifies table
      ensures Now() == Step(old(Now()), Probing(call)) && rc == ProbeResult(old(table.networks), call)
    {
      rc := table.ProbeCard(call);
    }

    /** Nothing is renamed if the rules file cannot be opened. */
    method UdevConfig(opens: bool)
      modifies this`eth, this`rules
      ensures opens ==> eth == Renamed(table.networks, old(eth)) && rules == Rules(table.networks)
      ensures !opens ==> eth == old(eth) && rules == old(rules)
    {
      if !opens {
        return;
      }
      var counter := 1;
      rules := [];
      ghost var cards := table.networks;
      assert cards[..0] == [];
      for i := 0 to |table.networks|
        invariant table.networks == cards
        invariant counter == Unaddressed(cards[..i]) + 1
        invariant eth == Renamed(cards[..i], old(eth)) && rules == Rules(cards[..i])
      {
        assert cards[..i + 1][..i] == cards[..i];
        var card := table.networks[i];
        if card.address != "" {
          var device;
          if card.colour == NoColour {
            device := Alias(NoColour) + "-" + Decimal(counter);
            counter := counter + 1;
          } else {
            device := Alias(card.colour) + "-1";
            eth := eth[Key(card.colour, Dev) := device];
          }
          rules := rules + [Rule(card.address, device)];
        }
      }
      assert cards[..|cards|] == cards;
    }

    method CountColour(c: Colour) returns (count: nat)
      ensures count > 0 <==> Used(table.networks, c)
    {
      count := 0;
      for i := 0 to |table.networks|
        invariant count > 0 <==> Used(table.networks[..i], c)
      {
        assert Used(table.networks[..i + 1], c) <==> Used(table.networks[..i], c) || table.networks[i].colour == c;
        if table.networks[i].colour == c {
          count := count + 1;
        }
      }
      assert table.networks[..|table.networks|] == table.networks;
    }

    method DonePressed(answer: int, opens: bool)
      requires !exited
      modifies this
      ensures Now() == Step(old(Now()), Done(answer, opens))
    {
      var greens := CountColour(Green);
      if greens == 0 {
        return;
      }
      if !DialUp(redType) {
        var reds := CountColour(Red);
        var notused := CountColour(NoColour);
        if reds == 0 && notused > 0 {
          return;
        }
        if reds == 0 {
          if answer != 2 {
            return;
          }
          redType := "ANALOG";
          eth := eth[RED_TYPE := "ANALOG"];
          eth := eth[Key(Red, Dev) := ""];
          eth := eth[Key(Red, Count) := "0"];
          changed := true;
        }
      }
      if changed {
        UdevConfig(opens);
      }
      wrote := changed && opens;
      renamed := renamed || wrote;
      exited := true;
    }
  }
}
