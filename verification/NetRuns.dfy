/** Whole runs of the card list (src/installer/networking.c:744-838): probes, configurations and
    attempts to leave, in any order. */
module NetRuns {

  import opened Wrappers
  import opened NetTable
  import opened NetColours
  import opened NetSafety
  import opened NetUdev

  ghost predicate PossibleRun(st: State, actions: seq<Action>)
    decreases |actions|
  {
    actions == [] || (Possible(st, actions[0]) && PossibleRun(Step(st, actions[0]), actions[1..]))
  }

  function Play(st: State, actions: seq<Action>): State
    requires PossibleRun(st, actions)
    decreases |actions|
  {
    if actions == [] then st else Play(Step(st, actions[0]), actions[1..])
  }

  /** A directory lists no name twice, and none that is empty. */
  ghost predicate IsDirectory(names: seq<string>) {
    Distinct(names) && "" !in names
  }

  ghost predicate SystemOk(actions: seq<Action>) {
    forall i :: 0 <= i < |actions| && actions[i].Probing? ==> IsDirectory(actions[i].call.names)
  }

  lemma StepKeepsOwners(st: State, a: Action)
    requires Possible(st, a) && Unique(st.cards) && Sound(st.cards) && (a.Probing? ==> Distinct(a.call.names))
    ensures Unique(Step(st, a).cards) && Sound(Step(st, a).cards)
  {
    match a
    case Probing(call) =>
      ProbeKeeps(st.cards, call);
      ProbeKeepsColours(st.cards, call);
    case Configuring(n, rc, choice) =>
      ChoiceIsFree(st, choice);
    case Done(_, _) =>
    case Reopening(_) =>
  }

  lemma ChoiceIsFree(st: State, choice: nat)
    requires choice < |Offered(st.cards, st.redType)|
    ensures var c := Offered(st.cards, st.redType)[choice]; c != NoColour ==> !Used(st.cards, c)
  {
    var menu := Offered(st.cards, st.redType);
    OfferedIsFree(st.cards, st.redType, 4, menu[choice]);
    assert choice == |menu| - 1 || menu[choice] in OfferedAmong(st.cards, st.redType, 4);
  }

  /** Whatever the user and the system do, no colour is ever on two cards and no device is ever
      listed twice. */
  lemma {:induction false} RunKeepsOwners(st: State, actions: seq<Action>)
    requires PossibleRun(st, actions) && SystemOk(actions) && Unique(st.cards) && Sound(st.cards)
    ensures Unique(Play(st, actions).cards) && Sound(Play(st, actions).cards)
    decreases |actions|
  {
    if actions != [] {
      StepKeepsOwners(st, actions[0]);
      RunKeepsOwners(Step(st, actions[0]), actions[1..]);
    }
  }

  // ---- agreement over runs ----

  /** Cards, settings and udev rules are in step: no colour is on two cards and the settings of each
      colour name its card.  When the dialog has been left, there is a GREEN card, and RED is a card
      or a dial-up line; and if that wrote the rules, the settings name exactly the devices that the
      rules create, and the names of the rules do not collide. */
  ghost predicate InStep(st: State) {
    && Unique(st.cards) && Agrees(st.cards, st.eth, st.renamed)
    && (st.exited ==>
          && Used(st.cards, Green)
          && (DialUp(st.redType) || Used(st.cards, Red))
          && (st.wrote ==> AgreesWithRules(st.cards, st.eth) && st.rules == Rules(st.cards) && DistinctRules(st.rules)))
  }

  lemma GivingUpRedAgrees(st: State)
    requires Agrees(st.cards, st.eth, st.renamed) && !Used(st.cards, Red)
    ensures Agrees(st.cards, GiveUpRed(st).eth, st.renamed)
  {
    var eth' := GiveUpRed(st).eth;
    forall c: Colour, f: Field | c != Red
      ensures Get(eth', Key(c, f)) == Get(st.eth, Key(c, f))
    {
      KeysDiffer(c, f, Red, Dev);
      KeysDiffer(c, f, Red, Count);
    }
    assert OnlyTouches(st.eth, eth', Red);
    forall n | 0 <= n < |st.cards| && st.cards[n].colour != NoColour
      ensures Fits(eth', st.cards[n], st.renamed)
    {
      UntouchedCard(st.eth, eth', Red, st.cards[n], st.renamed);
    }
    forall c | c != NoColour && !Used(st.cards, c)
      ensures NamesNobody(eth', c)
    {
      if c == Red {
        assert NamesNobody(st.eth, Red);
        KeysDiffer(Red, Dev, Red, Count);
        KeysDiffer(Red, Driver, Red, Dev);
        KeysDiffer(Red, Driver, Red, Count);
        KeysDiffer(Red, Mac, Red, Dev);
        KeysDiffer(Red, Mac, Red, Count);
      } else {
        UntouchedColour(st.eth, eth', Red, c);
      }
    }
  }

  lemma RulesAreDistinct(cards: seq<Card>)
    requires Unique(cards)
    ensures DistinctRules(Rules(cards))
  {
    assert AddressedUnique(cards);
    NamesCollideIffColoursDo(cards);
  }

  lemma WritingAgrees(cards: seq<Card>, eth: Settings, renamed: bool)
    requires Agrees(cards, eth, renamed) && Unique(cards)
    ensures AgreesWithRules(cards, Renamed(cards, eth)) && Agrees(cards, Renamed(cards, eth), true)
    ensures DistinctRules(Rules(cards))
  {
    RenamedAgrees(cards, eth, renamed);
    RulesAreDistinct(cards);
  }

  /** Trying to leave keeps everything in step; and leaving with changes writes the rules if their
      file can be opened. */
  lemma FinishIsInStep(st: State, answer: int, opens: bool)
    requires InStep(st) && !st.exited
    ensures InStep(Finish(st, answer, opens))
    ensures var after := Finish(st, answer, opens); after.exited && after.changed && opens ==> after.wrote
  {
    if MayExit(st, answer) {
      var st1 := if DialUp(st.redType) || Used(st.cards, Red) then st else GiveUpRed(st);
      if st1 != st {
        GivingUpRedAgrees(st);
      }
      if st1.changed && opens {
        WritingAgrees(st1.cards, st1.eth, st1.renamed);
      }
    }
  }

  /** Configuring a card keeps everything in step, whatever is chosen. */
  lemma ConfigureIsInStep(st: State, n: nat, rc: int, choice: nat)
    requires InStep(st) && Possible(st, Configuring(n, rc, choice))
    ensures InStep(Step(st, Configuring(n, rc, choice)))
  {
    ChoiceIsFree(st, choice);
    AssignKeepsAgreement(st.cards, st.eth, n, Offered(st.cards, st.redType)[choice], st.renamed);
  }

  lemma AssignKeepsAddressed(cards: seq<Card>, eth: Settings, n: nat, c: Colour)
    requires n < |cards| && Addressed(cards)
    ensures Addressed(Assign(cards, eth, n, c).0)
  {
  }

  lemma StepKeepsAddressed(st: State, a: Action)
    requires Possible(st, a) && Addressed(st.cards) && (a.Probing? ==> "" !in a.call.names)
    ensures Addressed(Step(st, a).cards)
  {
    match a
    case Probing(call) => ProbeKeepsAddressed(st.cards, call);
    case Configuring(n, rc, choice) => AssignKeepsAddressed(st.cards, st.eth, n, Offered(st.cards, st.redType)[choice]);
    case Done(_, _) =>
    case Reopening(_) =>
  }

  /** This action gives no device to a card that already has a colour. */
  ghost predicate Gentle(st: State, a: Action) {
    a.Probing? ==> LeavesColoured(st.cards, a.call)
  }

  /** Only a probe can break the order, and it does so exactly when it gives a device to a coloured card. */
  lemma StepIsInStepIffGentle(st: State, a: Action)
    requires InStep(st) && Possible(st, a) && (st.renamed ==> Addressed(st.cards))
    ensures InStep(Step(st, a)) <==> Gentle(st, a)
  {
    match a {
      case Probing(call) =>
        ProbeAndAgreement(st.cards, st.eth, call, st.renamed);
        ProbeKeepsColours(st.cards, call);
      case Configuring(n, rc, choice) =>
        ConfigureIsInStep(st, n, rc, choice);
      case Done(answer, opens) =>
        FinishIsInStep(st, answer, opens);
      case Reopening(_) =>
    }
  }

  ghost predicate InStepAllAlong(st: State, actions: seq<Action>)
    requires PossibleRun(st, actions)
    decreases |actions|
  {
    InStep(st) && (actions == [] || InStepAllAlong(Step(st, actions[0]), actions[1..]))
  }

  ghost predicate GentleRun(st: State, actions: seq<Action>)
    requires PossibleRun(st, actions)
    decreases |actions|
  {
    actions == [] || (Gentle(st, actions[0]) && GentleRun(Step(st, actions[0]), actions[1..]))
  }

  lemma {:induction false} EndOfRun(st: State, actions: seq<Action>)
    requires PossibleRun(st, actions) && InStepAllAlong(st, actions)
    ensures InStep(Play(st, actions))
    decreases |actions|
  {
    if actions != [] {
      EndOfRun(Step(st, actions[0]), actions[1..]);
    }
  }

  /** Over any run, with the dialog opened as often as one likes, cards, settings and rules stay in step
      all along exactly when no probe gives a device to a card that already has a colour. */
  lemma {:induction false} RunIsInStepIffGentle(st: State, actions: seq<Action>)
    requires PossibleRun(st, actions) && SystemOk(actions) && InStep(st) && Addressed(st.cards)
    ensures InStepAllAlong(st, actions) <==> GentleRun(st, actions)
    ensures GentleRun(st, actions) ==> InStep(Play(st, actions))
    decreases |actions|
  {
    if actions != [] {
      StepIsInStepIffGentle(st, actions[0]);
      StepKeepsAddressed(st, actions[0]);
      if Gentle(st, actions[0]) {
        RunIsInStepIffGentle(Step(st, actions[0]), actions[1..]);
      }
    }
    if InStepAllAlong(st, actions) {
      EndOfRun(st, actions);
    }
  }

  /** A change is not forgotten, however often the dialog is left and opened again. */
  lemma {:induction false} ChangesAreKept(st: State, actions: seq<Action>)
    requires PossibleRun(st, actions) && st.changed
    ensures Play(st, actions).changed
    decreases |actions|
  {
    if actions != [] {
      ChangesAreKept(Step(st, actions[0]), actions[1..]);
    }
  }

  /** Once a card has been assigned, with button 0 or 1, every later exit writes the rules if their file can
      be opened. */
  lemma ChangesAreWritten(st: State, n: nat, rc: int, choice: nat, actions: seq<Action>, answer: int)
    requires Possible(st, Configuring(n, rc, choice)) && (rc == 0 || rc == 1)
    requires PossibleRun(Step(st, Configuring(n, rc, choice)), actions)
    requires var last := Play(Step(st, Configuring(n, rc, choice)), actions); !last.exited && MayExit(last, answer)
    ensures var last := Play(Step(st, Configuring(n, rc, choice)), actions);
            Step(last, Done(answer, true)).exited && Step(last, Done(answer, true)).wrote
  {
    ChangesAreKept(Step(st, Configuring(n, rc, choice)), actions);
  }

  // ---- what the user can rely on, whatever the system answers ----

  datatype Choice =
    | Load(driver: string, options: string, description: string)
    | Configure(n: nat, rc: int, choice: nat)
    | Leave(answer: int)
    | Enter(touched: bool)

  datatype Answer = Answer(loads: bool, names: seq<string>, sys: Sysfs, opens: bool)

  function Act(u: Choice, r: Answer): Action {
    match u
    case Load(driver, options, description) =>
      Probing(Call(Some(driver), Some(description), options, r.loads, r.names, r.sys))
    case Configure(n, rc, choice) => Configuring(n, rc, choice)
    case Leave(answer) => Done(answer, r.opens)
    case Enter(touched) => Reopening(touched)
  }

  /** One choice of the user and the system's answer; a choice that the dialog does not offer at this
      point cannot be made. */
  function Respond(st: State, u: Choice, r: Answer): State {
    if Possible(st, Act(u, r)) then Step(st, Act(u, r)) else st
  }

  /** In step all along, whatever the system answers. */
  ghost predicate AlwaysInStep(st: State, script: seq<Choice>)
    decreases |script|
  {
    InStep(st)
    && (script == [] || forall r: Answer :: IsDirectory(r.names) ==> AlwaysInStep(Respond(st, script[0], r), script[1..]))
  }

  /** Whatever the system answers, a module is only loaded when its coloured cards have devices. */
  ghost predicate AlwaysDressed(st: State, script: seq<Choice>)
    decreases |script|
  {
    script == []
    || (&& (script[0].Load? && !st.exited ==> DressedFor(st.cards, script[0].driver))
        && forall r: Answer :: IsDirectory(r.names) ==> AlwaysDressed(Respond(st, script[0], r), script[1..]))
  }

  lemma ResponseIsInStep(st: State, u: Choice, r: Answer)
    requires InStep(st) && Addressed(st.cards) && IsDirectory(r.names)
    requires u.Load? && !st.exited ==> DressedFor(st.cards, u.driver)
    ensures InStep(Respond(st, u, r)) && Addressed(Respond(st, u, r).cards)
  {
    var a := Act(u, r);
    if Possible(st, a) {
      if u.Load? {
        DressedIsLeft(st.cards, a.call);
      }
      StepIsInStepIffGentle(st, a);
      StepKeepsAddressed(st, a);
    }
  }

  lemma BadResponse(st: State, u: Choice) returns (r: Answer)
    requires InStep(st) && Addressed(st.cards) && u.Load? && !st.exited && !DressedFor(st.cards, u.driver)
    ensures IsDirectory(r.names) && !InStep(Respond(st, u, r))
  {
    var c := UndressedIsHit(st.cards, st.eth, u.driver, u.options, Some(u.description), st.renamed);
    r := Answer(c.loads, c.names, c.sys, true);
    assert Act(u, r) == Probing(c);
  }

  /** A script of the user is safe, whatever the system answers, exactly when it never loads a module
      while a coloured card of that module has no device. */
  lemma {:induction false} ScriptIsSafeIffDressed(st: State, script: seq<Choice>)
    requires InStep(st) && Addressed(st.cards)
    ensures AlwaysInStep(st, script) <==> AlwaysDressed(st, script)
    decreases |script|
  {
    if script != [] {
      if script[0].Load? && !st.exited && !DressedFor(st.cards, script[0].driver) {
        var r := BadResponse(st, script[0]);
        assert !AlwaysInStep(Respond(st, script[0], r), script[1..]);
      } else {
        forall r: Answer | IsDirectory(r.names)
          ensures AlwaysInStep(Respond(st, script[0], r), script[1..]) <==> AlwaysDressed(Respond(st, script[0], r), script[1..])
        {
          ResponseIsInStep(st, script[0], r);
          ScriptIsSafeIffDressed(Respond(st, script[0], r), script[1..]);
        }
      }
    }
  }

  // ---- why care is needed ----

  const Onboard := Card("e100", "", "", "Onboard", NoColour, "", "8086", "103b")
  const Plug := Call(Some("e100"), Some("Manual"), "", true, ["eth0"], (name: string) => Info("e100", "8086", "103b", "00:0e"))
  const Fresh := State([Onboard], map[], "STATIC", false, false, [], false, false)

  lemma FirstOffer()
    ensures Offered([Onboard], "STATIC")[0] == Green
  {
    assert OfferedAmong([Onboard], "STATIC", 1) == [Green];
    assert [Green] <= OfferedAmong([Onboard], "STATIC", 2);
    assert [Green] <= OfferedAmong([Onboard], "STATIC", 3);
    assert [Green] <= OfferedAmong([Onboard], "STATIC", 4);
  }

  /** A coloured card without a device takes the next device that is probed, and the settings keep
      the empty name. */
  lemma CarelessRunDisagrees()
    ensures InStep(Fresh) && Possible(Fresh, Configuring(0, 1, 0))
    ensures var st := Step(Fresh, Configuring(0, 1, 0)); InStep(st) && Possible(st, Probing(Plug)) && !InStep(Step(st, Probing(Plug)))
  {
    FirstOffer();
    assert Offered([Onboard], "STATIC")[0] == Green;
    var st := Step(Fresh, Configuring(0, 1, 0));
    ConfigureIsInStep(Fresh, 0, 1, 0);
    assert st.cards == [Onboard.(colour := Green)];
    assert Scan(st.cards, ["eth0"]) == ["eth0"] by {
      assert "eth0"[0] == 'e' && |"eth0"| == 4;
      assert Scan(st.cards, ["eth0"][1..]) == [];
    }
    StepIsInStepIffGentle(st, Probing(Plug));
    assert FillByDriver(st.cards, 0, "e100", ["eth0"], Plug.sys).0[0].device == "eth0";
    AppendingLeaves(st.cards, Plug, 0);
  }
}
