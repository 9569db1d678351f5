/** Adding cards by hand (src/installer/networking.c:662-737): the user types a module with its options,
    or picks one of the cards that are not detected, until the dialog closes.  Answers that are not
    given any more leave the dialog open. */
module NetManual {

  import opened Sequences
  import opened Wrappers
  import opened NetTable
  import opened NetMatch
  import opened NetCalls
  import opened NetColours
  import opened NetRuns

  /** What the system answers to a probe. */
  datatype Answer = Answer(loads: bool, names: seq<string>, sys: Sysfs)

  /** A button and the text in the field. */
  datatype Typed = Typed(button: int, text: string, answer: Answer)

  /** A button, the line of the menu, what is typed if that is the first line, and the answer to the
      probe if it is another. */
  datatype Picked = Picked(button: int, choice: nat, typed: seq<Typed>, answer: Answer)

  /** A card of the list of cards that are not detected; the first line of the list is "manual". */
  datatype Isa = Isa(driver: string, description: string)

  predicate Accepts(button: int) {
    button == 0 || button == 1
  }

  function FirstBlank(s: string): (i: nat)
    ensures i <= |s| && (i < |s| ==> s[i] == ' ') && forall j :: 0 <= j < i ==> s[j] != ' '
  {
    if s == "" || s[0] == ' ' then 0 else 1 + FirstBlank(s[1..])
  }

  function CallWith(driver: string, options: string, description: string, a: Answer): Call {
    Call(Some(driver), Some(description), options, a.loads, a.names, a.sys)
  }

  /** The module is what stands before the first blank, the options what stands behind it. */
  function CallTyped(t: Typed): Call {
    var i := FirstBlank(t.text);
    if i < |t.text| then CallWith(t.text[..i], t.text[i + 1..], "Unknown card", t.answer)
    else CallWith(t.text, "", "Unknown card", t.answer)
  }

  predicate Probes(t: Typed) {
    Accepts(t.button) && t.text != ""
  }

  /** With options the dialog closes when the probe succeeds, without options when it fails. */
  predicate Closes(cards: seq<Card>, t: Typed) {
    || !Accepts(t.button)
    || (t.text != "" && (ProbeResult(cards, CallTyped(t)) == SUCCESS <==> ' ' in t.text))
  }

  function CallsOf(t: Typed): seq<Call> {
    if Probes(t) then [CallTyped(t)] else []
  }

  /** The calls that the typed answers lead to. */
  function TypedCalls(cards: seq<Card>, typed: seq<Typed>): seq<Call>
    decreases |typed|
  {
    if typed == [] then []
    else CallsOf(typed[0])
         + if Closes(cards, typed[0]) then [] else TypedCalls(Run(cards, CallsOf(typed[0])), typed[1..])
  }

  /** The result of addmanual; None while the dialog is still open. */
  function TypedResult(cards: seq<Card>, typed: seq<Typed>): Option<int>
    decreases |typed|
  {
    if typed == [] then None
    else if Closes(cards, typed[0]) then Some(if Accepts(typed[0].button) then SUCCESS else FAILURE)
    else TypedResult(Run(cards, CallsOf(typed[0])), typed[1..])
  }

  /** The calls that one line of the menu leads to, and whether the menu closes. */
  function PickedCalls(cards: seq<Card>, isa: seq<Isa>, p: Picked): seq<Call>
    requires p.choice < |isa|
  {
    if !Accepts(p.button) then []
    else if p.choice == 0 then TypedCalls(cards, p.typed)
    else [CallWith(isa[p.choice].driver, "", isa[p.choice].description, p.answer)]
  }

  predicate MenuCloses(cards: seq<Card>, isa: seq<Isa>, p: Picked)
    requires p.choice < |isa|
  {
    || !Accepts(p.button)
    || (p.choice == 0 && TypedResult(cards, p.typed) == Some(SUCCESS))
    || (p.choice != 0 && ProbeResult(cards, CallWith(isa[p.choice].driver, "", isa[p.choice].description, p.answer)) == SUCCESS)
  }

  predicate InMenu(isa: seq<Isa>, picked: seq<Picked>) {
    forall i :: 0 <= i < |picked| ==> picked[i].choice < |isa|
  }

  function ManualCalls(cards: seq<Card>, isa: seq<Isa>, picked: seq<Picked>): seq<Call>
    requires InMenu(isa, picked)
    decreases |picked|
  {
    if picked == [] then []
    else
      var calls := PickedCalls(cards, isa, picked[0]);
      calls + if MenuCloses(cards, isa, picked[0]) then [] else ManualCalls(Run(cards, calls), isa, picked[1..])
  }

  class Manual {
    const table: Table

    constructor (t: Table)
      ensures table == t
    {
      table := t;
    }

    /** One answer to the dialog for a module. */
    method TypeModule(t: Typed) returns (closes: bool)
      modifies table
      ensures table.networks == Run(old(table.networks), CallsOf(t)) && closes == Closes(old(table.networks), t)
    {
      if !Accepts(t.button) {
        return true;
      }
      if t.text == "" {
        return false;
      }
      ghost var before := table.networks;
      var rc := table.ProbeCard(CallTyped(t));
      assert Run(before, [CallTyped(t)]) == table.networks;
      closes := if FirstBlank(t.text) < |t.text| then rc == SUCCESS else rc != SUCCESS;
    }

    /** addmanual: the result is SUCCESS when the dialog closes on a typed module, and FAILURE when it is
        cancelled. */
    method AddManual(typed: seq<Typed>) returns (rc: Option<int>)
      modifies table
      ensures table.networks == Run(old(table.networks), TypedCalls(old(table.networks), typed))
      ensures rc == TypedResult(old(table.networks), typed)
    {
      ghost var start := table.networks;
      ghost var done: seq<Call> := [];
      for i := 0 to |typed|
        invariant table.networks == Run(start, done)
        invariant done + TypedCalls(table.networks, typed[i..]) == TypedCalls(start, typed)
        invariant TypedResult(table.networks, typed[i..]) == TypedResult(start, typed)
      {
        assert typed[i..][1..] == typed[i + 1..];
        TypedStep(start, table.networks, typed, i, done);
        var closes := TypeModule(typed[i]);
        done := done + CallsOf(typed[i]);
        if closes {
          return Some(if Accepts(typed[i].button) then SUCCESS else FAILURE);
        }
      }
      assert done + [] == done;
      rc := None;
    }

    /** One line of the menu. */
    method PickLine(isa: seq<Isa>, p: Picked) returns (closes: bool)
      requires p.choice < |isa|
      modifies table
      ensures table.networks == Run(old(table.networks), PickedCalls(old(table.networks), isa, p))
      ensures closes == MenuCloses(old(table.networks), isa, p)
    {
      if !Accepts(p.button) {
        return true;
      }
      if p.choice == 0 {
        var rc := AddManual(p.typed);
        closes := rc == Some(SUCCESS);
      } else {
        ghost var before := table.networks;
        var call := CallWith(isa[p.choice].driver, "", isa[p.choice].description, p.answer);
        var rc := table.ProbeCard(call);
        assert Run(before, [call]) == table.networks;
        closes := rc == SUCCESS;
      }
    }

    /** manuallist: lines of the menu are picked until one of them adds a card, or "back" is chosen. */
    method ManualList(isa: seq<Isa>, picked: seq<Picked>)
      requires InMenu(isa, picked)
      modifies table
      ensures table.networks == Run(old(table.networks), ManualCalls(old(table.networks), isa, picked))
    {
      ghost var start := table.networks;
      ghost var done: seq<Call> := [];
      for i := 0 to |picked|
        invariant table.networks == Run(start, done)
        invariant done + ManualCalls(table.networks, isa, picked[i..]) == ManualCalls(start, isa, picked)
      {
        PickedStep(start, table.networks, isa, picked, i, done);
        ghost var calls := PickedCalls(table.networks, isa, picked[i]);
        var closes := PickLine(isa, picked[i]);
        done := done + calls;
        if closes {
          return;
        }
      }
      assert done + [] == done;
    }
  }

  lemma {:induction false} RunSum(cards: seq<Card>, a: seq<Call>, b: seq<Call>)
    ensures Run(cards, a + b) == Run(Run(cards, a), b)
    decreases |a|
  {
    if a == [] {
      assert a + b == b;
    } else {
      assert (a + b)[1..] == a[1..] + b;
      RunSum(Probe(cards, a[0]), a[1..], b);
    }
  }

  lemma TypedStep(start: seq<Card>, cards: seq<Card>, typed: seq<Typed>, i: nat, done: seq<Call>)
    requires i < |typed| && cards == Run(start, done)
    requires done + TypedCalls(cards, typed[i..]) == TypedCalls(start, typed)
    ensures var calls, next := CallsOf(typed[i]), Run(cards, CallsOf(typed[i]));
            && next == Run(start, done + calls)
            && (if Closes(cards, typed[i]) then done + calls == TypedCalls(start, typed)
                else (done + calls) + TypedCalls(next, typed[i + 1..]) == TypedCalls(start, typed))
  {
    var calls := CallsOf(typed[i]);
    RunSum(start, done, calls);
    assert typed[i..][1..] == typed[i + 1..] && typed[i..][0] == typed[i];
    assert calls + [] == calls;
    Associative(done, calls, TypedCalls(Run(cards, calls), typed[i + 1..]));
  }

  lemma PickedStep(start: seq<Card>, cards: seq<Card>, isa: seq<Isa>, picked: seq<Picked>, i: nat, done: seq<Call>)
    requires InMenu(isa, picked) && i < |picked| && cards == Run(start, done)
    requires done + ManualCalls(cards, isa, picked[i..]) == ManualCalls(start, isa, picked)
    ensures var calls := PickedCalls(cards, isa, picked[i]);
            var next := Run(cards, calls);
            && next == Run(start, done + calls)
            && (if MenuCloses(cards, isa, picked[i]) then done + calls == ManualCalls(start, isa, picked)
                else (done + calls) + ManualCalls(next, isa, picked[i + 1..]) == ManualCalls(start, isa, picked))
  {
    var calls := PickedCalls(cards, isa, picked[i]);
    RunSum(start, done, calls);
    assert picked[i..][1..] == picked[i + 1..] && picked[i..][0] == picked[i];
    assert calls + [] == calls;
    Associative(done, calls, ManualCalls(Run(cards, calls), isa, picked[i + 1..]));
  }

  // ---- what the dialogs do ----

  /** A call that the run of the card list knows: some module, and a description for new cards. */
  predicate IsLoad(c: Call) {
    c.driver.Some? && c.description.Some?
  }

  lemma {:induction false} TypedCallsAreLoads(cards: seq<Card>, typed: seq<Typed>)
    ensures forall i :: 0 <= i < |TypedCalls(cards, typed)| ==> IsLoad(TypedCalls(cards, typed)[i])
    decreases |typed|
  {
    if typed != [] && !Closes(cards, typed[0]) {
      TypedCallsAreLoads(Run(cards, CallsOf(typed[0])), typed[1..]);
    }
  }

  /** Whatever is typed and picked amounts to a sequence of probes of modules. */
  lemma {:induction false} ManualCallsAreLoads(cards: seq<Card>, isa: seq<Isa>, picked: seq<Picked>)
    requires InMenu(isa, picked)
    ensures forall i :: 0 <= i < |ManualCalls(cards, isa, picked)| ==> IsLoad(ManualCalls(cards, isa, picked)[i])
    decreases |picked|
  {
    if picked != [] {
      var calls := PickedCalls(cards, isa, picked[0]);
      TypedCallsAreLoads(cards, picked[0].typed);
      if !MenuCloses(cards, isa, picked[0]) {
        ManualCallsAreLoads(Run(cards, calls), isa, picked[1..]);
      }
    }
  }

  function Probings(calls: seq<Call>): (actions: seq<Action>)
    ensures |actions| == |calls|
  {
    seq(|calls|, i requires 0 <= i < |calls| => Probing(calls[i]))
  }

  lemma {:induction false} ProbingsRun(st: State, calls: seq<Call>)
    requires !st.exited
    ensures PossibleRun(st, Probings(calls)) && Play(st, Probings(calls)) == st.(cards := Run(st.cards, calls))
    decreases |calls|
  {
    if calls != [] {
      assert Probings(calls)[1..] == Probings(calls[1..]);
      ProbingsRun(Step(st, Probing(calls[0])), calls[1..]);
    }
  }

  /** Whatever is typed and picked while the card list is open amounts to a run of it that loads modules:
      it changes the table as the dialogs do, and nothing else. */
  lemma ManualIsARunOfLoads(st: State, isa: seq<Isa>, picked: seq<Picked>)
    requires InMenu(isa, picked) && !st.exited
    ensures var calls := ManualCalls(st.cards, isa, picked);
            && (forall i :: 0 <= i < |calls| ==> IsLoad(calls[i]))
            && PossibleRun(st, Probings(calls))
            && Play(st, Probings(calls)) == st.(cards := Run(st.cards, calls))
  {
    ManualCallsAreLoads(st.cards, isa, picked);
    ProbingsRun(st, ManualCalls(st.cards, isa, picked));
  }

  // ---- whether SUCCESS means that there is an additional interface ----

  /** Some device is listed that was not. */
  ghost predicate Adds(cards: seq<Card>, cards': seq<Card>) {
    exists name :: Listed(cards', name) && !Listed(cards, name)
  }

  /** Loading a module succeeds exactly when it lists a new device, and otherwise changes nothing. */
  lemma LoadSucceedsIffItAdds(cards: seq<Card>, c: Call)
    requires IsLoad(c) && IsDirectory(c.names)
    ensures ProbeResult(cards, c) == SUCCESS <==> Adds(cards, Probe(cards, c))
    ensures ProbeResult(cards, c) == SUCCESS <==> Probe(cards, c) != cards
  {
    var found := Scan(cards, c.names);
    ScanIsFree(cards, c.names);
    if ProbeResult(cards, c) == SUCCESS {
      assert found[0] in found;
      LoadedModuleServes(cards, c, found[0]);
      assert Listed(Probe(cards, c), found[0]) && !Listed(cards, found[0]);
    } else {
      assert Probe(cards, c) == cards;
    }
  }

  /** The position of the answer that closes the dialog, if one does. */
  function Closing(cards: seq<Card>, typed: seq<Typed>): (k: nat)
    ensures k <= |typed|
    decreases |typed|
  {
    if typed == [] || Closes(cards, typed[0]) then 0 else 1 + Closing(Run(cards, CallsOf(typed[0])), typed[1..])
  }

  /** The table after the first i answers. */
  function After(cards: seq<Card>, typed: seq<Typed>, i: nat): seq<Card>
    requires i <= |typed|
    decreases |typed|
  {
    if i == 0 then cards else After(Run(cards, CallsOf(typed[0])), typed[1..], i - 1)
  }

  ghost predicate Directories(typed: seq<Typed>) {
    forall i :: 0 <= i < |typed| ==> IsDirectory(typed[i].answer.names)
  }

  lemma FirstAnswerAddsIff(cards: seq<Card>, t: Typed)
    requires IsDirectory(t.answer.names)
    ensures Adds(cards, Run(cards, CallsOf(t))) <==> Probes(t) && (' ' in t.text <==> Closes(cards, t))
  {
    if Probes(t) {
      LoadSucceedsIffItAdds(cards, CallTyped(t));
      assert Run(cards, [CallTyped(t)]) == Probe(cards, CallTyped(t));
    }
  }

  /** An answer adds a device exactly when it names a module, and closes the dialog if and only if it has
      options. */
  lemma {:induction false} AnswerAddsIff(cards: seq<Card>, typed: seq<Typed>, i: nat)
    requires Directories(typed) && i < |typed| && i <= Closing(cards, typed)
    ensures Adds(After(cards, typed, i), After(cards, typed, i + 1))
       <==> Probes(typed[i]) && (' ' in typed[i].text <==> i == Closing(cards, typed))
    decreases i
  {
    var next := Run(cards, CallsOf(typed[0]));
    if i == 0 {
      FirstAnswerAddsIff(cards, typed[0]);
      assert After(cards, typed, 1) == After(next, typed[1..], 0);
    } else {
      AnswerAddsIff(next, typed[1..], i - 1);
    }
  }

  lemma {:induction false} ClosesAt(cards: seq<Card>, typed: seq<Typed>)
    requires TypedResult(cards, typed) == Some(SUCCESS)
    ensures Closing(cards, typed) < |typed| && Probes(typed[Closing(cards, typed)])
    decreases |typed|
  {
    if !Closes(cards, typed[0]) {
      ClosesAt(Run(cards, CallsOf(typed[0])), typed[1..]);
    }
  }

  /** When the dialog reports SUCCESS, the module that closed it has added a device if and only if options
      were typed with it. */
  lemma SuccessHasAddedIffOptions(cards: seq<Card>, typed: seq<Typed>)
    requires Directories(typed) && TypedResult(cards, typed) == Some(SUCCESS)
    ensures var k := Closing(cards, typed);
            k < |typed| && (Adds(After(cards, typed, k), After(cards, typed, k + 1)) <==> ' ' in typed[k].text)
  {
    ClosesAt(cards, typed);
    AnswerAddsIff(cards, typed, Closing(cards, typed));
  }

  /** Answer i of the dialog is one that adds a device. */
  predicate Adding(cards: seq<Card>, typed: seq<Typed>, i: nat) {
    i < |typed| && i <= Closing(cards, typed) && Probes(typed[i]) && (' ' in typed[i].text <==> i == Closing(cards, typed))
  }

  lemma AddsInTurn(cards: seq<Card>, next: seq<Card>, final: seq<Card>)
    requires Grows(cards, next) && Grows(next, final)
    ensures Adds(cards, final) <==> Adds(cards, next) || Adds(next, final)
  {
    forall name
      ensures Listed(cards, name) ==> Listed(next, name)
      ensures Listed(next, name) ==> Listed(final, name)
    {
      if Listed(cards, name) {
        GrowthKeepsListed(cards, next, name);
      }
      if Listed(next, name) {
        GrowthKeepsListed(next, final, name);
      }
    }
  }

  lemma AddingShifts(cards: seq<Card>, typed: seq<Typed>, i: nat)
    requires typed != [] && !Closes(cards, typed[0])
    ensures Adding(cards, typed, i + 1) <==> Adding(Run(cards, CallsOf(typed[0])), typed[1..], i)
  {
  }

  lemma AddingAfterFirst(cards: seq<Card>, typed: seq<Typed>)
    requires typed != [] && !Closes(cards, typed[0])
    ensures (exists i: nat :: Adding(cards, typed, i))
       <==> Adding(cards, typed, 0) || exists i: nat :: Adding(Run(cards, CallsOf(typed[0])), typed[1..], i)
  {
    var next, rest := Run(cards, CallsOf(typed[0])), typed[1..];
    if i: nat :| Adding(cards, typed, i) {
      if i != 0 {
        AddingShifts(cards, typed, i - 1);
      }
    }
    if i: nat :| Adding(next, rest, i) {
      AddingShifts(cards, typed, i);
    }
  }

  /** The whole dialog, however it ends, adds a device exactly when the module that closed it had options
      or some module typed before had none. */
  lemma {:induction false} DialogAddsIff(cards: seq<Card>, typed: seq<Typed>)
    requires Directories(typed)
    ensures Adds(cards, Run(cards, TypedCalls(cards, typed))) <==> exists i: nat :: Adding(cards, typed, i)
    decreases |typed|
  {
    if typed != [] {
      var calls, rest := CallsOf(typed[0]), typed[1..];
      var next := Run(cards, calls);
      FirstAnswerAddsIff(cards, typed[0]);
      if Closes(cards, typed[0]) {
        assert calls + [] == calls;
        assert Adding(cards, typed, 0) <==> Probes(typed[0]) && ' ' in typed[0].text;
      } else {
        DialogAddsIff(next, rest);
        AddingAfterFirst(cards, typed);
        RunSum(cards, calls, TypedCalls(next, rest));
        RunGrows(cards, calls);
        RunGrows(next, TypedCalls(next, rest));
        AddsInTurn(cards, next, Run(next, TypedCalls(next, rest)));
      }
    }
  }

  // ---- what is typed and picked, as the user sees it ----

  /** The text is a module, or a module, a blank and its options. */
  lemma TypedText(t: Typed, driver: string, options: string)
    requires ' ' !in driver
    ensures t.text == driver ==>
              CallTyped(t) == Call(Some(driver), Some("Unknown card"), "", t.answer.loads, t.answer.names, t.answer.sys)
    ensures t.text == driver + " " + options ==>
              CallTyped(t) == Call(Some(driver), Some("Unknown card"), options, t.answer.loads, t.answer.names, t.answer.sys)
  {
    if t.text == driver + " " + options {
      assert t.text[|driver|] == ' ' && forall j :: 0 <= j < |driver| ==> t.text[j] == driver[j];
      assert FirstBlank(t.text) == |driver|;
      assert t.text[..|driver|] == driver && t.text[|driver| + 1..] == options;
    }
  }

  /** A new device shows up once the module is loaded. */
  ghost predicate Finds(cards: seq<Card>, a: Answer) {
    a.loads && exists i :: 0 <= i < |a.names| && Shown(cards, a.names[i])
  }

  /** The dialog for a module closes on the third button; on the others it stays open for an empty text, and
      closes when a module with options finds a device or one without options finds none. */
  lemma ClosesIff(cards: seq<Card>, t: Typed)
    ensures Closes(cards, t)
       <==> t.button !in {0, 1} || (t.text != "" && (Finds(cards, t.answer) <==> exists i :: 0 <= i < |t.text| && t.text[i] == ' '))
  {
    ResultOfCall(cards, CallTyped(t));
  }

  /** The result is that of the first answer that closes the dialog: SUCCESS, unless it cancels. */
  lemma {:induction false} ResultOfDialog(cards: seq<Card>, typed: seq<Typed>)
    ensures var k := Closing(cards, typed);
            TypedResult(cards, typed) == if k == |typed| then None else Some(if typed[k].button in {0, 1} then 0 else 1)
    decreases |typed|
  {
    if typed != [] && !Closes(cards, typed[0]) {
      ResultOfDialog(Run(cards, CallsOf(typed[0])), typed[1..]);
    }
  }

  lemma {:induction false} ClosingIsFirst(cards: seq<Card>, typed: seq<Typed>, i: nat)
    requires i < |typed|
    ensures i < Closing(cards, typed) ==> !Closes(After(cards, typed, i), typed[i])
    ensures i == Closing(cards, typed) ==> Closes(After(cards, typed, i), typed[i])
    decreases i
  {
    if i > 0 && !Closes(cards, typed[0]) {
      ClosingIsFirst(Run(cards, CallsOf(typed[0])), typed[1..], i - 1);
    }
  }

  /** One line of the menu: the first one opens the dialog for a module, the others load the module of their
      card, without options.  The menu closes on the third button and when a card was added; lines picked
      after that are of no account. */
  lemma LineOfMenu(cards: seq<Card>, isa: seq<Isa>, p: Picked, more: seq<Picked>)
    requires p.choice < |isa| && InMenu(isa, more)
    ensures var line := isa[p.choice];
            PickedCalls(cards, isa, p)
            == if p.button !in {0, 1} then []
               else if p.choice == 0 then TypedCalls(cards, p.typed)
               else [Call(Some(line.driver), Some(line.description), "", p.answer.loads, p.answer.names, p.answer.sys)]
    ensures MenuCloses(cards, isa, p)
       <==> p.button !in {0, 1} || (if p.choice == 0 then TypedResult(cards, p.typed) == Some(0) else Finds(cards, p.answer))
    ensures var next := Run(cards, PickedCalls(cards, isa, p));
            && InMenu(isa, [p] + more)
            && ManualCalls(cards, isa, [p] + more)
               == PickedCalls(cards, isa, p) + if MenuCloses(cards, isa, p) then [] else ManualCalls(next, isa, more)
  {
    assert ([p] + more)[0] == p && ([p] + more)[1..] == more;
    ResultOfCall(cards, CallWith(isa[p.choice].driver, "", isa[p.choice].description, p.answer));
  }
}
