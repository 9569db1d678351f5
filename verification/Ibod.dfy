/** The bandwidth-on-demand daemon (src/ibod/ibod.c:190-367): every tick samples the byte counters,
    smooths the rates, and may bring the second ISDN channel up or down.  `unsigned long` has 32
    bits, as on the targets the distribution is built for. */
module Ibod {

  import opened Smoothing

  const ULONG: int := 0x1_0000_0000

  /** The C conversion to unsigned long. */
  function U(n: int): (u: nat)
    ensures u < ULONG
    ensures 0 <= n < ULONG ==> u == n
  {
    n % ULONG
  }

  datatype Config = Config(enable: int, filter: int, limit: int, stayup: int, stayupTime: int)

  /** What one tick sees of the world: the clock in milliseconds, the open channels and their byte
      totals, the answers of the two ioctls, and the clock in seconds when it is read again. */
  datatype Input = Input(
    ms: int, channels: nat, inBytes: int, outBytes: int,
    upAnswer: int, upSec: int, downAnswer: int, checkSec: int)

  datatype State = State(
    msLast: int, inLast: nat, outLast: nat, inRate: nat, outRate: nat,
    channelsLast: int, upSec: int, exited: bool)

  /** A request to add or remove the second link, with the second it was made in and the answer: below
      zero it failed and the program ends, zero is done, and above zero the kernel did nothing. */
  datatype Event = Up(sec: int, answer: int) | Down(sec: int, answer: int)

  /** The values of the static variables when the program starts. */
  const Initial := State(0, 0, 0, 0, 0, -1, 0, false)

  /** Bytes per second since the last tick. */
  function Rate(now: int, last: nat, ms: nat): nat
    requires ms > 0
  {
    U(U(now - last) * 1000) / ms
  }

  function Smoothed(filter: int, rate: nat, sample: nat): nat {
    if filter < 1 then sample else U(U(rate * (filter - 1)) + sample) / filter
  }

  /** A tick that only takes notes: the first one, or one that finds fewer channels than before. */
  predicate OnlyNotes(st: State, x: Input) {
    st.channelsLast == -1 || x.channels < st.channelsLast
  }

  function Measured(cfg: Config, st: State, x: Input): State
    requires U(x.ms - st.msLast) > 0
  {
    var ms := U(x.ms - st.msLast);
    st.(msLast := x.ms, inLast := U(x.inBytes), outLast := U(x.outBytes),
        inRate := Smoothed(cfg.filter, st.inRate, Rate(x.inBytes, st.inLast, ms)),
        outRate := Smoothed(cfg.filter, st.outRate, Rate(x.outBytes, st.outLast, ms)))
  }

  predicate Loaded(cfg: Config, st: State) {
    st.inRate > U(cfg.limit) || st.outRate > U(cfg.limit)
  }

  /** The end of a tick, when it has found `channels` of them open. */
  function TakeDown(cfg: Config, st: State, x: Input, channels: nat): (State, seq<Event>) {
    var st1 := st.(channelsLast := channels);
    if channels > 1 && !Loaded(cfg, st) && cfg.stayup == 0 && x.checkSec - st.upSec > cfg.stayupTime then
      (if x.downAnswer < 0 then st.(exited := true) else st1, [Down(x.checkSec, x.downAnswer)])
    else (st1, [])
  }

  /** The second half of a tick: up, then perhaps down. */
  function Control(cfg: Config, st: State, x: Input): (State, seq<Event>) {
    if x.channels == 1 && Loaded(cfg, st) then
      if x.upAnswer < 0 then (st.(exited := true), [Up(x.upSec, x.upAnswer)])
      else
        var (st1, events) := TakeDown(cfg, st.(upSec := x.upSec), x, if x.upAnswer == 0 then 2 else 1);
        (st1, [Up(x.upSec, x.upAnswer)] + events)
    else TakeDown(cfg, st, x, x.channels)
  }

  function Step(cfg: Config, st: State, x: Input): (State, seq<Event>) {
    if st.exited then (st, [])
    else if OnlyNotes(st, x) then
      (st.(msLast := x.ms, channelsLast := x.channels, inLast := U(x.inBytes), outLast := U(x.outBytes)), [])
    else if U(x.ms - st.msLast) == 0 then (st.(msLast := x.ms, exited := true), [])
    else if x.channels == 0 || cfg.enable == 0 then (Measured(cfg, st, x).(channelsLast := x.channels), [])
    else Control(cfg, Measured(cfg, st, x), x)
  }

  class Daemon {
    const cf: Config
    var msLast: int
    var inBytesLast: nat
    var outBytesLast: nat
    var inBytesPerSec: nat
    var outBytesPerSec: nat
    var channelsLast: int
    var channelsNow: nat
    var tvUp: int
    var exited: bool

    ghost function Now(): State
      reads this
    {
      State(msLast, inBytesLast, outBytesLast, inBytesPerSec, outBytesPerSec, channelsLast, tvUp, exited)
    }

    constructor (config: Config)
      ensures cf == config && Now() == Initial
    {
      cf := config;
      msLast, inBytesLast, outBytesLast, inBytesPerSec, outBytesPerSec := 0, 0, 0, 0, 0;
      channelsLast, channelsNow, tvUp, exited := -1, 0, 0, false;
    }

    method BringUpSlave(answer: int) returns (rc: int)
      modifies this`channelsNow
      ensures rc == if answer < 0 then -1 else 0
      ensures channelsNow == if answer == 0 then 2 else old(channelsNow)
    {
      if answer < 0 {
        return -1;
      }
      if answer == 0 {
        channelsNow := 2;
      }
      rc := 0;
    }

    method BringDownSlave(answer: int) returns (rc: int)
      ensures rc == if answer < 0 then -1 else 0
    {
      rc := if answer < 0 then -1 else 0;
    }

    /** The part of get_if_state that computes the throughput. */
    method Measure(x: Input, msDelta: nat)
      requires msDelta > 0 && msDelta == U(x.ms - msLast)
      modifies this
      ensures Now() == Measured(cf, old(Now()), x) && channelsNow == old(channelsNow)
    {
      var inSample, outSample := Rate(x.inBytes, inBytesLast, msDelta), Rate(x.outBytes, outBytesLast, msDelta);
      if cf.filter < 1 {
        inBytesPerSec := inSample;
        outBytesPerSec := outSample;
      } else {
        inBytesPerSec := Smoothed(cf.filter, inBytesPerSec, inSample);
        outBytesPerSec := Smoothed(cf.filter, outBytesPerSec, outSample);
      }
      inBytesLast := U(x.inBytes);
      outBytesLast := U(x.outBytes);
      msLast := x.ms;
    }

    /** The part of get_if_state that takes the slave channel up or down. */
    method TakeUpOrDown(x: Input) returns (events: seq<Event>)
      requires !exited && channelsNow == x.channels
      modifies this
      ensures (Now(), events) == Control(cf, old(Now()), x)
    {
      events := [];
      if channelsNow == 1 && (inBytesPerSec > U(cf.limit) || outBytesPerSec > U(cf.limit)) {
        events := [Up(x.upSec, x.upAnswer)];
        var rc := BringUpSlave(x.upAnswer);
        if rc == -1 {
          exited := true;
          return;
        }
        tvUp := x.upSec;
        assert [Up(x.upSec, x.upAnswer)] + [] == events;
      }
      if channelsNow > 1 && inBytesPerSec <= U(cf.limit) && outBytesPerSec <= U(cf.limit) && cf.stayup == 0 {
        if x.checkSec - tvUp > cf.stayupTime {
          assert [] + [Down(x.checkSec, x.downAnswer)] == [Down(x.checkSec, x.downAnswer)];
          events := events + [Down(x.checkSec, x.downAnswer)];
          var rc := BringDownSlave(x.downAnswer);
          if rc == -1 {
            exited := true;
            return;
          }
        }
      }
      channelsLast := channelsNow;
    }

    /** get_if_state.  A division by a zero time difference ends the process, as exit does. */
    method Tick(x: Input) returns (events: seq<Event>)
      modifies this
      ensures (Now(), events) == Step(cf, old(Now()), x)
    {
      if exited {
        return [];
      }
      channelsNow := x.channels;
      if channelsLast == -1 || channelsNow < channelsLast {
        msLast := x.ms;
        channelsLast := channelsNow;
        inBytesLast := U(x.inBytes);
        outBytesLast := U(x.outBytes);
        return [];
      }
      var msDelta := U(x.ms - msLast);
      if msDelta == 0 {
        msLast := x.ms;
        exited := true;
        return [];
      }
      Measure(x, msDelta);
      if channelsNow == 0 || cf.enable == 0 {
        channelsLast := channelsNow;
        return [];
      }
      events := TakeUpOrDown(x);
    }
  }

  // ---- one tick ----

  /** A tick touches the link once at most: after bringing it up the rates are still above the limit. */
  lemma AtMostOneEvent(cfg: Config, st: State, x: Input)
    ensures |Step(cfg, st, x).1| <= 1
  {
  }

  /** A tick that gets as far as looking at the link. */
  predicate Looks(cfg: Config, st: State, x: Input) {
    !st.exited && st.channelsLast != -1 && x.channels >= st.channelsLast && U(x.ms - st.msLast) > 0 && cfg.enable != 0
  }

  predicate StayUpIsOver(cfg: Config, st: State, x: Input) {
    cfg.stayup == 0 && x.checkSec - st.upSec > cfg.stayupTime
  }

  /** When a tick asks for what, by the channels it finds: rewriting the channel count in between
      makes no difference.  In particular a disabled daemon, the first tick, and a tick that finds
      fewer channels or none leave the link alone. */
  lemma LinkIsTouchedIff(cfg: Config, st: State, x: Input)
    ensures Step(cfg, st, x).1 == [Up(x.upSec, x.upAnswer)]
       <==> Looks(cfg, st, x) && x.channels == 1
            && (Measured(cfg, st, x).inRate > U(cfg.limit) || Measured(cfg, st, x).outRate > U(cfg.limit))
    ensures Step(cfg, st, x).1 == [Down(x.checkSec, x.downAnswer)]
       <==> Looks(cfg, st, x) && x.channels > 1 && StayUpIsOver(cfg, st, x)
            && Measured(cfg, st, x).inRate <= U(cfg.limit) && Measured(cfg, st, x).outRate <= U(cfg.limit)
    ensures Step(cfg, st, x).1 in [[], [Up(x.upSec, x.upAnswer)], [Down(x.checkSec, x.downAnswer)]]
  {
  }

  predicate AsksToAdd(cfg: Config, st: State, x: Input) {
    Looks(cfg, st, x) && x.channels == 1 && (Measured(cfg, st, x).inRate > U(cfg.limit) || Measured(cfg, st, x).outRate > U(cfg.limit))
  }

  predicate AsksToRemove(cfg: Config, st: State, x: Input) {
    && Looks(cfg, st, x) && x.channels > 1 && StayUpIsOver(cfg, st, x)
    && Measured(cfg, st, x).inRate <= U(cfg.limit) && Measured(cfg, st, x).outRate <= U(cfg.limit)
  }

  /** Every field after a tick.  A tick that only takes notes leaves the rates alone; any other one smooths
      both, each from its own counter.  The program ends when the clock has not moved or a request fails. */
  lemma StateAfterTick(cfg: Config, st: State, x: Input)
    requires !st.exited
    ensures var r, ms := Step(cfg, st, x).0, U(x.ms - st.msLast);
            if st.channelsLast == -1 || x.channels < st.channelsLast then
              r == State(x.ms, U(x.inBytes), U(x.outBytes), st.inRate, st.outRate, x.channels, st.upSec, false)
            else if ms == 0 then r.exited
            else
              && r.msLast == x.ms && r.inLast == U(x.inBytes) && r.outLast == U(x.outBytes)
              && r.inRate == Smoothed(cfg.filter, st.inRate, Rate(x.inBytes, st.inLast, ms))
              && r.outRate == Smoothed(cfg.filter, st.outRate, Rate(x.outBytes, st.outLast, ms))
              && (r.exited <==> (AsksToAdd(cfg, st, x) && x.upAnswer < 0) || (AsksToRemove(cfg, st, x) && x.downAnswer < 0))
              && r.upSec == (if AsksToAdd(cfg, st, x) && x.upAnswer >= 0 then x.upSec else st.upSec)
              && (!r.exited ==> r.channelsLast == if AsksToAdd(cfg, st, x) && x.upAnswer == 0 then 2 else x.channels)
  {
  }

  /** Only an answer of zero to a bring-up makes the daemon count two channels where it found one. */
  lemma LinkIsAddedIff(cfg: Config, st: State, x: Input)
    requires x.channels == 1 && !Step(cfg, st, x).0.exited
    ensures Step(cfg, st, x).0.channelsLast == 2 <==> exists s :: Up(s, 0) in Step(cfg, st, x).1
  {
    LinkIsTouchedIff(cfg, st, x);
    if Step(cfg, st, x).0.channelsLast == 2 {
      assert Up(x.upSec, 0) in Step(cfg, st, x).1;
    }
  }

  /** After the second channel was brought up, a tick that still finds one channel only takes notes: two
      bring-ups in a row are impossible. */
  lemma NoTwoBringUpsInARow(cfg: Config, st: State, x: Input, y: Input)
    requires exists s :: Up(s, 0) in Step(cfg, st, x).1
    ensures forall s, a :: Up(s, a) !in Step(cfg, Step(cfg, st, x).0, y).1
  {
  }

  // ---- runs ----

  function Play(cfg: Config, st: State, xs: seq<Input>): (State, seq<Event>)
    decreases |xs|
  {
    if xs == [] then (st, [])
    else
      var (st1, events) := Step(cfg, st, xs[0]);
      var (st2, more) := Play(cfg, st1, xs[1..]);
      (st2, events + more)
  }

  /** The second of the latest bring-up in a trace that did not fail, or the one before it. */
  function LatestUp(before: int, trace: seq<Event>): int {
    if trace == [] then before
    else if trace[|trace| - 1].Up? && trace[|trace| - 1].answer >= 0 then trace[|trace| - 1].sec
    else LatestUp(before, trace[..|trace| - 1])
  }

  /** Every bring-down of the trace comes more than `stay` seconds after the latest bring-up. */
  ghost predicate StaysUp(before: int, trace: seq<Event>, stay: int) {
    forall j :: 0 <= j < |trace| && trace[j].Down? ==> trace[j].sec - LatestUp(before, trace[..j]) > stay
  }

  lemma StepStaysUp(cfg: Config, st: State, x: Input)
    ensures StaysUp(st.upSec, Step(cfg, st, x).1, cfg.stayupTime)
    ensures Step(cfg, st, x).0.upSec == LatestUp(st.upSec, Step(cfg, st, x).1)
  {
    var trace := Step(cfg, st, x).1;
    AtMostOneEvent(cfg, st, x);
    if trace != [] {
      assert trace[..0] == [];
    }
  }

  lemma {:induction false} LatestUpOfSum(before: int, a: seq<Event>, b: seq<Event>)
    ensures LatestUp(before, a + b) == LatestUp(LatestUp(before, a), b)
  {
    if b == [] {
      assert a + b == a;
    } else {
      assert (a + b)[..|a + b| - 1] == a + b[..|b| - 1];
      LatestUpOfSum(before, a, b[..|b| - 1]);
    }
  }

  lemma StaysUpOfSum(before: int, a: seq<Event>, b: seq<Event>, stay: int)
    requires StaysUp(before, a, stay) && StaysUp(LatestUp(before, a), b, stay)
    ensures StaysUp(before, a + b, stay)
  {
    forall j | 0 <= j < |a + b| && (a + b)[j].Down?
      ensures (a + b)[j].sec - LatestUp(before, (a + b)[..j]) > stay
    {
      if j < |a| {
        assert (a + b)[..j] == a[..j];
      } else {
        assert (a + b)[..j] == a + b[..j - |a|];
        LatestUpOfSum(before, a, b[..j - |a|]);
      }
    }
  }

  /** Over every run with a fixed configuration, the link stays up for more than stayup_time seconds. */
  lemma {:induction false} RunStaysUp(cfg: Config, st: State, xs: seq<Input>)
    ensures StaysUp(st.upSec, Play(cfg, st, xs).1, cfg.stayupTime)
    decreases |xs|
  {
    if xs != [] {
      var (st1, events) := Step(cfg, st, xs[0]);
      StepStaysUp(cfg, st, xs[0]);
      RunStaysUp(cfg, st1, xs[1..]);
      StaysUpOfSum(st.upSec, events, Play(cfg, st1, xs[1..]).1, cfg.stayupTime);
    }
  }

  lemma {:induction false} LatestUpIsLatest(before: int, trace: seq<Event>, i: nat)
    requires i < |trace| && trace[i].Up? && trace[i].answer >= 0 && forall k :: i < k < |trace| ==> !trace[k].Up?
    ensures LatestUp(before, trace) == trace[i].sec
  {
    if i < |trace| - 1 {
      LatestUpIsLatest(before, trace[..|trace| - 1], i);
    }
  }

  lemma {:induction false} NothingAfterExit(cfg: Config, st: State, xs: seq<Input>)
    requires st.exited
    ensures Play(cfg, st, xs) == (st, [])
    decreases |xs|
  {
    if xs != [] {
      NothingAfterExit(cfg, st, xs[1..]);
      var none := Step(cfg, st, xs[0]).1;
      assert none + none == none == [];
    }
  }

  /** A request that fails is the last one. */
  lemma {:induction false} FailureIsLast(cfg: Config, st: State, xs: seq<Input>, i: nat)
    requires i < |Play(cfg, st, xs).1| - 1
    ensures Play(cfg, st, xs).1[i].answer >= 0
    decreases |xs|
  {
    if xs != [] {
      var (st1, events) := Step(cfg, st, xs[0]);
      LinkIsTouchedIff(cfg, st, xs[0]);
      if i < |events| {
        if st1.exited {
          NothingAfterExit(cfg, st1, xs[1..]);
        }
      } else {
        FailureIsLast(cfg, st1, xs[1..], i - |events|);
      }
    }
  }

  /** The same, read off the trace: a bring-down comes more than stayup_time seconds after the bring-up
      before it. */
  lemma UpThenDown(cfg: Config, st: State, xs: seq<Input>, i: nat, j: nat)
    requires var trace := Play(cfg, st, xs).1;
             i < j < |trace| && trace[i].Up? && trace[j].Down? && forall k :: i < k < j ==> !trace[k].Up?
    ensures Play(cfg, st, xs).1[j].sec - Play(cfg, st, xs).1[i].sec > cfg.stayupTime
  {
    var trace := Play(cfg, st, xs).1;
    FailureIsLast(cfg, st, xs, i);
    RunStaysUp(cfg, st, xs);
    LatestUpIsLatest(st.upSec, trace[..j], i);
  }

  // ---- the filter and the link together ----

  /** Rates that the filter can hold without overflow. */
  predicate Holds(filter: int, bound: nat) {
    filter >= 1 && bound * filter < ULONG
  }

  lemma NoOverflow(filter: nat, bound: nat, rate: nat, sample: nat)
    requires Holds(filter, bound) && rate <= bound && sample <= bound
    ensures 0 <= rate * (filter - 1) && rate * (filter - 1) + sample < ULONG
  {
    assert rate * (filter - 1) <= bound * (filter - 1);
    Split(filter, bound);
    assert 0 <= rate * (filter - 1);
  }

  lemma SmoothedIsAverage(filter: int, bound: nat, rate: nat, sample: nat)
    requires Holds(filter, bound) && rate <= bound && sample <= bound
    ensures Smoothed(filter, rate, sample) == Average(filter, rate, sample) <= bound
  {
    AverageAtMost(filter, rate, sample, bound);
    NoOverflow(filter, bound, rate, sample);
    var kept := rate * (filter - 1);
    assert U(kept) == kept && U(kept + sample) == kept + sample;
  }

  /** Without a filter the rate is the sample. */
  lemma UnfilteredIsSample(filter: int, rate: nat, sample: nat)
    requires filter < 1
    ensures Smoothed(filter, rate, sample) == sample
  {
  }

  datatype Direction = Incoming | Outgoing

  function RateOf(d: Direction, st: State): nat {
    if d == Incoming then st.inRate else st.outRate
  }

  function BytesOf(d: Direction, x: Input): int {
    if d == Incoming then x.inBytes else x.outBytes
  }

  /** The daemon remembers the clock and the byte counters of this tick. */
  predicate Remembers(st: State, x: Input) {
    st.msLast == x.ms && st.inLast == U(x.inBytes) && st.outLast == U(x.outBytes)
  }

  /** Every tick that does not end the program is remembered, also one that only takes notes. */
  lemma TickIsRemembered(cfg: Config, st: State, x: Input)
    requires !st.exited && !Step(cfg, st, x).0.exited
    ensures Remembers(Step(cfg, st, x).0, x)
  {
  }

  /** From tick x to tick y the clock moves and the counter grows, by at least `low` and at most `high`
      bytes per second, without wrapping around. */
  predicate Traffic(d: Direction, x: Input, y: Input, low: nat, high: nat) {
    var ms, bytes := y.ms - x.ms, BytesOf(d, y) - BytesOf(d, x);
    && 0 < ms < ULONG && 0 <= bytes && 1000 * bytes < ULONG
    && low * ms <= 1000 * bytes < (high + 1) * ms
  }

  lemma DifferenceWraps(now: int, before: int)
    requires 0 <= now - before < ULONG
    ensures U(now - U(before)) == now - before
  {
    assert (now - before % ULONG) % ULONG == (now - before) % ULONG by {
      var k := before / ULONG;
      assert now - before % ULONG == (now - before) + ULONG * k;
      AddMultiple(now - before, k);
    }
  }

  lemma AddMultiple(n: int, k: int)
    ensures (n + ULONG * k) % ULONG == n % ULONG
  {
  }

  /** The sample is the number of bytes per second, rounded down. */
  lemma RateIsBytesPerSecond(now: int, before: int, ms: nat)
    requires ms > 0 && 0 <= now - before && 1000 * (now - before) < ULONG
    ensures var r := Rate(now, U(before), ms); r * ms <= 1000 * (now - before) < (r + 1) * ms
  {
    DifferenceWraps(now, before);
    var n := 1000 * (now - before);
    QuotientBounds(n, ms);
  }

  lemma QuotientBounds(n: nat, ms: nat)
    requires ms > 0
    ensures n / ms * ms <= n < (n / ms + 1) * ms
  {
  }

  lemma QuotientBetween(r: nat, n: nat, ms: nat, low: nat, high: nat)
    requires ms > 0 && r * ms <= n < (r + 1) * ms && low * ms <= n < (high + 1) * ms
    ensures low <= r <= high
  {
    assert r + 1 <= low ==> (r + 1) * ms <= low * ms;
    assert high + 1 <= r ==> (high + 1) * ms <= r * ms;
  }

  /** The sample that a tick takes in one direction. */
  function Sample(d: Direction, st: State, x: Input): nat
    requires U(x.ms - st.msLast) > 0
  {
    if d == Incoming then Rate(x.inBytes, st.inLast, U(x.ms - st.msLast)) else Rate(x.outBytes, st.outLast, U(x.ms - st.msLast))
  }

  lemma SampleIsTraffic(d: Direction, st: State, x: Input, y: Input, low: nat, high: nat)
    requires Remembers(st, x) && Traffic(d, x, y, low, high)
    ensures U(y.ms - st.msLast) > 0 && low <= Sample(d, st, y) <= high
  {
    RateIsBytesPerSecond(BytesOf(d, y), BytesOf(d, x), y.ms - x.ms);
    QuotientBetween(Sample(d, st, y), 1000 * (BytesOf(d, y) - BytesOf(d, x)), y.ms - x.ms, low, high);
  }

  function TickBefore(prev: Input, xs: seq<Input>, i: nat): Input
    requires i < |xs|
  {
    if i == 0 then prev else xs[i - 1]
  }

  /** One channel all along, and that much traffic in one direction from each tick to the next. */
  ghost predicate BusyRun(prev: Input, xs: seq<Input>, d: Direction, low: nat, high: nat) {
    forall i {:trigger xs[i]} :: 0 <= i < |xs| ==> xs[i].channels == 1 && Traffic(d, TickBefore(prev, xs, i), xs[i], low, high)
  }

  lemma BusyRest(prev: Input, xs: seq<Input>, d: Direction, low: nat, high: nat)
    requires xs != [] && BusyRun(prev, xs, d, low, high)
    ensures xs[0].channels == 1 && Traffic(d, prev, xs[0], low, high)
    ensures BusyRun(xs[0], xs[1..], d, low, high)
  {
    forall i | 0 <= i < |xs[1..]|
      ensures xs[1..][i].channels == 1 && Traffic(d, TickBefore(xs[0], xs[1..], i), xs[1..][i], low, high)
    {
      assert xs[1..][i] == xs[i + 1] && TickBefore(xs[0], xs[1..], i) == TickBefore(prev, xs, i + 1);
    }
  }

  /** Some request to bring the link up was made. */
  ghost predicate AsksUp(trace: seq<Event>) {
    exists s, a :: Up(s, a) in trace
  }

  ghost predicate AsksDown(trace: seq<Event>) {
    exists s, a :: Down(s, a) in trace
  }

  /** The answers in a trace are those that the system gave. */
  lemma {:induction false} AnswersAreInputs(cfg: Config, st: State, xs: seq<Input>, e: Event)
    requires e in Play(cfg, st, xs).1
    ensures exists x :: x in xs && e == (if e.Up? then Up(x.upSec, x.upAnswer) else Down(x.checkSec, x.downAnswer))
    decreases |xs|
  {
    if xs != [] {
      var (st1, events) := Step(cfg, st, xs[0]);
      LinkIsTouchedIff(cfg, st, xs[0]);
      if e in events {
        assert xs[0] in xs;
      } else {
        AnswersAreInputs(cfg, st1, xs[1..], e);
        var x :| x in xs[1..] && e == (if e.Up? then Up(x.upSec, x.upAnswer) else Down(x.checkSec, x.downAnswer));
        assert x in xs;
      }
    }
  }

  /** One busy tick: the link is asked for, or the rate has risen without exceeding the limit. */
  lemma BusyTick(cfg: Config, st: State, x: Input, d: Direction, bound: nat)
    requires cfg.enable != 0 && Holds(cfg.filter, bound) && RateOf(d, st) <= bound
    requires !st.exited && 0 <= st.channelsLast <= 1 && x.channels == 1 && U(x.ms - st.msLast) > 0
    requires U(cfg.limit) + cfg.filter <= Sample(d, st, x) <= bound
    ensures var r := Step(cfg, st, x);
            || r.1 == [Up(x.upSec, x.upAnswer)]
            || (!r.0.exited && r.0.channelsLast == 1 && RateOf(d, st) < RateOf(d, r.0) <= U(cfg.limit) && RateOf(d, r.0) <= bound)
  {
    SmoothedIsAverage(cfg.filter, bound, RateOf(d, st), Sample(d, st, x));
    AverageIsBetween(cfg.filter, RateOf(d, st), Sample(d, st, x));
    AverageIsFixedIff(cfg.filter, RateOf(d, st), Sample(d, st, x));
    LinkIsTouchedIff(cfg, st, x);
  }

  /** An enabled daemon that sees one channel with at least limit + filter bytes per second in one
      direction, by the byte counters, asks for the second one within limit + 1 - rate ticks, or at once
      if the rate is above the limit. */
  lemma {:induction false} BusyLineAsks(cfg: Config, st: State, prev: Input, xs: seq<Input>, d: Direction, bound: nat)
    requires cfg.enable != 0 && Holds(cfg.filter, bound) && RateOf(d, st) <= bound
    requires !st.exited && 0 <= st.channelsLast <= 1 && Remembers(st, prev)
    requires BusyRun(prev, xs, d, U(cfg.limit) + cfg.filter, bound)
    requires |xs| >= 1 && |xs| >= U(cfg.limit) + 1 - RateOf(d, st)
    ensures AsksUp(Play(cfg, st, xs).1)
    decreases |xs|
  {
    BusyRest(prev, xs, d, U(cfg.limit) + cfg.filter, bound);
    SampleIsTraffic(d, st, prev, xs[0], U(cfg.limit) + cfg.filter, bound);
    BusyTick(cfg, st, xs[0], d, bound);
    var (st1, events) := Step(cfg, st, xs[0]);
    var trace := Play(cfg, st, xs).1;
    if events == [Up(xs[0].upSec, xs[0].upAnswer)] {
      assert events[0] in trace;
    } else {
      TickIsRemembered(cfg, st, xs[0]);
      BusyLineAsks(cfg, st1, xs[0], xs[1..], d, bound);
      var s, a :| Up(s, a) in Play(cfg, st1, xs[1..]).1;
      assert Up(s, a) in trace;
    }
  }

  /** The link was asked for once, in this second, and granted. */
  predicate BroughtUp(r: (State, seq<Event>), sec: int) {
    r.1 == [Up(sec, 0)] && !r.0.exited && r.0.channelsLast == 2 && r.0.upSec == sec
  }

  lemma PlayOne(cfg: Config, st: State, xs: seq<Input>)
    requires |xs| == 1
    ensures Play(cfg, st, xs) == Step(cfg, st, xs[0])
  {
    var events := Step(cfg, st, xs[0]).1;
    assert xs[1..] == [] && events + [] == events;
  }

  /** If the system grants the request, whenever it is made, some tick adds the second channel, on its first
      request, and counts two. */
  lemma {:induction false} BusyLineIsBroughtUp(cfg: Config, st: State, prev: Input, xs: seq<Input>, d: Direction, bound: nat)
    requires cfg.enable != 0 && Holds(cfg.filter, bound) && RateOf(d, st) <= bound
    requires !st.exited && 0 <= st.channelsLast <= 1 && Remembers(st, prev)
    requires BusyRun(prev, xs, d, U(cfg.limit) + cfg.filter, bound)
    requires |xs| >= 1 && |xs| >= U(cfg.limit) + 1 - RateOf(d, st)
    requires forall x :: x in xs ==> x.upAnswer == 0
    ensures exists k :: 0 <= k < |xs| && BroughtUp(Play(cfg, st, xs[..k + 1]), xs[k].upSec)
    decreases |xs|
  {
    BusyRest(prev, xs, d, U(cfg.limit) + cfg.filter, bound);
    SampleIsTraffic(d, st, prev, xs[0], U(cfg.limit) + cfg.filter, bound);
    BusyTick(cfg, st, xs[0], d, bound);
    LinkIsTouchedIff(cfg, st, xs[0]);
    var st1 := Step(cfg, st, xs[0]).0;
    assert xs[0] in xs;
    if Step(cfg, st, xs[0]).1 == [Up(xs[0].upSec, xs[0].upAnswer)] {
      FirstTickAdds(cfg, st, xs);
      assert BroughtUp(Play(cfg, st, xs[..0 + 1]), xs[0].upSec);
    } else {
      var rest := xs[1..];
      TickIsRemembered(cfg, st, xs[0]);
      BusyLineIsBroughtUp(cfg, st1, xs[0], rest, d, bound);
      var k :| 0 <= k < |rest| && BroughtUp(Play(cfg, st1, rest[..k + 1]), rest[k].upSec);
      LaterTickAdds(cfg, st, xs, k);
      assert BroughtUp(Play(cfg, st, xs[..k + 1 + 1]), xs[k + 1].upSec);
    }
  }

  lemma FirstTickAdds(cfg: Config, st: State, xs: seq<Input>)
    requires !st.exited && xs != [] && xs[0].channels == 1 && xs[0].upAnswer == 0
    requires Step(cfg, st, xs[0]).1 == [Up(xs[0].upSec, 0)]
    ensures BroughtUp(Play(cfg, st, xs[..1]), xs[0].upSec)
  {
    LinkIsTouchedIff(cfg, st, xs[0]);
    LinkIsAddedIff(cfg, st, xs[0]);
    PlayOne(cfg, st, xs[..1]);
  }

  lemma LaterTickAdds(cfg: Config, st: State, xs: seq<Input>, k: nat)
    requires k + 1 < |xs| && Step(cfg, st, xs[0]).1 == []
    requires BroughtUp(Play(cfg, Step(cfg, st, xs[0]).0, xs[1..][..k + 1]), xs[1..][k].upSec)
    ensures BroughtUp(Play(cfg, st, xs[..k + 2]), xs[k + 1].upSec)
  {
    var later := Play(cfg, Step(cfg, st, xs[0]).0, xs[1..][..k + 1]).1;
    assert xs[..k + 2][1..] == xs[1..][..k + 1];
    assert [] + later == later;
  }

  /** Never fewer channels than before, and more than one; the stay-up time over; and at most the limit in
      both directions, by the byte counters, from each tick to the next. */
  ghost predicate QuietRun(cfg: Config, upSec: int, prev: Input, xs: seq<Input>) {
    forall i {:trigger xs[i]} :: 0 <= i < |xs| ==> QuietStep(cfg, upSec, TickBefore(prev, xs, i), xs[i])
  }

  predicate QuietStep(cfg: Config, upSec: int, x: Input, y: Input) {
    && y.channels > 1 && y.channels >= x.channels && y.checkSec - upSec > cfg.stayupTime
    && Traffic(Incoming, x, y, 0, U(cfg.limit)) && Traffic(Outgoing, x, y, 0, U(cfg.limit))
  }

  lemma QuietRest(cfg: Config, upSec: int, prev: Input, xs: seq<Input>)
    requires xs != [] && QuietRun(cfg, upSec, prev, xs)
    ensures QuietRun(cfg, upSec, xs[0], xs[1..])
  {
    forall i | 0 <= i < |xs[1..]|
      ensures QuietStep(cfg, upSec, TickBefore(xs[0], xs[1..], i), xs[1..][i])
    {
      assert xs[1..][i] == xs[i + 1] && TickBefore(xs[0], xs[1..], i) == TickBefore(prev, xs, i + 1);
    }
  }

  /** One quiet tick: the link's removal is asked for, or a rate was above the limit and has fallen. */
  lemma QuietTick(cfg: Config, st: State, prev: Input, x: Input, bound: nat)
    requires cfg.enable != 0 && cfg.stayup == 0 && Holds(cfg.filter, bound)
    requires U(cfg.limit) <= bound && st.inRate <= bound && st.outRate <= bound
    requires !st.exited && st.channelsLast == prev.channels && Remembers(st, prev) && QuietStep(cfg, st.upSec, prev, x)
    ensures var r := Step(cfg, st, x);
            || r.1 == [Down(x.checkSec, x.downAnswer)]
            || (&& !r.0.exited && r.0.channelsLast == x.channels && r.0.upSec == st.upSec
                && r.0.inRate <= bound && r.0.outRate <= bound
                && (st.inRate > U(cfg.limit) || st.outRate > U(cfg.limit))
                && (r.0.inRate < st.inRate || r.0.inRate <= U(cfg.limit))
                && (r.0.outRate < st.outRate || r.0.outRate <= U(cfg.limit)))
  {
    SampleIsTraffic(Incoming, st, prev, x, 0, U(cfg.limit));
    SampleIsTraffic(Outgoing, st, prev, x, 0, U(cfg.limit));
    QuietRate(cfg, bound, st.inRate, Sample(Incoming, st, x));
    QuietRate(cfg, bound, st.outRate, Sample(Outgoing, st, x));
    LinkIsTouchedIff(cfg, st, x);
  }

  lemma QuietRate(cfg: Config, bound: nat, rate: nat, sample: nat)
    requires Holds(cfg.filter, bound) && rate <= bound && U(cfg.limit) <= bound && sample <= U(cfg.limit)
    ensures var next := Smoothed(cfg.filter, rate, sample);
            && next <= bound && (rate <= U(cfg.limit) ==> next <= U(cfg.limit))
            && (next < rate || next <= U(cfg.limit))
  {
    SmoothedIsAverage(cfg.filter, bound, rate, sample);
    AverageIsBetween(cfg.filter, rate, sample);
    AverageIsFixedIff(cfg.filter, rate, sample);
  }

  /** The removal of a quiet second channel is asked for as soon as both rates have come down to the
      limit: at the latest after as many ticks as the larger rate exceeds it, and one more. */
  lemma {:induction false} QuietLineAsks(cfg: Config, st: State, prev: Input, xs: seq<Input>, bound: nat)
    requires cfg.enable != 0 && cfg.stayup == 0 && Holds(cfg.filter, bound)
    requires U(cfg.limit) <= bound && st.inRate <= bound && st.outRate <= bound
    requires !st.exited && st.channelsLast == prev.channels && Remembers(st, prev) && QuietRun(cfg, st.upSec, prev, xs)
    requires |xs| > st.inRate - U(cfg.limit) && |xs| > st.outRate - U(cfg.limit) && xs != []
    ensures AsksDown(Play(cfg, st, xs).1)
    decreases |xs|
  {
    assert TickBefore(prev, xs, 0) == prev && QuietStep(cfg, st.upSec, prev, xs[0]);
    QuietTick(cfg, st, prev, xs[0], bound);
    var (st1, events) := Step(cfg, st, xs[0]);
    var trace := Play(cfg, st, xs).1;
    if events == [Down(xs[0].checkSec, xs[0].downAnswer)] {
      assert events[0] in trace;
    } else {
      TickIsRemembered(cfg, st, xs[0]);
      QuietRest(cfg, st.upSec, prev, xs);
      QuietLineAsks(cfg, st1, xs[0], xs[1..], bound);
      var s, a :| Down(s, a) in Play(cfg, st1, xs[1..]).1;
      assert Down(s, a) in trace;
    }
  }

  /** If the system grants the request, whenever it is made, the second channel is removed. */
  lemma QuietLineIsTakenDown(cfg: Config, st: State, prev: Input, xs: seq<Input>, bound: nat)
    requires cfg.enable != 0 && cfg.stayup == 0 && Holds(cfg.filter, bound)
    requires U(cfg.limit) <= bound && st.inRate <= bound && st.outRate <= bound
    requires !st.exited && st.channelsLast == prev.channels && Remembers(st, prev) && QuietRun(cfg, st.upSec, prev, xs)
    requires |xs| > st.inRate - U(cfg.limit) && |xs| > st.outRate - U(cfg.limit) && xs != []
    requires forall x :: x in xs ==> x.downAnswer == 0
    ensures exists s :: Down(s, 0) in Play(cfg, st, xs).1
  {
    QuietLineAsks(cfg, st, prev, xs, bound);
    var s, a :| Down(s, a) in Play(cfg, st, xs).1;
    AnswersAreInputs(cfg, st, xs, Down(s, a));
  }

  // ---- from the start of the program ----

  lemma FirstTickTakesNotes(cfg: Config, first: Input, xs: seq<Input>)
    ensures var st := Step(cfg, Initial, first).0;
            && !st.exited && Remembers(st, first) && st.channelsLast == first.channels
            && st.inRate == st.outRate == st.upSec == 0
            && Play(cfg, Initial, [first] + xs) == Play(cfg, st, xs)
  {
    assert ([first] + xs)[1..] == xs;
    var trace := Play(cfg, Step(cfg, Initial, first).0, xs).1;
    assert [] + trace == trace;
  }

  /** A daemon that has just started on a single channel brings up the second one within limit + 1 ticks
      after its first, if each brings at least limit + filter bytes per second. */
  lemma FreshDaemonBringsUp(cfg: Config, first: Input, xs: seq<Input>, d: Direction, bound: nat)
    requires cfg.enable != 0 && Holds(cfg.filter, bound) && first.channels <= 1
    requires BusyRun(first, xs, d, U(cfg.limit) + cfg.filter, bound) && |xs| >= U(cfg.limit) + 1
    requires forall x :: x in xs ==> x.upAnswer == 0
    ensures exists k :: 0 <= k < |xs| && BroughtUp(Play(cfg, Initial, [first] + xs[..k + 1]), xs[k].upSec)
  {
    var st := Step(cfg, Initial, first).0;
    FirstTickTakesNotes(cfg, first, xs);
    BusyLineIsBroughtUp(cfg, st, first, xs, d, bound);
    var k :| 0 <= k < |xs| && BroughtUp(Play(cfg, st, xs[..k + 1]), xs[k].upSec);
    FirstTickTakesNotes(cfg, first, xs[..k + 1]);
    assert BroughtUp(Play(cfg, Initial, [first] + xs[..k + 1]), xs[k].upSec);
  }

  /** One that finds more channels than one and no more traffic than the limit removes the second with its
      second tick. */
  lemma FreshDaemonTakesDown(cfg: Config, first: Input, x: Input, bound: nat)
    requires cfg.enable != 0 && cfg.stayup == 0 && Holds(cfg.filter, bound) && U(cfg.limit) <= bound
    requires QuietStep(cfg, 0, first, x)
    ensures Play(cfg, Initial, [first, x]).1 == [Down(x.checkSec, x.downAnswer)]
  {
    var st := Step(cfg, Initial, first).0;
    FirstTickTakesNotes(cfg, first, [x]);
    assert [first] + [x] == [first, x];
    QuietTick(cfg, st, first, x, bound);
    PlayOne(cfg, st, [x]);
  }
}
