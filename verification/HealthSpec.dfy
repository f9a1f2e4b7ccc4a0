/**
 * The streaming watchdog as values: the stall / cold-start sampler, a trace specification it refines, and
 * what whole sessions of evaluate-and-recover steps can and cannot do.
 */
module HealthSpec {

  const STALL_TICKS := 3
  const COLD_TICKS := 5

  // GPIF state-machine indices.
  const GPIF_TH0_RD := 2
  const GPIF_TH1_RD_LD := 3
  const GPIF_TH0_RD_LD := 4
  const GPIF_TH0_BUSY := 5
  const GPIF_TH1_RD := 6
  const GPIF_TH1_BUSY := 7
  const GPIF_TH1_WAIT := 8
  const GPIF_TH0_WAIT := 9

  predicate BusyWait(sm: nat) {
    sm == GPIF_TH0_BUSY || sm == GPIF_TH1_BUSY || sm == GPIF_TH1_WAIT || sm == GPIF_TH0_WAIT
  }

  predicate StreamingActive(sm: nat) {
    || sm == GPIF_TH0_RD || sm == GPIF_TH1_RD_LD || sm == GPIF_TH0_RD_LD || sm == GPIF_TH0_BUSY
    || sm == GPIF_TH1_RD || sm == GPIF_TH1_BUSY || sm == GPIF_TH1_WAIT || sm == GPIF_TH0_WAIT
  }

  datatype Fault = NoFault | ProgressStall | ColdStart

  // ---- the sampler -------------------------------------------------------------------------

  /** `glStallCount`, `glColdStartCount` and `glPrevDMACount`. */
  datatype Sampler = Sampler(stall: nat, cold: nat, prev: nat)

  const FRESH := Sampler(0, 0, 0)

  /** One sample: what the two counters and the baseline become, and the fault reported, if any. */
  function Sample(s: Sampler, dma: nat, sm: nat): (Sampler, Fault) {
    if dma != s.prev then (Sampler(0, 0, dma), NoFault)
    else if dma > 0 && BusyWait(sm) then
      if s.stall + 1 >= STALL_TICKS then (Sampler(0, 0, s.prev), ProgressStall)
      else (Sampler(s.stall + 1, 0, s.prev), NoFault)
    else if dma == 0 && StreamingActive(sm) then
      if s.cold + 1 >= COLD_TICKS then (Sampler(0, 0, s.prev), ColdStart)
      else (Sampler(0, s.cold + 1, s.prev), NoFault)
    else (Sampler(0, 0, s.prev), NoFault)
  }

  /** What can happen to the sampler: a sample, the baseline zeroed by a light recovery, or a fresh session. */
  datatype Event = Tick(dma: nat, sm: nat) | Rebase | Restart

  function SampleAll(events: seq<Event>): (Sampler, Fault) {
    if events == [] then (FRESH, NoFault)
    else
      var s := SampleAll(events[..|events| - 1]).0;
      match events[|events| - 1]
      case Tick(dma, sm) => Sample(s, dma, sm)
      case Rebase => (s.(prev := 0), NoFault)
      case Restart => (FRESH, NoFault)
  }

  // The trace specification: no counters, only the history of samples.

  /** The count the next sample is compared with: the last one sampled, or 0 after a recovery or a fresh start. */
  function Baseline(events: seq<Event>): nat {
    if events == [] then 0
    else match events[|events| - 1]
      case Tick(dma, _) => dma
      case _ => 0
  }

  /** The last sample is of fault class f: frozen above zero in BUSY or WAIT, or frozen at zero in an active state. */
  predicate LastIs(events: seq<Event>, f: Fault)
    requires events != [] && events[|events| - 1].Tick?
  {
    var Tick(dma, sm) := events[|events| - 1];
    && dma == Baseline(events[..|events| - 1])
    && match f
       case NoFault => false
       case ProgressStall => dma > 0 && sm in {5, 7, 8, 9}
       case ColdStart => dma == 0 && 2 <= sm <= 9
  }

  /** How many samples in a row, up to now and within the session, were of class f. */
  function Run(events: seq<Event>, f: Fault): nat {
    if events == [] then 0
    else match events[|events| - 1]
      case Restart => 0
      case Rebase => Run(events[..|events| - 1], f)
      case Tick(_, _) => if LastIs(events, f) then 1 + Run(events[..|events| - 1], f) else 0
  }

  function Limit(f: Fault): (n: nat)
    ensures n > 0
  {
    if f == ProgressStall then 3 else 5
  }

  lemma {:induction false} BaselineKept(events: seq<Event>)
    ensures SampleAll(events).0.prev == Baseline(events)
  {
  }

  lemma {:induction false} NextModulo(n: nat, l: nat)
    requires l == 3 || l == 5
    ensures (n + 1) % l == if n % l == l - 1 then 0 else n % l + 1
    ensures (n + 1) / l == if n % l == l - 1 then n / l + 1 else n / l
  {
  }

  /** The counters are the run lengths modulo their limits. */
  lemma {:induction false} CountersAreRuns(events: seq<Event>)
    ensures SampleAll(events).0.stall == Run(events, ProgressStall) % 3
    ensures SampleAll(events).0.cold == Run(events, ColdStart) % 5
  {
    if events != [] {
      var before := events[..|events| - 1];
      CountersAreRuns(before);
      BaselineKept(before);
      NextModulo(Run(before, ProgressStall), STALL_TICKS);
      NextModulo(Run(before, ColdStart), COLD_TICKS);
    }
  }

  /**
   * The sampler refines the trace specification: it reports class f at a sample exactly when the samples of
   * class f in a row, counted since the last report, are as many as f's limit; and it reports nothing else.
   */
  lemma {:induction false} ReportsExactly(events: seq<Event>, f: Fault)
    requires f != NoFault
    ensures SampleAll(events).1 == f <==>
              events != [] && events[|events| - 1].Tick? && LastIs(events, f) && Run(events, f) % Limit(f) == 0
  {
    if events != [] {
      var before := events[..|events| - 1];
      CountersAreRuns(before);
      BaselineKept(before);
      NextModulo(Run(before, ProgressStall), STALL_TICKS);
      NextModulo(Run(before, ColdStart), COLD_TICKS);
    }
  }

  /** The two counters are never both in use. */
  lemma {:induction false} OneCounter(events: seq<Event>)
    ensures SampleAll(events).0.stall == 0 || SampleAll(events).0.cold == 0
    ensures SampleAll(events).0.stall < 3 && SampleAll(events).0.cold < 5
  {
    if events != [] {
      OneCounter(events[..|events| - 1]);
    }
  }

  // ---- recovery ----------------------------------------------------------------------------

  /** The session's recovery state: count, cap, escalation switch and once-per-session flag. */
  datatype Monitor = Monitor(s: Sampler, recovered: nat, cap: nat, escalation: bool, escalated: bool)

  datatype Remedy = Nothing | Light | Reset

  predicate Capped(m: Monitor) {
    m.cap > 0 && m.recovered >= m.cap
  }

  /** What health_recover does about a streaming fault. */
  function RemedyFor(m: Monitor, f: Fault, clock: bool): Remedy {
    if !Capped(m) then Light
    else if f == ColdStart && m.escalation && !m.escalated && clock then Reset
    else Nothing
  }

  function Recovered(m: Monitor, f: Fault, clock: bool): Monitor {
    match RemedyFor(m, f, clock)
    case Light => m.(recovered := (m.recovered + 1) % 256, s := m.s.(prev := 0))
    case Reset => m.(escalated := true)
    case Nothing => m
  }

  /** What the environment shows at one tick: any count, any state, any clock. */
  datatype Input = Input(dma: nat, sm: nat, clock: bool)

  function TickStep(m: Monitor, i: Input): (Monitor, Remedy) {
    var (s, f) := Sample(m.s, i.dma, i.sm);
    if f == NoFault then (m.(s := s), Nothing)
    else (Recovered(m.(s := s), f, i.clock), RemedyFor(m.(s := s), f, i.clock))
  }

  function NewSession(cap: nat, escalation: bool): Monitor {
    Monitor(FRESH, 0, cap, escalation, false)
  }

  function Session(m: Monitor, inputs: seq<Input>): Monitor {
    if inputs == [] then m else TickStep(Session(m, inputs[..|inputs| - 1]), inputs[|inputs| - 1]).0
  }

  /** How many ticks of the session ended in remedy r. */
  function Count(m: Monitor, inputs: seq<Input>, r: Remedy): nat {
    if inputs == [] then 0
    else
      var before := inputs[..|inputs| - 1];
      Count(m, before, r) + if TickStep(Session(m, before), inputs[|inputs| - 1]).1 == r then 1 else 0
  }

  /**
   * What every tick of a capped session keeps. A stall report needs three frozen samples after one that set the
   * baseline, a cold-start report five, and a light recovery puts the baseline back to zero.
   */
  ghost predicate Paced(m: Monitor, ticks: nat, lights: nat, resets: nat) {
    && m.recovered == lights <= m.cap < 256
    && resets == (if m.escalated then 1 else 0)
    && (m.escalated ==> Capped(m) && m.escalation && ticks >= 4 * m.cap + 5)
    && (m.s.stall == 0 || m.s.cold == 0) && m.s.stall < STALL_TICKS && m.s.cold < COLD_TICKS
    && (m.s.stall > 0 ==> m.s.prev > 0) && (m.s.cold > 0 ==> m.s.prev == 0)
    && ticks >= 4 * lights + (if m.s.prev > 0 then 1 else 0) + m.s.stall + m.s.cold
  }

  /** One tick keeps it. */
  lemma {:induction false} TickPaced(m: Monitor, i: Input, ticks: nat, lights: nat, resets: nat)
    requires Paced(m, ticks, lights, resets) && m.cap > 0
    ensures var (m', r) := TickStep(m, i);
            && m'.cap == m.cap && m'.escalation == m.escalation
            && Paced(m', ticks + 1, lights + (if r == Light then 1 else 0), resets + (if r == Reset then 1 else 0))
  {
  }

  lemma {:induction false} SessionPaced(cap: nat, escalation: bool, inputs: seq<Input>)
    requires 0 < cap < 256
    ensures var m := NewSession(cap, escalation);
            && Session(m, inputs).cap == cap && Session(m, inputs).escalation == escalation
            && Paced(Session(m, inputs), |inputs|, Count(m, inputs, Light), Count(m, inputs, Reset))
  {
    if inputs != [] {
      var m, before := NewSession(cap, escalation), inputs[..|inputs| - 1];
      SessionPaced(cap, escalation, before);
      TickPaced(Session(m, before), inputs[|inputs| - 1], |before|, Count(m, before, Light), Count(m, before, Reset));
    }
  }

  /**
   * In any session, whatever the environment does: at most cap light recoveries, at most one reset, none before tick
   * 4*cap+5.
   */
  lemma {:induction false} SessionBounds(cap: nat, escalation: bool, inputs: seq<Input>)
    requires 0 < cap < 256
    ensures var m := NewSession(cap, escalation);
            && Count(m, inputs, Light) <= cap && Count(m, inputs, Reset) <= 1
            && (Count(m, inputs, Reset) == 1 ==>
                 escalation && Count(m, inputs, Light) == cap && |inputs| >= 4 * cap + 5)
  {
    SessionPaced(cap, escalation, inputs);
  }

  /**
   * A tick resets the device exactly when it reports a cold start, at the cap, armed, for the first time, on a live
   * clock.
   */
  lemma {:induction false} ResetExactly(m: Monitor, i: Input)
    ensures TickStep(m, i).1 == Reset <==>
              Sample(m.s, i.dma, i.sm).1 == ColdStart && Capped(m) && m.escalation && !m.escalated && i.clock
  {
  }

  // ---- what a session does, told by its trace ----------------------------------------------

  /** The sampler's events in a session: a sample at every tick, and the baseline zeroed after a light recovery. */
  function Trace(m: Monitor, inputs: seq<Input>): seq<Event>
    decreases |inputs|
  {
    if inputs == [] then []
    else
      var before, i := inputs[..|inputs| - 1], inputs[|inputs| - 1];
      Trace(m, before) + [Tick(i.dma, i.sm)] + if TickStep(Session(m, before), i).1 == Light then [Rebase] else []
  }

  lemma {:induction false} OneMoreEvent(events: seq<Event>, ev: Event)
    ensures SampleAll(events + [ev]) == match ev
                                        case Tick(dma, sm) => Sample(SampleAll(events).0, dma, sm)
                                        case Rebase => (SampleAll(events).0.(prev := 0), NoFault)
                                        case Restart => (FRESH, NoFault)
  {
    assert (events + [ev])[..|events|] == events;
  }

  /** A session's sampler is the sampler run over its trace. */
  lemma {:induction false} SessionTrace(cap: nat, escalation: bool, inputs: seq<Input>)
    ensures var m := NewSession(cap, escalation); Session(m, inputs).s == SampleAll(Trace(m, inputs)).0
    decreases |inputs|
  {
    if inputs != [] {
      var m, before, i := NewSession(cap, escalation), inputs[..|inputs| - 1], inputs[|inputs| - 1];
      SessionTrace(cap, escalation, before);
      OneMoreEvent(Trace(m, before), Tick(i.dma, i.sm));
      OneMoreEvent(Trace(m, before) + [Tick(i.dma, i.sm)], Rebase);
      assert Trace(m, before) + [Tick(i.dma, i.sm)] + [] == Trace(m, before) + [Tick(i.dma, i.sm)];
    }
  }

  /** The tick that input i would make next reports class f: so many samples of it in a row, told by the trace alone. */
  ghost predicate Reports(m: Monitor, inputs: seq<Input>, i: Input, f: Fault) {
    var events := Trace(m, inputs) + [Tick(i.dma, i.sm)];
    f != NoFault && LastIs(events, f) && Run(events, f) % (if f == ProgressStall then 3 else 5) == 0
  }

  lemma {:induction false} ReportedFault(cap: nat, escalation: bool, inputs: seq<Input>, i: Input, f: Fault)
    requires f != NoFault
    ensures var m := NewSession(cap, escalation);
            Sample(Session(m, inputs).s, i.dma, i.sm).1 == f <==> Reports(m, inputs, i, f)
  {
    var m := NewSession(cap, escalation);
    SessionTrace(cap, escalation, inputs);
    OneMoreEvent(Trace(m, inputs), Tick(i.dma, i.sm));
    ReportsExactly(Trace(m, inputs) + [Tick(i.dma, i.sm)], f);
  }

  lemma {:induction false} InByte(n: nat)
    requires n < 256
    ensures n % 256 == n
  {
  }

  lemma {:induction false} OneMoreModulo(n: nat)
    ensures (n % 256 + 1) % 256 == (n + 1) % 256
  {
  }

  lemma {:induction false} LightsUncapped(escalation: bool, inputs: seq<Input>)
    ensures var m := NewSession(0, escalation); var s := Session(m, inputs);
            s.cap == 0 && s.escalation == escalation && s.recovered == Count(m, inputs, Light) % 256
    decreases |inputs|
  {
    if inputs != [] {
      LightsUncapped(escalation, inputs[..|inputs| - 1]);
      OneMoreModulo(Count(NewSession(0, escalation), inputs[..|inputs| - 1], Light));
    }
  }

  /** The recovery count is that of the light recoveries, modulo 256 where nothing caps them; cap and switch stay. */
  lemma {:induction false} LightsCounted(cap: nat, escalation: bool, inputs: seq<Input>)
    requires cap < 256
    ensures var m := NewSession(cap, escalation); var s := Session(m, inputs);
            && s.cap == cap && s.escalation == escalation && s.recovered == Count(m, inputs, Light) % 256
            && (cap > 0 ==> s.recovered == Count(m, inputs, Light) <= cap)
  {
    if cap > 0 {
      SessionPaced(cap, escalation, inputs);
      InByte(Count(NewSession(cap, escalation), inputs, Light));
    } else {
      LightsUncapped(escalation, inputs);
    }
  }

  /**
   * Every tick of every session, told by the trace: a light recovery comes exactly when a fault is reported and the cap
   * is 0, which means no limit, or fewer than cap light recoveries came before.
   */
  lemma {:induction false} LightExactly(cap: nat, escalation: bool, inputs: seq<Input>, i: Input)
    requires cap < 256
    ensures var m := NewSession(cap, escalation);
            TickStep(Session(m, inputs), i).1 == Light <==>
              && (Reports(m, inputs, i, ProgressStall) || Reports(m, inputs, i, ColdStart))
              && (cap == 0 || Count(m, inputs, Light) < cap)
  {
    LightsCounted(cap, escalation, inputs);
    ReportedFault(cap, escalation, inputs, i, ProgressStall);
    ReportedFault(cap, escalation, inputs, i, ColdStart);
  }

  /** And a reset when a cold start is reported at a cap that is used up, once, if enabled and with a live clock. */
  lemma {:induction false} ResetTold(cap: nat, escalation: bool, inputs: seq<Input>, i: Input)
    requires cap < 256
    ensures var m := NewSession(cap, escalation);
            TickStep(Session(m, inputs), i).1 == Reset <==>
              && Reports(m, inputs, i, ColdStart) && 0 < cap == Count(m, inputs, Light)
              && escalation && i.clock && Count(m, inputs, Reset) == 0
  {
    LightsCounted(cap, escalation, inputs);
    ReportedFault(cap, escalation, inputs, i, ColdStart);
    if cap > 0 {
      SessionPaced(cap, escalation, inputs);
    }
  }

  /** How many ticks of a session reported a fault. */
  ghost function Faults(m: Monitor, inputs: seq<Input>): nat
    decreases |inputs|
  {
    if inputs == [] then 0
    else
      var before, i := inputs[..|inputs| - 1], inputs[|inputs| - 1];
      Faults(m, before)
      + if Reports(m, before, i, ProgressStall) || Reports(m, before, i, ColdStart) then 1 else 0
  }

  /** With a cap of 0 every reported fault is answered by a light recovery, however many there are. */
  lemma {:induction false} UncappedAlwaysRecovers(escalation: bool, inputs: seq<Input>)
    ensures Count(NewSession(0, escalation), inputs, Light) == Faults(NewSession(0, escalation), inputs)
    decreases |inputs|
  {
    if inputs != [] {
      UncappedAlwaysRecovers(escalation, inputs[..|inputs| - 1]);
      LightExactly(0, escalation, inputs[..|inputs| - 1], inputs[|inputs| - 1]);
    }
  }

  /** Without a cap there is never a reset. */
  lemma {:induction false} UncappedNeverResets(escalation: bool, inputs: seq<Input>)
    ensures Count(NewSession(0, escalation), inputs, Reset) == 0 && Session(NewSession(0, escalation), inputs).cap == 0
  {
    if inputs != [] {
      UncappedNeverResets(escalation, inputs[..|inputs| - 1]);
    }
  }

  // ---- a wedge that stays ------------------------------------------------------------------

  ghost predicate ColdWedge(inputs: seq<Input>) {
    forall i :: 0 <= i < |inputs| ==> inputs[i].dma == 0 && 2 <= inputs[i].sm <= 9 && inputs[i].clock
  }

  /** After n ticks of such a wedge: n modulo 5 counted, n / 5 recoveries up to the cap, escalated at 5*(cap+1). */
  predicate WedgeAt(m: Monitor, n: nat, cap: nat) {
    && m.s == Sampler(0, n % 5, 0) && m.cap == cap && m.escalation
    && m.recovered == (if n / 5 <= cap then n / 5 else cap)
    && (m.escalated <==> n >= 5 * (cap + 1))
  }

  lemma {:induction false} WedgeTick(m: Monitor, n: nat, cap: nat, i: Input)
    requires 0 < cap < 256 && WedgeAt(m, n, cap) && i.dma == 0 && 2 <= i.sm <= 9 && i.clock
    ensures WedgeAt(TickStep(m, i).0, n + 1, cap)
    ensures TickStep(m, i).1 == Reset <==> n + 1 == 5 * (cap + 1)
    ensures TickStep(m, i).1 == Light <==> (n + 1) % 5 == 0 && n + 1 <= 5 * cap
  {
    NextModulo(n, 5);
    AboveCap(n, cap);
    AboveCap(n + 1, cap);
  }

  /**
   * Under a cold-start wedge that stays, on a live clock, every fifth tick recovers until the cap, then resets once.
   */
  lemma {:induction false} WedgeSession(cap: nat, inputs: seq<Input>)
    requires 0 < cap < 256 && ColdWedge(inputs)
    ensures WedgeAt(Session(NewSession(cap, true), inputs), |inputs|, cap)
    ensures Count(NewSession(cap, true), inputs, Reset) == if |inputs| >= 5 * (cap + 1) then 1 else 0
  {
    if inputs != [] {
      var before := inputs[..|inputs| - 1];
      WedgeSession(cap, before);
      WedgeTick(Session(NewSession(cap, true), before), |before|, cap, inputs[|inputs| - 1]);
    }
  }

  lemma {:induction false} AboveCap(n: nat, cap: nat)
    ensures n / 5 <= cap <==> n < 5 * (cap + 1)
  {
  }

  /** The reset under such a wedge comes at tick 5*(cap+1) exactly, the recoveries at the multiples of 5 before it. */
  lemma {:induction false} WedgeResetTick(cap: nat, inputs: seq<Input>)
    requires 0 < cap < 256 && ColdWedge(inputs) && inputs != []
    ensures var r := TickStep(Session(NewSession(cap, true), inputs[..|inputs| - 1]), inputs[|inputs| - 1]).1;
            && (r == Reset <==> |inputs| == 5 * (cap + 1))
            && (r == Light <==> |inputs| % 5 == 0 && |inputs| <= 5 * cap)
  {
    var before := inputs[..|inputs| - 1];
    WedgeSession(cap, before);
    WedgeTick(Session(NewSession(cap, true), before), |before|, cap, inputs[|inputs| - 1]);
  }

  // ---- the bound is reached ----------------------------------------------------------------

  const PRIME := Input(1, GPIF_TH0_RD, true)
  const FROZEN := Input(1, GPIF_TH0_BUSY, true)
  const DEAD := Input(0, GPIF_TH0_RD, true)

  /** One stall: a sample that sets the baseline and three frozen ones. */
  const STALL: seq<Input> := [PRIME, FROZEN, FROZEN, FROZEN]

  function Stalls(n: nat): (r: seq<Input>)
    ensures |r| == 4 * n
  {
    if n == 0 then [] else Stalls(n - 1) + STALL
  }

  lemma {:induction false} SessionAppend(m: Monitor, inputs: seq<Input>, i: Input)
    ensures Session(m, inputs + [i]) == TickStep(Session(m, inputs), i).0
    ensures Count(m, inputs + [i], Reset)
            == Count(m, inputs, Reset) + if TickStep(Session(m, inputs), i).1 == Reset then 1 else 0
  {
  }

  /** A stall from a fresh sampler below the cap: three quiet ticks, then a light recovery. */
  lemma {:induction false} OneStall(m: Monitor)
    requires m.s == FRESH && m.recovered < m.cap < 256
    ensures TickStep(m, PRIME) == (m.(s := Sampler(0, 0, 1)), Nothing)
    ensures TickStep(m.(s := Sampler(0, 0, 1)), FROZEN) == (m.(s := Sampler(1, 0, 1)), Nothing)
    ensures TickStep(m.(s := Sampler(1, 0, 1)), FROZEN) == (m.(s := Sampler(2, 0, 1)), Nothing)
    ensures TickStep(m.(s := Sampler(2, 0, 1)), FROZEN) == (m.(recovered := m.recovered + 1), Light)
  {
  }

  lemma {:induction false} AppendQuiet(m: Monitor, inputs: seq<Input>, i: Input, before: Monitor, after: Monitor)
    requires Session(m, inputs) == before && TickStep(before, i).0 == after && TickStep(before, i).1 != Reset
    ensures Session(m, inputs + [i]) == after && Count(m, inputs + [i], Reset) == Count(m, inputs, Reset)
  {
  }

  lemma {:induction false} StallAppended(m: Monitor, r: seq<Input>, before: Monitor, r': seq<Input>)
    requires Session(m, r) == before && before.s == FRESH && before.recovered < before.cap < 256 && r' == r + STALL
    ensures Session(m, r') == before.(recovered := before.recovered + 1) && Count(m, r', Reset) == Count(m, r, Reset)
  {
    OneStall(before);
    AppendQuiet(m, r, PRIME, before, before.(s := Sampler(0, 0, 1)));
    var r1 := r + [PRIME];
    AppendQuiet(m, r1, FROZEN, before.(s := Sampler(0, 0, 1)), before.(s := Sampler(1, 0, 1)));
    var r2 := r1 + [FROZEN];
    AppendQuiet(m, r2, FROZEN, before.(s := Sampler(1, 0, 1)), before.(s := Sampler(2, 0, 1)));
    AppendQuiet(m, r2 + [FROZEN], FROZEN, before.(s := Sampler(2, 0, 1)), before.(recovered := before.recovered + 1));
    assert r' == r2 + [FROZEN] + [FROZEN];
  }

  lemma {:induction false} StallsSession(m: Monitor, n: nat, r: seq<Input>)
    requires m == NewSession(m.cap, true) && n <= m.cap < 256 && r == Stalls(n)
    ensures Session(m, r) == m.(recovered := n) && Count(m, r, Reset) == 0
    decreases n
  {
    if n > 0 {
      StallsSession(m, n - 1, Stalls(n - 1));
      StallAppended(m, Stalls(n - 1), m.(recovered := n - 1), r);
    }
  }

  /** The bound of SessionBounds is reached: for every cap some session resets the device at tick 4*cap+5. */
  lemma {:induction false} EarliestReset(cap: nat) returns (inputs: seq<Input>)
    requires 0 < cap < 256
    ensures |inputs| == 4 * cap + 5 && Count(NewSession(cap, true), inputs, Reset) == 1
  {
    var m := NewSession(cap, true);
    inputs := Stalls(cap);
    StallsSession(m, cap, inputs);
    var k := 0;
    while k < 5
      invariant 0 <= k <= 5 && |inputs| == 4 * cap + k
      invariant k < 5 ==> Session(m, inputs) == m.(recovered := cap, s := Sampler(0, k, 0))
      invariant Count(m, inputs, Reset) == if k == 5 then 1 else 0
    {
      SessionAppend(m, inputs, DEAD);
      inputs := inputs + [DEAD];
      k := k + 1;
    }
  }
}
