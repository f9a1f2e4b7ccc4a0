/**
 * The watchdog and the stream it watches in one loop: the sampler sees the state the GPIF shows, its remedies act on
 * the GPIF and the DMA channel, and host events come in between.
 */
module StreamLoop {
  import H = HealthSpec
  import L = LifecycleSpec

  datatype Loop = Loop(m: H.Monitor, d: L.Dev)

  /**
   * `Tick`: one evaluation, with the DMA count and the state the GPIF would show the sampler; `e` is what the hardware
   * does during a recovery, its `smState` the state at the end of the soft stop. `Host`: an event from the host.
   */
  datatype Event = Tick(dma: nat, sm: nat, e: L.Env) | Host(ev: L.Event, e: L.Env)

  function InputOf(d: L.Dev, t: Event): H.Input
    requires t.Tick?
  {
    H.Input(t.dma, L.SmSeen(d, t.e.(smState := t.sm)), t.e.clockOk)
  }

  /** What a tick does; there is none without an active application. */
  function RemedyAt(l: Loop, t: Event): H.Remedy {
    if t.Host? || l.d.halted || !l.d.appActive then H.Nothing else H.TickStep(l.m, InputOf(l.d, t)).1
  }

  function DeviceAfter(d: L.Dev, r: H.Remedy, e: L.Env): L.Dev {
    match r
    case Nothing => d
    case Light => L.Step(d, L.Recovery, e)
    case Reset => L.DeviceReset(d)
  }

  /** STARTFX3, once its clock is found good, and STOPFX3 begin a new session for the sampler. */
  predicate NewSession(d: L.Dev, ev: L.Event, e: L.Env) {
    !d.halted && (ev == L.StopFx3 || (ev == L.StartFx3 && e.clockOk))
  }

  function Step(l: Loop, t: Event): Loop {
    match t
    case Tick(_, _, e) =>
      if l.d.halted || !l.d.appActive then l
      else Loop(H.TickStep(l.m, InputOf(l.d, t)).0, DeviceAfter(l.d, RemedyAt(l, t), e))
    case Host(ev, e) =>
      Loop(if NewSession(l.d, ev, e) then H.NewSession(l.m.cap, l.m.escalation) else l.m, L.Step(l.d, ev, e))
  }

  function Run(l: Loop, ts: seq<Event>, n: nat): Loop
    requires n <= |ts|
  {
    if n == 0 then l else Step(Run(l, ts, n - 1), ts[n - 1])
  }

  /** The remedy at the n-th event of a run. */
  function Remedy(l: Loop, ts: seq<Event>, n: nat): H.Remedy
    requires n < |ts|
  {
    RemedyAt(Run(l, ts, n), ts[n])
  }

  /**
   * What a host event does to the sampler: STOPFX3, and STARTFX3 with a good clock, begin afresh; nothing else does.
   */
  lemma {:induction false} SessionBegins(l: Loop, ev: L.Event, e: L.Env)
    ensures var m := Step(l, Host(ev, e)).m;
            if !l.d.halted && (ev == L.StopFx3 || (ev == L.StartFx3 && e.clockOk))
            then m == H.Monitor(H.Sampler(0, 0, 0), 0, l.m.cap, l.m.escalation, false) else m == l.m
  {
  }

  /** Neither a new configuration nor a STARTFX3. */
  ghost predicate HostSilent(ts: seq<Event>) {
    forall n :: 0 <= n < |ts| && ts[n].Host? ==> !L.HostRestarts(ts[n].ev)
  }

  ghost predicate Stranded(l: Loop) {
    !l.d.programmed && !l.d.running
  }

  /** An unprogrammed GPIF shows no state the sampler counts, whatever the DMA count does. */
  lemma {:induction false} StrandedStep(l: Loop, t: Event)
    requires Stranded(l) && (t.Host? ==> !L.HostRestarts(t.ev))
    ensures RemedyAt(l, t) == H.Nothing && Stranded(Step(l, t))
  {
    if t.Host? {
      L.StaysStopped(l.d, t.ev, t.e);
    }
  }

  /**
   * From an unprogrammed GPIF, as a forced stop leaves it: until the host restarts the stream the watchdog neither
   * recovers nor resets again, and the state machine stays stopped.
   */
  lemma {:induction false} StrandedSilently(l: Loop, ts: seq<Event>, i: nat, n: nat)
    requires HostSilent(ts) && i <= n <= |ts| && Stranded(Run(l, ts, i))
    ensures Stranded(Run(l, ts, n)) && (n < |ts| ==> Remedy(l, ts, n) == H.Nothing)
    decreases n
  {
    if i < n {
      StrandedSilently(l, ts, i, n - 1);
      StrandedStep(Run(l, ts, n - 1), ts[n - 1]);
    }
    if n < |ts| {
      StrandedSilent(Run(l, ts, n), ts[n]);
    }
  }

  lemma {:induction false} StrandedSilent(l: Loop, t: Event)
    requires Stranded(l)
    ensures RemedyAt(l, t) == H.Nothing
  {
  }

  /** The n-th event is a light recovery whose soft stop did not reach IDLE. */
  ghost predicate ForcedAt(l: Loop, ts: seq<Event>, n: nat) {
    n < |ts| && Remedy(l, ts, n) == H.Light && ts[n].e.smState != L.GPIF_IDLE
  }

  lemma {:induction false} ForcedStrands(l: Loop, t: Event)
    requires RemedyAt(l, t) == H.Light && t.e.smState != L.GPIF_IDLE
    ensures Stranded(Step(l, t))
  {
  }

  /** In any host-silent run a forced light recovery is the watchdog's last remedy. */
  lemma {:induction false} ForcedIsLast(l: Loop, ts: seq<Event>, i: nat, n: nat)
    requires HostSilent(ts) && ForcedAt(l, ts, i) && i < n < |ts|
    ensures Remedy(l, ts, n) == H.Nothing
  {
    ForcedStrands(Run(l, ts, i), ts[i]);
    StrandedSilently(l, ts, i + 1, n);
  }

  ghost predicate NoneForced(l: Loop, ts: seq<Event>, n: nat) {
    forall i :: 0 <= i < n ==> !ForcedAt(l, ts, i)
  }

  /** So the watchdog's reset comes only if every soft stop before it reached IDLE. */
  lemma {:induction false} ResetNeedsIdle(l: Loop, ts: seq<Event>, n: nat)
    requires HostSilent(ts) && n < |ts| && Remedy(l, ts, n) == H.Reset
    ensures NoneForced(l, ts, n)
  {
    if i :| 0 <= i < n && ForcedAt(l, ts, i) {
      ForcedIsLast(l, ts, i, n);
    }
  }

  // ---- a cold-start wedge ------------------------------------------------------------------

  /** No DMA at all, a streaming state whenever the sampler looks at a programmed GPIF, and a good clock. */
  ghost predicate Wedge(ts: seq<Event>) {
    forall i :: 0 <= i < |ts| ==> ts[i].Tick? && ts[i].dma == 0 && 2 <= ts[i].sm <= 9 && ts[i].e.clockOk
  }

  /** What the sampler sees of it while the GPIF stays programmed. */
  function Seen(ts: seq<Event>, n: nat): (inputs: seq<H.Input>)
    requires n <= |ts| && forall i :: 0 <= i < |ts| ==> ts[i].Tick?
    ensures |inputs| == n
  {
    seq(n, (i: nat) requires i < n => H.Input(ts[i].dma, ts[i].sm, ts[i].e.clockOk))
  }

  predicate Streaming(d: L.Dev) {
    d.programmed && d.appActive && !d.halted && L.Good(d)
  }

  /** The soft stops at every fifth of the first n ticks reach IDLE. */
  predicate StopsIdle(ts: seq<Event>, n: nat)
    requires n <= |ts|
  {
    n > 0 ==> StopsIdle(ts, n - 1) && (n % 5 == 0 ==> ts[n - 1].e.smState == L.GPIF_IDLE)
  }

  lemma {:induction false} StopsIdleAt(ts: seq<Event>, n: nat)
    requires n <= |ts|
    ensures StopsIdle(ts, n) <==> forall i :: 0 <= i < n && (i + 1) % 5 == 0 ==> ts[i].e.smState == L.GPIF_IDLE
  {
    if n > 0 {
      StopsIdleAt(ts, n - 1);
    }
  }

  /** The session's remedies: light ones at the multiples of 5 up to 5*cap, the reset at 5*(cap+1). */
  lemma {:induction false} RemedyIs(l: Loop, ts: seq<Event>, n: nat)
    requires Wedge(ts) && 0 < l.m.cap < 256 && n < |ts|
    ensures var r := H.TickStep(H.Session(H.NewSession(l.m.cap, true), Seen(ts, n)), Seen(ts, n + 1)[n]).1;
            && (r == H.Reset <==> n + 1 == 5 * (l.m.cap + 1))
            && (r == H.Light <==> (n + 1) % 5 == 0 && n + 1 <= 5 * l.m.cap)
  {
    var inputs := Seen(ts, n + 1);
    assert inputs[..n] == Seen(ts, n);
    H.WedgeResetTick(l.m.cap, inputs);
  }

  /** One tick that does not reset and is not forced leaves a streaming device. */
  lemma {:induction false} OneTick(l: Loop, t: Event)
    requires t.Tick? && Streaming(l.d) && RemedyAt(l, t) != H.Reset
    requires RemedyAt(l, t) == H.Light ==> t.e.smState == L.GPIF_IDLE
    ensures Step(l, t).m == H.TickStep(l.m, H.Input(t.dma, t.sm, t.e.clockOk)).0 && Streaming(Step(l, t).d)
  {
    L.RecoveryKeeps(l.d, t.e);
  }

  lemma {:induction false} RemedyFollows(l: Loop, ts: seq<Event>, n: nat)
    requires Wedge(ts) && n < |ts| && Run(l, ts, n).m == H.Session(l.m, Seen(ts, n)) && Streaming(Run(l, ts, n).d)
    ensures Remedy(l, ts, n) == H.TickStep(H.Session(l.m, Seen(ts, n)), Seen(ts, n + 1)[n]).1
  {
  }

  lemma {:induction false} SeenNext(l: Loop, ts: seq<Event>, n: nat)
    requires Wedge(ts) && n < |ts|
    ensures H.Session(l.m, Seen(ts, n + 1)) == H.TickStep(H.Session(l.m, Seen(ts, n)), Seen(ts, n + 1)[n]).0
  {
    assert Seen(ts, n + 1)[..n] == Seen(ts, n);
  }

  /** While they do, and before the reset, sampler and device go on as the open-loop session says. */
  lemma {:induction false} InStep(l: Loop, ts: seq<Event>, n: nat)
    requires Wedge(ts) && l.m == H.NewSession(l.m.cap, true) && 0 < l.m.cap < 256 && Streaming(l.d)
    requires n < |ts| && n < 5 * (l.m.cap + 1) && StopsIdle(ts, n)
    ensures Run(l, ts, n).m == H.Session(l.m, Seen(ts, n)) && Streaming(Run(l, ts, n).d)
    ensures Remedy(l, ts, n) == H.TickStep(H.Session(l.m, Seen(ts, n)), Seen(ts, n + 1)[n]).1
    decreases n
  {
    if n > 0 {
      InStep(l, ts, n - 1);
      RemedyIs(l, ts, n - 1);
      OneTick(Run(l, ts, n - 1), ts[n - 1]);
      SeenNext(l, ts, n - 1);
    } else {
      assert Seen(ts, 0) == [];
    }
    RemedyFollows(l, ts, n);
  }

  lemma {:induction false} MultipleBelow(n: nat, cap: nat)
    requires n % 5 == 0 && n < 5 * (cap + 1)
    ensures n <= 5 * cap
  {
  }

  /** The first soft stop to be forced is one, and would be the last remedy. */
  lemma {:induction false} FifthForced(l: Loop, ts: seq<Event>, n: nat)
    requires Wedge(ts) && l.m == H.NewSession(l.m.cap, true) && 0 < l.m.cap < 256 && Streaming(l.d)
    requires 0 < n < |ts| == 5 * (l.m.cap + 1) && StopsIdle(ts, n - 1) && n % 5 == 0
    requires ts[n - 1].e.smState != L.GPIF_IDLE
    ensures ForcedAt(l, ts, n - 1)
  {
    InStep(l, ts, n - 1);
    RemedyIs(l, ts, n - 1);
    MultipleBelow(n, l.m.cap);
  }

  lemma {:induction false} NothingAfterFifth(l: Loop, ts: seq<Event>, n: nat)
    requires Wedge(ts) && l.m == H.NewSession(l.m.cap, true) && 0 < l.m.cap < 256 && Streaming(l.d)
    requires 0 < n < |ts| == 5 * (l.m.cap + 1) && StopsIdle(ts, n - 1) && n % 5 == 0
    requires ts[n - 1].e.smState != L.GPIF_IDLE
    ensures Remedy(l, ts, |ts| - 1) == H.Nothing
  {
    FifthForced(l, ts, n);
    ForcedIsLast(l, ts, n - 1, |ts| - 1);
  }

  /** So if the last tick resets, every soft stop before it reached IDLE. */
  lemma {:induction false} ResetMeansIdle(l: Loop, ts: seq<Event>, n: nat)
    requires Wedge(ts) && l.m == H.NewSession(l.m.cap, true) && 0 < l.m.cap < 256 && Streaming(l.d)
    requires n < |ts| == 5 * (l.m.cap + 1) && Remedy(l, ts, |ts| - 1) == H.Reset
    ensures StopsIdle(ts, n)
    decreases n
  {
    if n > 0 {
      ResetMeansIdle(l, ts, n - 1);
      if n % 5 == 0 && ts[n - 1].e.smState != L.GPIF_IDLE {
        NothingAfterFifth(l, ts, n);
      }
    }
  }

  /**
   * Under a cold-start wedge of a streaming device, with a good clock and nothing from the host, the device reset
   * comes at tick 5*(cap+1) if and only if the state machine is in IDLE at the end of the soft stop of every fifth
   * tick before it.
   */
  lemma {:induction false} WedgeResetsIff(l: Loop, ts: seq<Event>)
    requires Wedge(ts) && l.m == H.NewSession(l.m.cap, true) && 0 < l.m.cap < 256 && Streaming(l.d)
    requires |ts| == 5 * (l.m.cap + 1)
    ensures Remedy(l, ts, |ts| - 1) == H.Reset <==>
              forall i :: 0 <= i < |ts| - 1 && (i + 1) % 5 == 0 ==> ts[i].e.smState == L.GPIF_IDLE
  {
    var last := |ts| - 1;
    StopsIdleAt(ts, last);
    if StopsIdle(ts, last) {
      InStep(l, ts, last);
      RemedyIs(l, ts, last);
    } else if Remedy(l, ts, last) == H.Reset {
      ResetMeansIdle(l, ts, last);
    }
  }

  // ---- a stream nobody watches -------------------------------------------------------------

  lemma {:induction false} InactiveStep(l: Loop, t: Event)
    requires !l.d.appActive && (t.Host? ==> t.ev != L.SetConf)
    ensures !Step(l, t).d.appActive && RemedyAt(l, t) == H.Nothing && (t.Tick? ==> Step(l, t) == l)
  {
    if t.Host? && t.ev == L.StartFx3 {
      L.InactiveStays(l.d, t.e);
    }
  }

  /** Until the next configuration no tick does anything while the application counts as inactive, streaming or not. */
  lemma {:induction false} Unwatched(l: Loop, ts: seq<Event>, n: nat)
    requires n <= |ts| && !l.d.appActive && forall i :: 0 <= i < |ts| && ts[i].Host? ==> ts[i].ev != L.SetConf
    ensures !Run(l, ts, n).d.appActive
    ensures n < |ts| && ts[n].Tick? ==> Remedy(l, ts, n) == H.Nothing && Run(l, ts, n + 1) == Run(l, ts, n)
    decreases n
  {
    if n > 0 {
      Unwatched(l, ts, n - 1);
      InactiveStep(Run(l, ts, n - 1), ts[n - 1]);
    }
    if n < |ts| {
      InactiveStep(Run(l, ts, n), ts[n]);
    }
  }
}
