/**
 * The streaming lifecycle against the SDK's documented call contracts: the GPIF block, the DMA channel and the
 * application flag, under USB events, vendor requests and watchdog recoveries in any order, with any results.
 */
module LifecycleSpec {

  const GPIF_RESET := 0
  const GPIF_IDLE := 1
  const UNKNOWN_STATE := 0xFF

  datatype Channel = Absent | Configured | Active

  /** Calls the SDK's documentation rules out in the state they are made in. */
  datatype Misuse = LoadProgrammed | StartRunning | XferActive | CreateExisting

  /** `console`: a failed checked call resets the device. `halted`: it has been reset, and nothing more runs. */
  datatype Dev = Dev(programmed: bool, running: bool, channel: Channel, appActive: bool, console: bool, halted: bool,
                     misuse: seq<Misuse>)

  function Initial(console: bool): Dev {
    Dev(false, false, Absent, false, console, false, [])
  }

  // ---- the SDK calls -----------------------------------------------------------------------

  function Misused(d: Dev, m: Misuse): Dev {
    d.(misuse := d.misuse + [m])
  }

  function Create(d: Dev, fails: bool): (Dev, bool) {
    if d.halted then (d, false)
    else if d.channel != Absent then (Misused(d, CreateExisting), false)
    else if fails then (d, false) else (d.(channel := Configured), true)
  }

  function Destroy(d: Dev, fails: bool): (Dev, bool) {
    if d.halted || d.channel == Absent || fails then (d, false) else (d.(channel := Absent), true)
  }

  /** Back to how it was after creation; the callers ignore the status. */
  function ResetChannel(d: Dev, fails: bool): Dev {
    if d.halted || d.channel == Absent || fails then d else d.(channel := Configured)
  }

  function SetXfer(d: Dev, fails: bool): (Dev, bool) {
    if d.halted || d.channel == Absent then (d, false)
    else if d.channel == Active then (Misused(d, XferActive), false)
    else if fails then (d, false) else (d.(channel := Active), true)
  }

  function Load(d: Dev, fails: bool): (Dev, bool) {
    if d.halted then (d, false)
    else if d.programmed then (Misused(d, LoadProgrammed), false)
    else if fails then (d, false) else (d.(programmed := true), true)
  }

  /** The configuration is lost when a reload is forced, and kept otherwise. */
  function Disable(d: Dev, forceReload: bool): Dev {
    if d.halted then d else d.(running := false, programmed := d.programmed && !forceReload)
  }

  function SMStart(d: Dev): (Dev, bool) {
    if d.halted || !d.programmed then (d, false)
    else if d.running then (Misused(d, StartRunning), false) else (d.(running := true), true)
  }

  /** CyU3PDeviceReset does not return: all state is gone. */
  function DeviceReset(d: Dev): Dev {
    Dev(false, false, Absent, false, d.console, true, d.misuse)
  }

  /** CheckStatus: a failure resets the device, but only once the console is up. */
  function Check(d: Dev, ok: bool): Dev {
    if ok || !d.console || d.halted then d else DeviceReset(d)
  }

  // ---- one event ---------------------------------------------------------------------------

  /** What the hardware does while one event is handled. */
  datatype Env = Env(clockOk: bool, smState: nat, resetFails: bool, destroyFails: bool, createFails: bool,
                     xferFails: bool, loadFails: bool, otherFails: bool)

  datatype Event = SetConf | BusReset | StartFx3 | StopFx3 | StartAdc | Recovery

  /** What CyU3PGpifGetSMState leaves in a variable preset to 0xFF. */
  function SmSeen(d: Dev, e: Env): nat {
    if d.programmed then e.smState else UNKNOWN_STATE
  }

  function StartGpif(d: Dev, e: Env): (Dev, bool) {
    var (a, ok) := Load(d, e.loadFails);
    SMStart(Check(a, ok))
  }

  function ArmChannel(d: Dev, e: Env): Dev {
    var (a, created) := Create(Check(d, !e.otherFails), e.createFails);
    var (b, armed) := SetXfer(Check(a, created), e.xferFails);
    Check(b, armed)
  }

  function StartApp(d: Dev, e: Env): Dev {
    var (a, started) := StartGpif(ArmChannel(d, e), e);
    var b := Check(a, started);
    if b.halted then b else b.(appActive := true)
  }

  function StopApp(d: Dev, e: Env): Dev {
    var a := Check(Disable(d, true), !e.otherFails);
    var (b, gone) := Destroy(a, e.destroyFails);
    Check(b, gone).(appActive := false)
  }

  function HandleSetConf(d: Dev, e: Env): Dev {
    StartApp(if d.appActive then StopApp(d, e) else d, e)
  }

  function HandleBusReset(d: Dev, e: Env): Dev {
    if d.appActive then StopApp(d, e) else d
  }

  /** The soft stop of STOPFX3 and of the watchdog: forced unless the state machine has reached IDLE. */
  function SoftStop(d: Dev, e: Env): Dev {
    ResetChannel(Disable(d, SmSeen(d, e) != GPIF_IDLE), e.resetFails)
  }

  function HandleStartFx3(d: Dev, e: Env): Dev {
    if !e.clockOk then d
    else
      var (a, armed) := SetXfer(ResetChannel(Disable(d, true), e.resetFails), e.xferFails);
      if armed then StartGpif(a, e).0 else a
  }

  function HandleStartAdc(d: Dev, e: Env): Dev {
    if SmSeen(d, e) != GPIF_RESET && SmSeen(d, e) != UNKNOWN_STATE then
      ResetChannel(Disable(d, true), e.resetFails)
    else d
  }

  function HandleRecovery(d: Dev, e: Env): Dev {
    var a := SoftStop(d, e);
    if e.clockOk then SMStart(SetXfer(a, e.xferFails).0).0 else a
  }

  function Step(d: Dev, ev: Event, e: Env): Dev {
    if d.halted then d
    else match ev
      case SetConf => HandleSetConf(d, e)
      case BusReset => HandleBusReset(d, e)
      case StartFx3 => HandleStartFx3(d, e)
      case StopFx3 => SoftStop(d, e)
      case StartAdc => HandleStartAdc(d, e)
      case Recovery => HandleRecovery(d, e)
  }

  // ---- what each event does, field by field ------------------------------------------------

  /** The channel after a reset that may have failed. */
  function Afresh(c: Channel, fails: bool): Channel {
    if c == Absent then Absent else if fails then c else Configured
  }

  /** The device after CyU3PDeviceReset. */
  ghost predicate WasReset(before: Dev, after: Dev) {
    after == Dev(false, false, Absent, false, before.console, true, before.misuse)
  }

  /** STOPFX3: the configuration survives only a state machine found in IDLE (1); the channel is reset. */
  lemma {:induction false} StopFx3Does(d: Dev, e: Env)
    requires !d.halted
    ensures Step(d, StopFx3, e)
            == Dev(d.programmed && e.smState == 1, false, Afresh(d.channel, e.resetFails), d.appActive,
                   d.console, false, d.misuse)
  {
  }

  /** STARTADC: nothing in RESET (0) or where no state can be read (255, or no configuration); else a forced stop. */
  lemma {:induction false} StartAdcDoes(d: Dev, e: Env)
    requires !d.halted
    ensures Step(d, StartAdc, e) ==
              if !d.programmed || e.smState == 0 || e.smState == 255 then d
              else Dev(false, false, Afresh(d.channel, e.resetFails), d.appActive, d.console, false, d.misuse)
  {
  }

  /** A watchdog recovery: stopped as by STOPFX3, then armed and started again if the clock is good. */
  lemma {:induction false} RecoveryDoes(d: Dev, e: Env)
    requires !d.halted
    ensures var p, c := d.programmed && e.smState == 1, Afresh(d.channel, e.resetFails);
            Step(d, Recovery, e) ==
              if !e.clockOk then Dev(p, false, c, d.appActive, d.console, false, d.misuse)
              else Dev(p, p, if c == Configured && !e.xferFails then Active else c, d.appActive, d.console, false,
                       d.misuse + if c == Active then [XferActive] else [])
  {
    assert d.misuse + [] == d.misuse;
  }

  /**
   * STARTFX3: nothing without a clock; else a forced stop, the channel reset and armed, and the GPIF loaded and
   * started.
   */
  lemma {:induction false} StartFx3Does(d: Dev, e: Env)
    requires !d.halted
    ensures var r, c := Step(d, StartFx3, e), Afresh(d.channel, e.resetFails);
            if !e.clockOk then r == d
            else if c != Configured || e.xferFails then
              r == Dev(false, false, c, d.appActive, d.console, false,
                       d.misuse + if c == Active then [XferActive] else [])
            else if !e.loadFails then r == Dev(true, true, Active, d.appActive, d.console, false, d.misuse)
            else if d.console then WasReset(d, r)
            else r == Dev(false, false, Active, d.appActive, d.console, false, d.misuse)
  {
    assert d.misuse + [] == d.misuse;
  }

  /** A bus reset tears an active application down; with the console up any failure on the way resets the device. */
  lemma {:induction false} BusResetDoes(d: Dev, e: Env)
    requires !d.halted
    ensures var r := Step(d, BusReset, e);
            if !d.appActive then r == d
            else if d.console && (e.otherFails || e.destroyFails || d.channel == Absent) then WasReset(d, r)
            else r == Dev(false, false, if e.destroyFails then d.channel else Absent, false, d.console, false, d.misuse)
  {
  }

  /** From a clean device a start brings everything up, or resets the device, or leaves what a silent failure leaves. */
  lemma {:induction false} StartDoes(d: Dev, e: Env)
    requires !d.halted && !d.programmed && !d.running && d.channel == Absent
    ensures var r := StartApp(d, e);
            if d.console && (e.otherFails || e.createFails || e.xferFails || e.loadFails) then WasReset(d, r)
            else r == Dev(!e.loadFails, !e.loadFails,
                          if e.createFails then Absent else if e.xferFails then Configured else Active,
                          true, d.console, false, d.misuse)
  {
  }

  /** A new configuration of a device in order: what was active is torn down, then everything is brought up. */
  lemma {:induction false} SetConfDoes(d: Dev, e: Env)
    requires !d.halted && (if d.appActive then d.console || !e.destroyFails || d.channel == Absent
                           else !d.programmed && !d.running && d.channel == Absent)
    ensures var r := Step(d, SetConf, e);
            if d.console && (e.otherFails || e.createFails || e.xferFails || e.loadFails
                             || (d.appActive && (e.destroyFails || d.channel == Absent))) then WasReset(d, r)
            else r == Dev(!e.loadFails, !e.loadFails,
                          if e.createFails then Absent else if e.xferFails then Configured else Active,
                          true, d.console, false, d.misuse)
  {
    if d.appActive {
      BusResetDoes(d, e);
      if StopApp(d, e).halted {
        HaltedStays(StopApp(d, e), e);
      } else {
        StartDoes(StopApp(d, e), e);
      }
    } else {
      StartDoes(d, e);
    }
  }

  lemma {:induction false} ArmUnchecked(d: Dev, e: Env)
    requires !d.halted && !d.console
    ensures var c := if d.channel != Absent then d.channel else if e.createFails then Absent else Configured;
            ArmChannel(d, e) == d.(channel := if c == Configured && !e.xferFails then Active else c,
                                   misuse := d.misuse + (if d.channel != Absent then [CreateExisting] else [])
                                             + if c == Active then [XferActive] else [])
  {
    assert d.misuse + [] == d.misuse;
    var m := d.misuse + [CreateExisting];
    assert m + [] == m;
  }

  lemma {:induction false} GpifUnchecked(d: Dev, e: Env)
    requires !d.halted && !d.console
    ensures var p := d.programmed || !e.loadFails;
            StartGpif(d, e).0 == d.(programmed := p, running := d.running || p,
                                    misuse := d.misuse + (if d.programmed then [LoadProgrammed] else [])
                                              + if p && d.running then [StartRunning] else [])
  {
    assert d.misuse + [] == d.misuse;
    var m := d.misuse + [LoadProgrammed];
    assert m + [] == m;
  }

  /** A start from any state without the console: no failure is noticed, and every call out of order is recorded. */
  lemma {:induction false} StartUnchecked(d: Dev, e: Env)
    requires !d.halted && !d.console
    ensures var c := if d.channel != Absent then d.channel else if e.createFails then Absent else Configured;
            var p := d.programmed || !e.loadFails;
            StartApp(d, e) == Dev(p, d.running || p, if c == Configured && !e.xferFails then Active else c,
                                  true, false, false,
                                  d.misuse + (if d.channel != Absent then [CreateExisting] else [])
                                  + (if c == Active then [XferActive] else [])
                                  + (if d.programmed then [LoadProgrammed] else [])
                                  + if p && d.running then [StartRunning] else [])
  {
    ArmUnchecked(d, e);
    GpifUnchecked(ArmChannel(d, e), e);
  }

  /** And with it: over a channel that exists, or a GPIF that is loaded, the start ends in a device reset. */
  lemma {:induction false} StartRefused(d: Dev, e: Env)
    requires !d.halted && d.console && (d.channel != Absent || d.programmed)
    ensures StartApp(d, e).halted
    ensures StartApp(d, e) == DeviceReset(d.(misuse := StartApp(d, e).misuse))
    ensures StartApp(d, e).misuse == d.misuse + if e.otherFails then []
                                                else if d.channel != Absent then [CreateExisting]
                                                else if e.createFails || e.xferFails then [] else [LoadProgrammed]
  {
    assert d.misuse + [] == d.misuse;
  }

  lemma {:induction false} HaltedStays(d: Dev, e: Env)
    requires d.halted
    ensures StartApp(d, e) == d
  {
  }

  // ---- what every step keeps ---------------------------------------------------------------

  /** While the application is not active there is no channel and no GPIF configuration; only a configured SM runs. */
  predicate Good(d: Dev) {
    && (!d.appActive ==> !d.programmed && d.channel == Absent)
    && (d.running ==> d.programmed)
  }

  /** A stop leaves a channel behind: its destruction fails, and without the console nobody notices. */
  predicate LeavesChannel(d: Dev, ev: Event, e: Env) {
    !d.halted && !d.console && (ev == SetConf || ev == BusReset) && d.appActive && d.channel != Absent && e.destroyFails
  }

  /** The one misuse left: rearming a channel that is still active because its reset failed. */
  predicate RearmsActive(d: Dev, ev: Event, e: Env) {
    !d.halted && (ev == StartFx3 || ev == Recovery) && e.clockOk && d.channel == Active && e.resetFails
  }

  /** Nothing is loaded, created or active. */
  predicate Clean(d: Dev) {
    !d.programmed && !d.running && d.channel == Absent && !d.appActive
  }

  lemma {:induction false} StopCleans(d: Dev, e: Env)
    requires Good(d) && !d.halted && (d.console || !e.destroyFails || d.channel == Absent)
    ensures Clean(StopApp(d, e)) && StopApp(d, e).misuse == d.misuse && StopApp(d, e).console == d.console
  {
  }

  lemma {:induction false} StartKeeps(d: Dev, e: Env)
    requires Clean(d)
    ensures Good(StartApp(d, e)) && StartApp(d, e).misuse == d.misuse && StartApp(d, e).console == d.console
  {
  }

  lemma {:induction false} GpifStarts(d: Dev, e: Env)
    requires !d.programmed && !d.running
    ensures var (r, ok) := StartGpif(d, e);
            && r.misuse == d.misuse && r.console == d.console
            && (r.halted || (r.channel == d.channel && r.appActive == d.appActive && r.halted == d.halted))
            && (r.running ==> r.programmed) && (r.halted && !d.halted ==> Clean(r))
            && (ok <==> r.running) && (r.running <==> !d.halted && !e.loadFails)
  {
  }

  lemma {:induction false} StartFx3Keeps(d: Dev, e: Env)
    requires Good(d) && !d.halted
    ensures var r := HandleStartFx3(d, e);
            && Good(r) && r.console == d.console
            && r.misuse == if RearmsActive(d, StartFx3, e) then d.misuse + [XferActive] else d.misuse
  {
    var (a, armed) := SetXfer(ResetChannel(Disable(d, true), e.resetFails), e.xferFails);
    GpifStarts(a, e);
  }

  lemma {:induction false} RecoveryKeeps(d: Dev, e: Env)
    requires Good(d) && !d.halted
    ensures var r := HandleRecovery(d, e);
            && Good(r) && r.console == d.console
            && r.misuse == if RearmsActive(d, Recovery, e) then d.misuse + [XferActive] else d.misuse
  {
  }

  /** One event keeps the invariant and makes exactly the misuse just described, if any. */
  lemma {:induction false} StepKeeps(d: Dev, ev: Event, e: Env)
    requires Good(d) && !LeavesChannel(d, ev, e)
    ensures Good(Step(d, ev, e)) && Step(d, ev, e).console == d.console
    ensures Step(d, ev, e).misuse == if RearmsActive(d, ev, e) then d.misuse + [XferActive] else d.misuse
  {
    if !d.halted {
      match ev
      case SetConf =>
        if d.appActive {
          StopCleans(d, e);
        }
        StartKeeps(if d.appActive then StopApp(d, e) else d, e);
      case BusReset =>
        if d.appActive {
          StopCleans(d, e);
        }
      case StartFx3 => StartFx3Keeps(d, e);
      case StopFx3 =>
      case StartAdc =>
      case Recovery => RecoveryKeeps(d, e);
    }
  }

  /** The invariant holds again, and no call was out of order but perhaps the arming of an active channel. */
  predicate InOrder(before: Dev, after: Dev) {
    Good(after) && (after.misuse == before.misuse || after.misuse == before.misuse + [XferActive])
  }

  /** An event is handled in order exactly when it does not leave a channel behind. */
  lemma {:induction false} InOrderIff(d: Dev, ev: Event, e: Env)
    requires Good(d)
    ensures InOrder(d, Step(d, ev, e)) <==> !LeavesChannel(d, ev, e)
  {
    if !LeavesChannel(d, ev, e) {
      StepKeeps(d, ev, e);
    } else if ev == SetConf {
      assert StopApp(d, e).misuse == d.misuse;
      LeftBehind(StopApp(d, e), e);
      assert (d.misuse + [CreateExisting])[|d.misuse|] == CreateExisting;
      assert Step(d, ev, e).misuse[|d.misuse|] == CreateExisting;
    }
  }

  /** Starting over a channel left behind creates it again. */
  lemma {:induction false} LeftBehind(d: Dev, e: Env)
    requires !d.halted && !d.console && d.channel != Absent
    ensures d.misuse + [CreateExisting] <= StartApp(d, e).misuse
  {
    ArmedAgain(d, e);
    GpifAdds(ArmChannel(d, e), e);
  }

  lemma {:induction false} ArmedAgain(d: Dev, e: Env)
    requires !d.halted && !d.console && d.channel != Absent
    ensures d.misuse + [CreateExisting] <= ArmChannel(d, e).misuse
  {
  }

  lemma {:induction false} GpifAdds(d: Dev, e: Env)
    ensures d.misuse <= StartGpif(d, e).0.misuse
  {
  }

  datatype Happening = Happening(ev: Event, e: Env)

  function Run(d: Dev, hs: seq<Happening>): Dev
    decreases |hs|
  {
    if hs == [] then d else Step(Run(d, hs[..|hs| - 1]), hs[|hs| - 1].ev, hs[|hs| - 1].e)
  }

  /** Every event of the run is handled in order. */
  predicate AllInOrder(d: Dev, hs: seq<Happening>)
    decreases |hs|
  {
    hs != [] ==> AllInOrder(d, hs[..|hs| - 1]) && InOrder(Run(d, hs[..|hs| - 1]), Run(d, hs))
  }

  /** No event of the run leaves a channel behind. */
  predicate NoneLeft(d: Dev, hs: seq<Happening>)
    decreases |hs|
  {
    hs != [] ==>
      NoneLeft(d, hs[..|hs| - 1]) && !LeavesChannel(Run(d, hs[..|hs| - 1]), hs[|hs| - 1].ev, hs[|hs| - 1].e)
  }

  /** A run is in order exactly when no event of it leaves a channel behind. */
  lemma {:induction false} RunInOrderIff(d: Dev, hs: seq<Happening>)
    requires Good(d)
    ensures AllInOrder(d, hs) <==> NoneLeft(d, hs)
    ensures NoneLeft(d, hs) ==> Good(Run(d, hs))
    decreases |hs|
  {
    if hs != [] {
      var n := |hs| - 1;
      RunInOrderIff(d, hs[..n]);
      if NoneLeft(d, hs[..n]) {
        InOrderIff(Run(d, hs[..n]), hs[n].ev, hs[n].e);
      }
    }
  }

  predicate OnlyRearms(misuse: seq<Misuse>) {
    forall i :: 0 <= i < |misuse| ==> misuse[i] == XferActive
  }

  lemma {:induction false} OnlyRearmsMore(misuse: seq<Misuse>)
    requires OnlyRearms(misuse)
    ensures OnlyRearms(misuse + [XferActive])
  {
  }

  /** In a run in order arming an active channel is all that may be out of order. */
  lemma {:induction false} RunRearms(d: Dev, hs: seq<Happening>)
    requires Good(d) && OnlyRearms(d.misuse) && NoneLeft(d, hs)
    ensures OnlyRearms(Run(d, hs).misuse)
    decreases |hs|
  {
    if hs != [] {
      var n := |hs| - 1;
      RunInOrderIff(d, hs[..n]);
      RunRearms(d, hs[..n]);
      StepKeeps(Run(d, hs[..n]), hs[n].ev, hs[n].e);
      OnlyRearmsMore(Run(d, hs[..n]).misuse);
    }
  }

  /** And that only after a failed reset. */
  lemma {:induction false} RunUnarmed(d: Dev, hs: seq<Happening>)
    requires Good(d) && NoneLeft(d, hs) && forall i :: 0 <= i < |hs| ==> !hs[i].e.resetFails
    ensures Run(d, hs).misuse == d.misuse
    decreases |hs|
  {
    if hs != [] {
      var n := |hs| - 1;
      RunInOrderIff(d, hs[..n]);
      RunUnarmed(d, hs[..n]);
      StepKeeps(Run(d, hs[..n]), hs[n].ev, hs[n].e);
    }
  }

  /**
   * Every run of USB events, vendor requests and recoveries, console or not: it is in order if and only if it leaves no
   * channel behind. Then a running state machine or an active channel means the application is active; the GPIF is
   * loaded only when unprogrammed and started only when stopped, a channel is created only when there is none, and,
   * as long as channel resets succeed, armed only when it is not active.
   */
  lemma {:induction false} RunSafe(console: bool, hs: seq<Happening>)
    ensures AllInOrder(Initial(console), hs) <==> NoneLeft(Initial(console), hs)
    ensures NoneLeft(Initial(console), hs) ==>
              var d := Run(Initial(console), hs);
              && Good(d) && (d.running || d.channel == Active ==> d.appActive)
              && OnlyRearms(d.misuse)
              && ((forall i :: 0 <= i < |hs| ==> !hs[i].e.resetFails) ==> d.misuse == [])
  {
    RunInOrderIff(Initial(console), hs);
    if NoneLeft(Initial(console), hs) {
      RunRearms(Initial(console), hs);
      if forall i :: 0 <= i < |hs| ==> !hs[i].e.resetFails {
        RunUnarmed(Initial(console), hs);
      }
    }
  }

  lemma {:induction false} GpifConsole(d: Dev, e: Env)
    ensures StartGpif(d, e).0.console == d.console
  {
  }

  lemma {:induction false} StartConsole(d: Dev, e: Env)
    ensures StartApp(d, e).console == d.console
  {
    GpifConsole(ArmChannel(d, e), e);
    ArmConsole(d, e);
  }

  lemma {:induction false} ArmConsole(d: Dev, e: Env)
    ensures ArmChannel(d, e).console == d.console
  {
  }

  lemma {:induction false} StopConsole(d: Dev, e: Env)
    ensures StopApp(d, e).console == d.console
  {
  }

  lemma {:induction false} StartFx3Console(d: Dev, e: Env)
    ensures HandleStartFx3(d, e).console == d.console
  {
    GpifConsole(SetXfer(ResetChannel(Disable(d, true), e.resetFails), e.xferFails).0, e);
  }

  lemma {:induction false} RecoveryConsole(d: Dev, e: Env)
    ensures HandleRecovery(d, e).console == d.console
  {
    assert SoftStop(d, e).console == d.console;
  }

  lemma {:induction false} StepConsole(d: Dev, ev: Event, e: Env)
    ensures Step(d, ev, e).console == d.console
  {
    match ev
    case SetConf =>
      StopConsole(d, e);
      StartConsole(if d.appActive then StopApp(d, e) else d, e);
    case BusReset => StopConsole(d, e);
    case StartFx3 => StartFx3Console(d, e);
    case StopFx3 =>
    case StartAdc =>
    case Recovery => RecoveryConsole(d, e);
  }

  /** With the console up, or while every channel can be destroyed, none is left behind. */
  lemma {:induction false} NoneLeftWhen(d: Dev, hs: seq<Happening>)
    requires d.console || forall i :: 0 <= i < |hs| ==> !hs[i].e.destroyFails
    ensures NoneLeft(d, hs) && Run(d, hs).console == d.console
    decreases |hs|
  {
    if hs != [] {
      var n := |hs| - 1;
      NoneLeftWhen(d, hs[..n]);
      StepConsole(Run(d, hs[..n]), hs[n].ev, hs[n].e);
    }
  }

  const FINE := Env(true, GPIF_IDLE, false, false, false, false, false, false)

  /** A configuration, and a bus reset whose channel destruction fails. */
  const ORPHANING := [Happening(SetConf, FINE), Happening(BusReset, FINE.(destroyFails := true))]

  /** Without the console the channel survives them, with the application inactive. */
  lemma {:induction false} Orphaned()
    ensures Run(Initial(false), ORPHANING) == Dev(false, false, Active, false, false, false, [])
  {
    var d := Initial(false);
    RunSnoc(d, [], ORPHANING[0]);
    RunSnoc(d, [ORPHANING[0]], ORPHANING[1]);
    assert [] + [ORPHANING[0]] == [ORPHANING[0]] && [ORPHANING[0]] + [ORPHANING[1]] == ORPHANING;
    assert Run(d, [ORPHANING[0]]) == Step(d, SetConf, FINE) == Dev(true, true, Active, true, false, false, []);
  }

  /**
   * Without the console a channel that could not be destroyed survives, and the next configuration creates it again.
   */
  lemma {:induction false} UncheckedTearDown()
    ensures CreateExisting in Run(Initial(false), ORPHANING + [Happening(SetConf, FINE)]).misuse
  {
    Orphaned();
    RunSnoc(Initial(false), ORPHANING, Happening(SetConf, FINE));
    LeftBehind(Run(Initial(false), ORPHANING), FINE);
    assert ([] + [CreateExisting])[0] == CreateExisting;
    assert Run(Initial(false), ORPHANING + [Happening(SetConf, FINE)]).misuse[0] == CreateExisting;
  }

  /** And a STARTFX3 instead streams over it while the application counts as inactive. */
  lemma {:induction false} OrphanStreams()
    ensures var d := Run(Initial(false), ORPHANING + [Happening(StartFx3, FINE)]);
            d.running && d.channel == Active && !d.appActive && d.misuse == []
  {
    Orphaned();
    RunSnoc(Initial(false), ORPHANING, Happening(StartFx3, FINE));
  }

  lemma {:induction false} InactiveStays(d: Dev, e: Env)
    requires !d.appActive
    ensures !HandleStartFx3(d, e).appActive
  {
  }

  /** A STARTFX3 whose channel reset fails arms an active channel, with the console up too. */
  lemma {:induction false} RearmedActive(console: bool) returns (hs: seq<Happening>)
    ensures NoneLeft(Initial(console), hs) && Run(Initial(console), hs).misuse == [XferActive]
  {
    var d, a, b := Initial(console), Happening(SetConf, FINE), Happening(StartFx3, FINE.(resetFails := true));
    hs := [a, b];
    RunSnoc(d, [], a);
    RunSnoc(d, [a], b);
    assert [] + [a] == [a] && [a] + [b] == hs;
    assert Run(d, [a]) == Dev(true, true, Active, true, console, false, []);
    StartFx3Keeps(Run(d, [a]), b.e);
    NoneLeftWhen(d, hs);
  }

  lemma {:induction false} RunSnoc(d: Dev, hs: seq<Happening>, h: Happening)
    ensures Run(d, hs + [h]) == Step(Run(d, hs), h.ev, h.e)
  {
  }

  // ---- what starts streaming ---------------------------------------------------------------

  /** STARTFX3 with a good clock ends with the state machine running exactly when every step it needs succeeds. */
  lemma {:induction false} StartFx3Iff(d: Dev, e: Env)
    requires !d.halted && e.clockOk
    ensures var r := Step(d, StartFx3, e);
            r.running <==> d.channel != Absent && !(d.channel == Active && e.resetFails) && !e.xferFails && !e.loadFails
    ensures var r := Step(d, StartFx3, e); r.running ==> r.channel == Active && r.appActive == d.appActive
    ensures Step(d, StartFx3, e.(clockOk := false)) == d
  {
  }

  /** A watchdog recovery restarts the state machine exactly when the soft stop reached IDLE and the clock is good. */
  lemma {:induction false} RecoveryIff(d: Dev, e: Env)
    requires !d.halted
    ensures Step(d, Recovery, e).running <==> e.clockOk && d.programmed && e.smState == GPIF_IDLE
    ensures e.smState != GPIF_IDLE ==> !Step(d, Recovery, e).programmed
  {
  }

  predicate HostRestarts(ev: Event) {
    ev == SetConf || ev == StartFx3
  }

  lemma {:induction false} StaysStopped(d: Dev, ev: Event, e: Env)
    requires !d.programmed && !d.running && !HostRestarts(ev)
    ensures !Step(d, ev, e).programmed && !Step(d, ev, e).running
  {
  }

  /**
   * After a forced stop nothing but the host brings streaming back: from an unprogrammed GPIF, recoveries, stops and
   * clock changes in any number leave the state machine stopped.
   */
  lemma {:induction false} StrandedUntilHost(d: Dev, hs: seq<Happening>)
    requires !d.programmed && !d.running && forall i :: 0 <= i < |hs| ==> !HostRestarts(hs[i].ev)
    ensures !Run(d, hs).programmed && !Run(d, hs).running
    decreases |hs|
  {
    if hs != [] {
      StrandedUntilHost(d, hs[..|hs| - 1]);
      StaysStopped(Run(d, hs[..|hs| - 1]), hs[|hs| - 1].ev, hs[|hs| - 1].e);
    }
  }

  /** A forced watchdog stop in a run, and then no request from the host: the state machine stays stopped. */
  lemma {:induction false} ForcedStopStrands(d: Dev, e: Env, hs: seq<Happening>)
    requires !d.halted && e.smState != GPIF_IDLE && forall i :: 0 <= i < |hs| ==> !HostRestarts(hs[i].ev)
    ensures !Run(Step(d, Recovery, e), hs).running
  {
    RecoveryIff(d, e);
    StrandedUntilHost(Step(d, Recovery, e), hs);
  }
}
