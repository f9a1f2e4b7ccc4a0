/** The handlers that start, stop and restart streaming, as sequences of SDK calls on one device. */
module Lifecycle {
  import opened LifecycleSpec

  class Device {
    var programmed: bool
    var running: bool
    var channel: Channel
    var glIsApplnActive: bool
    var glDebugTxEnabled: bool
    var halted: bool
    var swInput: bool           // FW_TRG
    var adcStandby: bool
    ghost var misuse: seq<Misuse>

    ghost function State(): Dev
      reads this
    {
      Dev(programmed, running, channel, glIsApplnActive, glDebugTxEnabled, halted, misuse)
    }

    constructor (console: bool)
      ensures State() == Initial(console) && !swInput && adcStandby
    {
      programmed, running, channel, glIsApplnActive := false, false, Absent, false;
      glDebugTxEnabled, halted, swInput, adcStandby := console, false, false, true;
      misuse := [];
    }

    // ---- SDK calls, as their headers document them; none has an effect after a device reset

    method DmaMultiChannelCreate(fails: bool) returns (ok: bool)
      modifies this`channel, this`misuse
      ensures (State(), ok) == Create(old(State()), fails)
    {
      ok := !halted && channel == Absent && !fails;
      if !halted && channel != Absent { misuse := misuse + [CreateExisting]; }
      if ok { channel := Configured; }
    }

    method DmaMultiChannelDestroy(fails: bool) returns (ok: bool)
      modifies this`channel
      ensures (State(), ok) == Destroy(old(State()), fails)
    {
      ok := !halted && channel != Absent && !fails;
      if ok { channel := Absent; }
    }

    method DmaMultiChannelReset(fails: bool)
      modifies this`channel
      ensures State() == ResetChannel(old(State()), fails)
    {
      if !halted && channel != Absent && !fails { channel := Configured; }
    }

    method DmaMultiChannelSetXfer(fails: bool) returns (ok: bool)
      modifies this`channel, this`misuse
      ensures (State(), ok) == SetXfer(old(State()), fails)
    {
      ok := !halted && channel == Configured && !fails;
      if !halted && channel == Active { misuse := misuse + [XferActive]; }
      if ok { channel := Active; }
    }

    method GpifLoad(fails: bool) returns (ok: bool)
      modifies this`programmed, this`misuse
      ensures (State(), ok) == Load(old(State()), fails)
    {
      ok := !halted && !programmed && !fails;
      if !halted && programmed { misuse := misuse + [LoadProgrammed]; }
      if ok { programmed := true; }
    }

    method GpifDisable(forceReload: bool)
      modifies this`programmed, this`running
      ensures State() == Disable(old(State()), forceReload)
    {
      if !halted {
        running := false;
        if forceReload { programmed := false; }
      }
    }

    method GpifSMStart() returns (ok: bool)
      modifies this`running, this`misuse
      ensures (State(), ok) == SMStart(old(State()))
    {
      ok := !halted && programmed && !running;
      if !halted && programmed && running { misuse := misuse + [StartRunning]; }
      if ok { running := true; }
    }

    method GpifGetSMState(e: Env) returns (smState: nat)
      ensures smState == SmSeen(State(), e)
    {
      smState := UNKNOWN_STATE;
      if programmed { smState := e.smState; }
    }

    method CheckStatus(ok: bool)
      modifies this`programmed, this`running, this`channel, this`glIsApplnActive, this`halted
      ensures State() == Check(old(State()), ok)
    {
      if glDebugTxEnabled && !ok && !halted {
        programmed, running, channel, glIsApplnActive, halted := false, false, Absent, false, true;
      }
    }

    // ---- the application

    method StartGPIF(e: Env) returns (ok: bool)
      modifies this`programmed, this`running, this`channel, this`glIsApplnActive, this`halted, this`misuse
      ensures (State(), ok) == StartGpif(old(State()), e)
    {
      ok := GpifLoad(e.loadFails);
      CheckStatus(ok);
      ok := GpifSMStart();
    }

    /** The first half of StartApplication: clocks, endpoint and DMA channel. */
    method SetUpChannel(e: Env)
      modifies this`programmed, this`running, this`channel, this`glIsApplnActive, this`halted, this`misuse
      ensures State() == ArmChannel(old(State()), e)
    {
      CheckStatus(!e.otherFails);
      var ok := DmaMultiChannelCreate(e.createFails);
      CheckStatus(ok);
      ok := DmaMultiChannelSetXfer(e.xferFails);
      CheckStatus(ok);
    }

    method StartApplication(e: Env)
      modifies this`programmed, this`running, this`channel, this`glIsApplnActive, this`halted, this`misuse
      ensures State() == StartApp(old(State()), e)
    {
      SetUpChannel(e);
      var ok := StartGPIF(e);
      CheckStatus(ok);
      if !halted { glIsApplnActive := true; }
    }

    method StopApplication(e: Env)
      modifies this
      ensures State() == StopApp(old(State()), e) && swInput == old(swInput) && adcStandby
    {
      GpifDisable(true);
      CheckStatus(!e.otherFails);
      var ok := DmaMultiChannelDestroy(e.destroyFails);
      CheckStatus(ok);
      adcStandby := true;
      glIsApplnActive := false;
    }

    // ---- events

    method UsbSetConf(e: Env)
      requires !halted
      modifies this
      ensures State() == Step(old(State()), SetConf, e)
      ensures swInput == old(swInput) && adcStandby == (old(adcStandby) || old(glIsApplnActive))
    {
      if glIsApplnActive { StopApplication(e); }
      StartApplication(e);
    }

    method UsbReset(e: Env)
      requires !halted
      modifies this
      ensures State() == Step(old(State()), BusReset, e)
      ensures swInput == old(swInput) && adcStandby == (old(adcStandby) || old(glIsApplnActive))
    {
      if glIsApplnActive { StopApplication(e); }
    }

    /** STARTFX3. The trigger is raised exactly when the state machine has just been started. */
    method StartFx3Request(e: Env) returns (stalled: bool)
      requires !halted
      modifies this
      ensures State() == Step(old(State()), StartFx3, e)
      ensures e.clockOk ==> !adcStandby && swInput == running && stalled == !running
      ensures !e.clockOk ==> stalled && swInput == old(swInput) && adcStandby == old(adcStandby)
    {
      if !e.clockOk { return true; }
      adcStandby := false;
      swInput := false;
      GpifDisable(true);
      DmaMultiChannelReset(e.resetFails);
      var ok := DmaMultiChannelSetXfer(e.xferFails);
      if ok {
        ok := StartGPIF(e);
        if ok { swInput := true; }
      }
      stalled := !ok;
    }

    /** STOPFX3. */
    method StopFx3Request(e: Env)
      requires !halted
      modifies this
      ensures State() == Step(old(State()), StopFx3, e) && !swInput && adcStandby && !running
      ensures programmed <==> old(programmed) && e.smState == 1
      ensures channel == if old(channel) == Absent then Absent else if e.resetFails then old(channel) else Configured
      ensures glIsApplnActive == old(glIsApplnActive) && halted == old(halted) && misuse == old(misuse)
    {
      swInput := false;
      SoftStopGpif(e);
      adcStandby := true;
    }

    method SoftStopGpif(e: Env)
      requires !halted
      modifies this`programmed, this`running, this`channel
      ensures State() == SoftStop(old(State()), e)
    {
      var smState := GpifGetSMState(e);
      if smState == GPIF_IDLE {
        GpifDisable(false);
      } else {
        GpifDisable(true);
      }
      DmaMultiChannelReset(e.resetFails);
    }

    /** STARTADC: a state machine that is not in RESET is stopped by force before the clock is changed. */
    method StartAdcRequest(e: Env)
      requires !halted
      modifies this
      ensures State() == Step(old(State()), StartAdc, e)
      ensures old(!programmed) || e.smState == 0 || e.smState == 255 ==>
                State() == old(State()) && swInput == old(swInput)
      ensures old(programmed) && e.smState != 0 && e.smState != 255 ==>
                && !programmed && !running && !swInput
                && channel == if old(channel) == Absent then Absent
                              else if e.resetFails then old(channel) else Configured
      ensures glIsApplnActive == old(glIsApplnActive) && halted == old(halted) && misuse == old(misuse)
      ensures adcStandby == old(adcStandby)
      ensures old(running ==> programmed) && running ==> old(running) && e.smState in {GPIF_RESET, UNKNOWN_STATE}
    {
      var smState := GpifGetSMState(e);
      if smState != GPIF_RESET && smState != UNKNOWN_STATE {
        swInput := false;
        GpifDisable(true);
        DmaMultiChannelReset(e.resetFails);
      }
    }

    /** The light recovery of health_recover. The trigger is raised with a good clock, restarted or not. */
    method LightRecovery(e: Env)
      requires !halted
      modifies this
      ensures State() == Step(old(State()), Recovery, e) && swInput == e.clockOk && adcStandby == old(adcStandby)
    {
      swInput := false;
      SoftStopGpif(e);
      if e.clockOk {
        var rcXfer := DmaMultiChannelSetXfer(e.xferFails);
        var rcSm := GpifSMStart();
        swInput := true;
      }
    }

    method Handle(h: Happening)
      modifies this
      ensures State() == Step(old(State()), h.ev, h.e)
    {
      if halted { return; }
      match h.ev
      case SetConf => UsbSetConf(h.e);
      case BusReset => UsbReset(h.e);
      case StartFx3 => var _ := StartFx3Request(h.e);
      case StopFx3 => StopFx3Request(h.e);
      case StartAdc => StartAdcRequest(h.e);
      case Recovery => LightRecovery(h.e);
    }

    /** Any run of events, handled one after another, ends where the specification's run ends. */
    method Serve(hs: seq<Happening>)
      modifies this
      ensures State() == Run(old(State()), hs)
    {
      var i := 0;
      while i < |hs|
        invariant i <= |hs| && State() == Run(old(State()), hs[..i])
      {
        RunSnoc(old(State()), hs[..i], hs[i]);
        Handle(hs[i]);
        assert hs[..i] + [hs[i]] == hs[..i + 1];
        i := i + 1;
      }
      assert hs[..i] == hs;
    }
  }
}
