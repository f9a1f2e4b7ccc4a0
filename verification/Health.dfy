/** The recovery state machine with its static variables updated in place, tick by tick. */
module Health {
  import opened Words
  import opened HealthSpec
  import Ep0Spec
  import WatchdogSpec

  datatype Event = Ep0HandlerEnter | Ep0HandlerExit
  datatype Status = Ok | WedgedEp0 | WedgedStreaming | WedgedUnknown

  class HealthState {
    var enterMs: Word
    var inProgress: bool
    var heartbeat: Word
    var lastSeen: Word
    var maxRecovery: Octet
    var recoveryCount: Octet
    var prevDma: Word
    var stallCount: Octet
    var coldStartCount: Octet
    var faultKind: Fault
    var escalationEn: bool
    var escalated: bool
    var dmaCount: Word
    var faultCounter: Word      // glCounter[2]
    ghost var ep0: Ep0Spec.Ep0  // the true time and the running handler, as the specification has them
    ghost var sdkCalls: nat     // SDK and debug calls made before a remedy
    ghost var lights: nat       // light recoveries made
    ghost var resets: nat       // device resets asked for
    ghost var callsAtReset: nat // sdkCalls at the last of them

    /** The sampler and the recovery state, as the specification sees them. */
    function Monitor(): Monitor
      reads this
    {
      HealthSpec.Monitor(Sampler(stallCount, coldStartCount, prevDma), recoveryCount, maxRecovery, escalationEn,
                         escalated)
    }

    /** The time stamp and the flag are the specification's, in a state its runs reach. */
    ghost predicate Ep0Valid()
      reads this
    {
      Ep0Spec.Ep0Ok(ep0) && inProgress == ep0.flag && enterMs == ep0.stamp
    }

    /** What CyU3PGetTime answers. */
    ghost function Clock(): Word
      reads this
    {
      ep0.time % UINT32
    }

    ghost predicate Valid()
      reads this
    {
      stallCount < STALL_TICKS && coldStartCount < COLD_TICKS && Ep0Valid()
    }

    constructor ()
      ensures Valid() && Monitor() == NewSession(5, true) && ep0 == Ep0Spec.BOOT && heartbeat == lastSeen == 0
    {
      enterMs, inProgress, heartbeat, lastSeen := 0, false, 0, 0;
      maxRecovery, recoveryCount := 5, 0;
      prevDma, stallCount, coldStartCount, faultKind := 0, 0, 0, NoFault;
      escalationEn, escalated := true, false;
      dmaCount, faultCounter := 0, 0;
      ep0, sdkCalls, lights, resets, callsAtReset := Ep0Spec.BOOT, 0, 0, 0, 0;
    }

    /** The timer callback: tells whether the hardware watchdog is cleared. */
    method WdClear() returns (cleared: bool)
      modifies this`lastSeen
      ensures cleared == (heartbeat != old(lastSeen)) && lastSeen == heartbeat
      ensures var d := WatchdogSpec.Dog(heartbeat, old(lastSeen), 0, None);
              forall now :: now > 0 ==> WatchdogSpec.Callback(d, now).seen == lastSeen
                                        && (cleared <==> WatchdogSpec.Callback(d, now).cleared == now)
    {
      var now := heartbeat;
      cleared := now != lastSeen;
      if cleared {
        lastSeen := now;
      }
    }

    method MainHeartbeat()
      modifies this`heartbeat
      ensures heartbeat == (old(heartbeat) + 1) % UINT32
    {
      heartbeat := (heartbeat + 1) % UINT32;
    }

    /** Time goes by. */
    ghost method Pass(ms: nat)
      requires Valid()
      modifies this`ep0
      ensures Valid() && ep0 == Ep0Spec.Step(old(ep0), Ep0Spec.Pass(ms))
    {
      ep0 := Ep0Spec.Step(ep0, Ep0Spec.Pass(ms));
    }

    /**
     * A handler's entry or exit is the specified act: afterwards a raised flag stands for it, and the stamp is its own.
     */
    method RecordEvent(event: Event, time: Word)
      requires Valid() && time == Clock()
      modifies this`enterMs, this`inProgress, this`ep0
      ensures Valid() && ep0 == Ep0Spec.Step(old(ep0), if event.Ep0HandlerEnter? then Ep0Spec.Enter else Ep0Spec.Exit)
      ensures event.Ep0HandlerEnter? ==> !Ep0Spec.Wedged(ep0) && ep0.running && ep0.entered == ep0.time
      ensures event.Ep0HandlerExit? ==> !Ep0Spec.Wedged(ep0) && !ep0.running
    {
      match event
      case Ep0HandlerEnter =>
        enterMs := time;
        inProgress := true;
        ep0 := Ep0Spec.Step(ep0, Ep0Spec.Enter);
        Ep0Spec.VerdictOf(ep0);
      case Ep0HandlerExit =>
        inProgress := false;
        ep0 := Ep0Spec.Step(ep0, Ep0Spec.Exit);
    }

    method SetMaxRecovery(max: Octet)
      modifies this`maxRecovery
      ensures Monitor() == old(Monitor()).(cap := max)
    {
      maxRecovery := max;
    }

    method SetResetEscalation(enabled: bool)
      modifies this`escalationEn
      ensures Monitor() == old(Monitor()).(escalation := enabled)
    {
      escalationEn := enabled;
    }

    method ResetRecoveryCount()
      requires Ep0Valid()
      modifies this`recoveryCount, this`stallCount, this`coldStartCount, this`faultKind, this`escalated, this`prevDma
      ensures Valid() && Monitor() == NewSession(maxRecovery, escalationEn)
    {
      recoveryCount := 0;
      stallCount := 0;
      coldStartCount := 0;
      faultKind := NoFault;
      escalated := false;
      prevDma := 0;
    }

    /** One sample of the DMA count against the state the GPIF machine shows. */
    method StreamingWedgeDetected(gpifState: Octet) returns (wedged: bool)
      requires Valid()
      modifies this`stallCount, this`coldStartCount, this`prevDma, this`faultKind, this`sdkCalls
      ensures Valid()
      ensures var (s, f) := Sample(old(Monitor()).s, dmaCount, gpifState);
              Monitor().s == s && wedged == (f != NoFault) && faultKind == if wedged then f else old(faultKind)
    {
      var curDma := dmaCount;
      if curDma == prevDma {
        sdkCalls := sdkCalls + 1;
        if curDma > 0 && BusyWait(gpifState) {
          coldStartCount := 0;
          stallCount := stallCount + 1;
          if stallCount >= STALL_TICKS {
            stallCount := 0;
            faultKind := ProgressStall;
            return true;
          }
        } else if curDma == 0 && StreamingActive(gpifState) {
          stallCount := 0;
          coldStartCount := coldStartCount + 1;
          if coldStartCount >= COLD_TICKS {
            coldStartCount := 0;
            faultKind := ColdStart;
            return true;
          }
        } else {
          stallCount := 0;
          coldStartCount := 0;
        }
      } else {
        stallCount := 0;
        coldStartCount := 0;
        prevDma := curDma;
      }
      wedged := false;
    }

    /** EP0 first, and when it is overdue nothing else is looked at, called or changed. */
    method Evaluate(now: Word, active: bool, gpifState: Octet) returns (status: Status)
      requires Valid() && now == Clock()
      modifies this`stallCount, this`coldStartCount, this`prevDma, this`faultKind, this`ep0, this`sdkCalls
      ensures Valid() && ep0 == Ep0Spec.Step(old(ep0), Ep0Spec.Evaluate)
      ensures status == WedgedEp0 <==> Ep0Spec.Wedged(ep0)
      ensures Ep0Spec.Wedged(ep0) || !active ==>
                Monitor() == old(Monitor()) && faultKind == old(faultKind) && sdkCalls == old(sdkCalls)
      ensures !Ep0Spec.Wedged(ep0) && active ==>
                var (s, f) := Sample(old(Monitor()).s, dmaCount, gpifState);
                Monitor() == old(Monitor()).(s := s) && status == (if f == NoFault then Ok else WedgedStreaming)
                && (f != NoFault ==> faultKind == f)
      ensures !Ep0Spec.Wedged(ep0) && !active ==> status == Ok
    {
      ep0 := Ep0Spec.Step(ep0, Ep0Spec.Evaluate);
      if inProgress {
        var enter := enterMs;
        if Ep0Spec.Elapsed(now, enter) >= Ep0Spec.TIMEOUT {
          return WedgedEp0;
        }
      }
      if active {
        var wedged := StreamingWedgeDetected(gpifState);
        if wedged {
          return WedgedStreaming;
        }
      }
      status := Ok;
    }

    /** The remedies; `clockOk` is what the clock chip answers, asked once for the escalation or the restart. */
    method Recover(status: Status, clockOk: bool)
      requires Valid()
      modifies this`recoveryCount, this`escalated, this`prevDma, this`dmaCount, this`faultCounter, this`lights
      modifies this`resets, this`callsAtReset
      ensures Valid()
      ensures status == WedgedEp0 ==>
                && Monitor() == old(Monitor()) && resets == old(resets) + 1 && lights == old(lights)
                && callsAtReset == sdkCalls && dmaCount == old(dmaCount) && faultCounter == old(faultCounter)
      ensures status == WedgedStreaming ==>
                var r := RemedyFor(old(Monitor()), faultKind, clockOk);
                && Monitor() == Recovered(old(Monitor()), faultKind, clockOk)
                && lights == old(lights) + (if r == Light then 1 else 0)
                && resets == old(resets) + (if r == Reset then 1 else 0)
                && dmaCount == (if r == Light then 0 else old(dmaCount))
                && faultCounter == (if r == Nothing then old(faultCounter) else Next(old(faultCounter)))
      ensures status == WedgedStreaming ==>
                && (lights == old(lights) + 1 <==> maxRecovery == 0 || old(recoveryCount) < maxRecovery)
                && (resets == old(resets) + 1 <==>
                      && 0 < maxRecovery <= old(recoveryCount) && faultKind == ColdStart
                      && escalationEn && !old(escalated) && clockOk)
      ensures status == Ok || status == WedgedUnknown ==>
                && Monitor() == old(Monitor()) && lights == old(lights) && resets == old(resets)
                && dmaCount == old(dmaCount) && faultCounter == old(faultCounter)
    {
      match status
      case WedgedEp0 =>
        resets, callsAtReset := resets + 1, sdkCalls;
      case WedgedStreaming =>
        if maxRecovery > 0 && recoveryCount >= maxRecovery {
          if faultKind == ColdStart && escalationEn && !escalated && clockOk {
            escalated := true;
            faultCounter := Next(faultCounter);
            resets, callsAtReset := resets + 1, sdkCalls;
          }
          return;
        }
        recoveryCount := (recoveryCount + 1) % 256;
        faultCounter := Next(faultCounter);
        lights := lights + 1;
        prevDma := 0;
        dmaCount := 0;
      case Ok =>
      case WedgedUnknown =>
    }

    /**
     * The main loop's periodic step: heartbeat, evaluate, recover. Before any remedy it prints a line: with EP0 overdue
     * the reset is not the first call, as evaluation and recovery on their own would have it.
     */
    method HealthTick(now: Word, active: bool, gpifState: Octet, clockOk: bool)
      requires Valid() && now == Clock()
      modifies this
      ensures Valid() && heartbeat == (old(heartbeat) + 1) % UINT32 && lastSeen == old(lastSeen)
      ensures ep0 == Ep0Spec.Step(old(ep0), Ep0Spec.Evaluate)
      ensures Ep0Spec.Wedged(ep0) ==>
                && Monitor() == old(Monitor()) && resets == old(resets) + 1 && lights == old(lights)
                && callsAtReset == sdkCalls == old(sdkCalls) + 1
      ensures !Ep0Spec.Wedged(ep0) && !active ==>
                && Monitor() == old(Monitor()) && resets == old(resets) && lights == old(lights)
                && sdkCalls == old(sdkCalls)
      ensures !Ep0Spec.Wedged(ep0) && active ==>
                var (m, r) := TickStep(old(Monitor()), Input(old(dmaCount), gpifState, clockOk));
                && Monitor() == m
                && lights == old(lights) + (if r == Light then 1 else 0)
                && resets == old(resets) + (if r == Reset then 1 else 0)
                && dmaCount == (if r == Light then 0 else old(dmaCount))
                && faultCounter == (if r == Nothing then old(faultCounter) else Next(old(faultCounter)))
      ensures Ep0Spec.Wedged(ep0) || !active ==> dmaCount == old(dmaCount) && faultCounter == old(faultCounter)
    {
      MainHeartbeat();
      var status := Evaluate(now, active, gpifState);
      if status != Ok {
        sdkCalls := sdkCalls + 1;
        Recover(status, clockOk);
      }
    }
  }
}
