/**
 * The EP0 timeout on a 32-bit millisecond clock that wraps: first with evaluation as one atomic step, then
 * with the evaluator's three reads and the handler's two writes interleaved in any order.
 */
module Ep0Spec {
  import opened Words

  const TIMEOUT := 2000

  /** `now - enter` on unsigned 32-bit numbers. */
  function Elapsed(now: nat, enter: nat): (d: nat)
    requires now < UINT32 && enter < UINT32
    ensures d < UINT32
  {
    (now - enter) % UINT32
  }

  /** Wrapping subtraction of two wrapped times is the wrapped difference, whichever came first. */
  lemma {:induction false} ElapsedIs(now: nat, enter: nat)
    ensures enter <= now ==> Elapsed(now % UINT32, enter % UINT32) == (now - enter) % UINT32
    ensures 0 < enter - now < UINT32 ==> Elapsed(now % UINT32, enter % UINT32) == UINT32 - (enter - now)
  {
  }

  // ---- atomic evaluation -------------------------------------------------------------------

  /**
   * `glHealthState` with the true time, the true entry time of the handler now running, and that of the last
   * evaluation.
   */
  datatype Ep0 = Ep0(time: nat, flag: bool, stamp: Word, running: bool, entered: nat, evaluated: nat)

  datatype Act = Enter | Exit | Pass(ms: nat) | Evaluate

  function Step(s: Ep0, a: Act): Ep0 {
    match a
    case Enter => s.(stamp := s.time % UINT32, flag := true, running := true, entered := s.time)
    case Exit => s.(flag := false, running := false)
    case Pass(ms) => s.(time := s.time + ms)
    case Evaluate => s.(evaluated := s.time)
  }

  const BOOT := Ep0(0, false, 0, false, 0, 0)

  /** The state after the first n acts of a run from boot. */
  function At(acts: seq<Act>, n: nat): Ep0
    requires n <= |acts|
  {
    if n == 0 then BOOT else Step(At(acts, n - 1), acts[n - 1])
  }

  /** What health_evaluate answers about EP0 when it runs as one step. */
  predicate Wedged(s: Ep0) {
    s.flag && Elapsed(s.time % UINT32, s.stamp) >= TIMEOUT
  }

  ghost predicate Ep0Ok(s: Ep0) {
    && s.flag == s.running && s.entered <= s.time && s.evaluated <= s.time
    && (s.running ==> s.stamp == s.entered % UINT32)
  }

  /** Every act keeps it. */
  lemma {:induction false} StepOk(s: Ep0, a: Act)
    requires Ep0Ok(s)
    ensures Ep0Ok(Step(s, a))
  {
  }

  lemma {:induction false} RunOk(acts: seq<Act>, n: nat)
    requires n <= |acts|
    ensures Ep0Ok(At(acts, n))
  {
    if n > 0 {
      RunOk(acts, n - 1);
      StepOk(At(acts, n - 1), acts[n - 1]);
    }
  }

  lemma {:induction false} VerdictOf(s: Ep0)
    requires Ep0Ok(s)
    ensures Wedged(s) <==> s.running && (s.time - s.entered) % UINT32 >= 2000
    ensures s.running && s.time - s.entered < 2000 ==> !Wedged(s)
    ensures s.running && 2000 <= s.time - s.entered < UINT32 ==> Wedged(s)
  {
    ElapsedIs(s.time, s.entered);
  }

  /**
   * In every reachable state a raised flag means the stamp is the running handler's, and the verdict is that
   * handler's age taken modulo the clock.
   */
  lemma {:induction false} VerdictIsAge(acts: seq<Act>)
    ensures var s := At(acts, |acts|);
            && Ep0Ok(s)
            && (Wedged(s) <==> s.running && (s.time - s.entered) % UINT32 >= 2000)
            && (s.running && s.time - s.entered < 2000 ==> !Wedged(s))
            && (s.running && 2000 <= s.time - s.entered < UINT32 ==> Wedged(s))
  {
    RunOk(acts, |acts|);
    VerdictOf(At(acts, |acts|));
  }

  /** No more than `gap` ms ever pass without an evaluation. */
  ghost predicate Paced(acts: seq<Act>, gap: nat) {
    forall n :: 0 <= n <= |acts| ==> At(acts, n).time <= At(acts, n).evaluated + gap
  }

  /** Between two points of a run time does not go back, and a handler older than the first point was running there. */
  lemma {:induction false} Between(acts: seq<Act>, i: nat, k: nat)
    requires i <= k <= |acts|
    ensures At(acts, i).time <= At(acts, k).time && At(acts, i).evaluated <= At(acts, k).evaluated
    ensures At(acts, k).running && At(acts, k).entered < At(acts, i).time ==>
              At(acts, i).running && At(acts, i).entered == At(acts, k).entered
    decreases k
  {
    RunOk(acts, k);
    if i < k {
      RunOk(acts, k - 1);
      Between(acts, i, k - 1);
    }
  }

  /** The last evaluation before point k. */
  lemma {:induction false} LastEvaluation(acts: seq<Act>, k: nat) returns (i: nat)
    requires k <= |acts| && At(acts, k).evaluated > 0
    ensures i < k && acts[i] == Evaluate && At(acts, i).time == At(acts, k).evaluated
  {
    if acts[k - 1] == Evaluate {
      i := k - 1;
    } else {
      i := LastEvaluation(acts, k - 1);
    }
  }

  /** The first evaluation of a handler that is past its deadline at point k. */
  lemma {:induction false} FirstOverdue(acts: seq<Act>, k: nat, deadline: nat) returns (i: nat)
    requires k <= |acts| && 0 < deadline <= At(acts, k).evaluated
    ensures i < k && acts[i] == Evaluate && At(acts, i).evaluated < deadline <= At(acts, i).time
    decreases k
  {
    i := LastEvaluation(acts, k);
    if At(acts, i).evaluated >= deadline {
      i := FirstOverdue(acts, i, deadline);
    }
  }

  /** An evaluation that comes before point i is counted there. */
  lemma {:induction false} Counted(acts: seq<Act>, j: nat, i: nat)
    requires j < i <= |acts| && acts[j] == Evaluate
    ensures At(acts, j).time <= At(acts, i).evaluated
  {
    Between(acts, j + 1, i);
  }

  /**
   * Over every run with evaluations at most `gap` ms apart: a handler still running 2000 + gap ms after it
   * entered has met an evaluation that judged it wedged, no later than then, and none before that did.
   */
  lemma {:induction false} JudgedInTime(acts: seq<Act>, k: nat, gap: nat) returns (i: nat)
    requires Paced(acts, gap) && k <= |acts| && 2000 + gap < UINT32
    requires At(acts, k).running && At(acts, k).time >= At(acts, k).entered + 2000 + gap
    ensures i < k && acts[i] == Evaluate && At(acts, i).running && At(acts, i).entered == At(acts, k).entered
    ensures At(acts, k).entered + 2000 <= At(acts, i).time <= At(acts, k).entered + 2000 + gap
    ensures Wedged(At(acts, i))
    ensures forall j :: 0 <= j < i && acts[j] == Evaluate
                        && At(acts, j).running && At(acts, j).entered == At(acts, k).entered ==>
              !Wedged(At(acts, j))
  {
    var deadline := At(acts, k).entered + 2000;
    i := FirstOverdue(acts, k, deadline);
    Between(acts, i, k);
    RunOk(acts, i);
    VerdictOf(At(acts, i));
    forall j | 0 <= j < i && acts[j] == Evaluate && At(acts, j).running && At(acts, j).entered == At(acts, k).entered
      ensures !Wedged(At(acts, j))
    {
      Counted(acts, j, i);
      RunOk(acts, j);
      VerdictOf(At(acts, j));
    }
  }

  // ---- interleaved reads and writes --------------------------------------------------------

  datatype Handler = Idle | Stamped | Busy

  /**
   * What one evaluation has read so far, with the true times of its reads, the true time of the stamp it read, and
   * when the stamping handler had exited, if it had by then.
   */
  datatype Reader =
    | Start
    | SawFlag(seenTime: nat)
    | HasNow(seenTime: nat, now: Word, nowTime: nat)
    | HasBoth(seenTime: nat, now: Word, nowTime: nat, enter: Word, stampTime: nat, exit: Option<nat>, readTime: nat)

  /** The shared variables, both threads' positions, the true time, and the true times of the last stamp and exit. */
  datatype World = World(time: nat, flag: bool, stamp: Word, stampTime: nat, exitTime: nat, usb: Handler, eval: Reader)

  datatype Move = Usb | Eval | Tick(ms: nat)

  /** One memory access of one thread: the handler stamps, raises, lowers; the evaluator reads flag, clock, stamp. */
  function Move1(w: World, m: Move): World {
    match m
    case Tick(ms) => w.(time := w.time + ms)
    case Usb => (match w.usb
                 case Idle => w.(stamp := w.time % UINT32, stampTime := w.time, usb := Stamped)
                 case Stamped => w.(flag := true, usb := Busy)
                 case Busy => w.(flag := false, exitTime := w.time, usb := Idle))
    case Eval => (match w.eval
                  case Start => if w.flag then w.(eval := SawFlag(w.time)) else w
                  case SawFlag(seen) => w.(eval := HasNow(seen, w.time % UINT32, w.time))
                  case HasNow(seen, now, nowTime) =>
                    w.(eval := HasBoth(seen, now, nowTime, w.stamp, w.stampTime,
                                       if w.usb == Idle then Some(w.exitTime) else None, w.time))
                  case HasBoth(_, _, _, _, _, _, _) => w.(eval := Start))
  }

  function Moves(w: World, ms: seq<Move>): World
    decreases |ms|
  {
    if ms == [] then w else Moves(Move1(w, ms[0]), ms[1..])
  }

  const QUIET := World(0, false, 0, 0, 0, Idle, Start)

  /** While an evaluation is under way: the flag it saw was a handler's that had not exited before. */
  ghost predicate ReaderOk(w: World) {
    match w.eval
    case Start => true
    case SawFlag(seen) => seen <= w.time && (w.usb == Idle ==> seen <= w.exitTime)
    case HasNow(seen, now, nowTime) =>
      seen <= nowTime <= w.time && now == nowTime % UINT32 && (w.usb == Idle ==> seen <= w.exitTime)
    case HasBoth(seen, now, nowTime, enter, stampTime, exit, readTime) =>
      && seen <= nowTime <= readTime && now == nowTime % UINT32 && enter == stampTime % UINT32 && stampTime <= readTime
      && (exit.Some? ==> seen <= exit.value <= readTime && stampTime <= exit.value)
  }

  ghost predicate WorldOk(w: World) {
    && w.stampTime <= w.time && w.exitTime <= w.time && w.stamp == w.stampTime % UINT32
    && (w.flag <==> w.usb == Busy) && (w.usb == Idle && w.stampTime > 0 ==> w.stampTime <= w.exitTime)
    && ReaderOk(w)
  }

  lemma {:induction false} MoveKept(w: World, m: Move)
    requires WorldOk(w)
    ensures WorldOk(Move1(w, m))
  {
  }

  lemma {:induction false} WorldKept(w: World, ms: seq<Move>)
    requires WorldOk(w)
    ensures WorldOk(Moves(w, ms))
    decreases |ms|
  {
    if ms != [] {
      MoveKept(w, ms[0]);
      WorldKept(Move1(w, ms[0]), ms[1..]);
    }
  }

  /** The comparison the evaluator makes once it holds both numbers. */
  predicate Judges(r: Reader)
    requires r.HasBoth?
  {
    Elapsed(r.now, r.enter) >= TIMEOUT
  }

  /** How long the handler whose stamp was read had been at work, up to its exit or to that read. */
  function Lived(r: Reader): int
    requires r.HasBoth?
  {
    (if r.exit.Some? then r.exit.value else r.readTime) - r.stampTime
  }

  /** The stamp was taken after the clock was read. */
  predicate StampedLate(r: Reader)
    requires r.HasBoth?
  {
    r.stampTime > r.nowTime
  }

  /** The handler had exited before the clock was read, long enough after its stamp. */
  predicate GoneOld(r: Reader)
    requires r.HasBoth?
  {
    r.exit.Some? && r.exit.value < r.nowTime && r.nowTime - r.stampTime >= 2000
  }

  /** The two times compared are less than a turn of the clock apart. */
  predicate OneTurn(r: Reader)
    requires r.HasBoth?
  {
    r.nowTime - r.stampTime < UINT32 && r.stampTime - r.nowTime <= UINT32 - 2000
  }

  /**
   * Interleaved, over every run: the verdict is the wrapped difference of the two true times. So a handler that has
   * lived less than 2000 ms is judged wedged exactly when its stamp came after the clock was read, or when it had
   * exited between the reading of its flag and that of the clock, which then shows 2000 ms or more since its stamp.
   * A handler still at work when the clock is read, and stamped by then, is judged by its age.
   */
  lemma {:induction false} FalseAlarmIff(ms: seq<Move>)
    requires Moves(QUIET, ms).eval.HasBoth?
    ensures WorldOk(Moves(QUIET, ms))
    ensures var r := Moves(QUIET, ms).eval; Judges(r) <==> (r.nowTime - r.stampTime) % UINT32 >= 2000
    ensures var r := Moves(QUIET, ms).eval;
            OneTurn(r) && Lived(r) < 2000 ==> (Judges(r) <==> StampedLate(r) || GoneOld(r))
    ensures var r := Moves(QUIET, ms).eval; GoneOld(r) ==> r.seenTime <= r.exit.value < r.nowTime
    ensures var r := Moves(QUIET, ms).eval;
            OneTurn(r) && !StampedLate(r) && (r.exit == None || r.exit.value >= r.nowTime) ==>
              (Judges(r) <==> r.nowTime - r.stampTime >= 2000) && (Judges(r) ==> Lived(r) >= 2000)
  {
    WorldKept(QUIET, ms);
    var r := Moves(QUIET, ms).eval;
    ElapsedIs(r.nowTime, r.stampTime);
    if r.stampTime > r.nowTime {
      WrapsBack(r.nowTime, r.stampTime);
    }
  }

  lemma {:induction false} WrapsBack(now: nat, enter: nat)
    requires now < enter
    ensures Elapsed(now % UINT32, enter % UINT32) == (now - enter) % UINT32
  {
  }

  /**
   * A stamp after the clock: the flag and clock are read during one handler, and the next stamps one millisecond later.
   */
  lemma {:induction false} FalseAlarmReached(w: World) returns (ms: seq<Move>)
    requires w == QUIET
    ensures Moves(w, ms).eval.HasBoth? && WorldOk(Moves(w, ms))
    ensures var r := Moves(w, ms).eval; Judges(r) && StampedLate(r) && Lived(r) == 0
  {
    ms := [Usb, Usb, Eval, Eval, Usb, Tick(1), Usb, Eval];
    WorldKept(w, ms);
    MovesEight(w, ms);
  }

  /** A stamp before the clock: a handler of 1995 ms is gone 10 ms before the clock is read, and still judged. */
  lemma {:induction false} StaleAlarmReached(w: World) returns (ms: seq<Move>)
    requires w == QUIET
    ensures Moves(w, ms).eval.HasBoth? && WorldOk(Moves(w, ms))
    ensures var r := Moves(w, ms).eval; Judges(r) && GoneOld(r) && Lived(r) == 1995
  {
    ms := [Usb, Usb, Tick(1990), Eval, Tick(5), Usb, Tick(10), Eval, Eval];
    WorldKept(w, ms);
    var early := [Usb, Usb, Tick(1990), Eval, Tick(5), Usb, Tick(10), Eval];
    MovesEight(w, early);
    assert ms == early + [Eval];
    MovesSnoc(w, early, Eval);
  }

  lemma {:induction false} MovesSnoc(w: World, ms: seq<Move>, m: Move)
    ensures Moves(w, ms + [m]) == Move1(Moves(w, ms), m)
    decreases |ms|
  {
    if ms == [] {
      assert [m][1..] == [];
    } else {
      assert (ms + [m])[1..] == ms[1..] + [m];
      MovesSnoc(Move1(w, ms[0]), ms[1..], m);
    }
  }

  lemma {:induction false} MovesFour(w: World, ms: seq<Move>)
    requires |ms| >= 4
    ensures Moves(w, ms) == Moves(Move1(Move1(Move1(Move1(w, ms[0]), ms[1]), ms[2]), ms[3]), ms[4..])
  {
    var w1 := Move1(w, ms[0]);
    var w2 := Move1(w1, ms[1]);
    var w3 := Move1(w2, ms[2]);
    assert Moves(w1, ms[1..]) == Moves(w2, ms[2..]) by { assert ms[1..][1..] == ms[2..]; }
    assert Moves(w2, ms[2..]) == Moves(w3, ms[3..]) by { assert ms[2..][1..] == ms[3..]; }
    assert ms[3..][1..] == ms[4..];
  }

  lemma {:induction false} MovesEight(w: World, ms: seq<Move>)
    requires |ms| == 8
    ensures var v := Move1(Move1(Move1(Move1(w, ms[0]), ms[1]), ms[2]), ms[3]);
            Moves(w, ms) == Move1(Move1(Move1(Move1(v, ms[4]), ms[5]), ms[6]), ms[7])
  {
    MovesFour(w, ms);
    MovesFour(Move1(Move1(Move1(Move1(w, ms[0]), ms[1]), ms[2]), ms[3]), ms[4..]);
    assert ms[4..][4..] == [];
  }
}
