/** The hardware watchdog in time: heartbeats, a clear timer every 3000 ms, and a 5000 ms period. */
module WatchdogSpec {
  import opened Words

  const PERIOD := 5000
  const CLEAR_PERIOD := 3000

  /** The heartbeat counter, what the timer callback saw last, the time of the last clear, and the time of the reset. */
  datatype Dog = Dog(heartbeat: nat, seen: nat, cleared: nat, fired: Option<nat>)

  const ARMED := Dog(0, 0, 0, None)

  /** Heartbeats that fall after `lo` and not after `hi`. */
  function Beats(times: seq<nat>, lo: nat, hi: nat): nat {
    if times == [] then 0
    else Beats(times[..|times| - 1], lo, hi) + if lo < times[|times| - 1] <= hi then 1 else 0
  }

  /** The timer callback: clear the watchdog only if the counter moved since the last look. */
  function Callback(d: Dog, now: nat): Dog {
    if d.heartbeat != d.seen then d.(seen := d.heartbeat, cleared := now) else d
  }

  /**
   * The k-th clear window: its heartbeats, the watchdog's own expiry if it came first, then the callback at its end.
   */
  function Window(d: Dog, k: nat, beats: nat): Dog
    requires k > 0
  {
    var now := CLEAR_PERIOD * k;
    if d.fired.Some? then d
    else if d.cleared + PERIOD <= now then d.(fired := Some(d.cleared + PERIOD))
    else Callback(d.(heartbeat := (d.heartbeat + beats) % UINT32), now)
  }

  function RunDog(times: seq<nat>, windows: nat): Dog {
    if windows == 0 then ARMED
    else Window(RunDog(times, windows - 1), windows, Beats(times, CLEAR_PERIOD * (windows - 1), CLEAR_PERIOD * windows))
  }

  /** The callback misses window k exactly when its heartbeats are a multiple of 2^32, zero included. */
  predicate Missed(times: seq<nat>, k: nat)
    requires k > 0
  {
    Beats(times, 3000 * (k - 1), 3000 * k) % UINT32 == 0
  }

  lemma {:induction false} AdvanceModulo(h: nat, b: nat)
    requires h < UINT32
    ensures (h + b) % UINT32 == h <==> b % UINT32 == 0
  {
  }

  /** No window up to the n-th is missed. */
  ghost predicate AllSeen(times: seq<nat>, n: nat) {
    forall k :: 0 < k <= n ==> !Missed(times, k)
  }

  /** While no window is missed every callback clears. */
  lemma {:induction false} ClearedSoFar(times: seq<nat>, n: nat)
    requires AllSeen(times, n)
    ensures var h := RunDog(times, n).heartbeat;
            h < UINT32 && RunDog(times, n) == Dog(h, h, 3000 * n, None)
  {
    if n > 0 {
      ClearedSoFar(times, n - 1);
      assert !Missed(times, n);
      AdvanceModulo(RunDog(times, n - 1).heartbeat, Beats(times, CLEAR_PERIOD * (n - 1), CLEAR_PERIOD * n));
    }
  }

  /** The first missed window m is the end: the watchdog expires 5000 ms after the clear before it. */
  lemma {:induction false} ExpiresAfter(times: seq<nat>, m: nat, n: nat)
    requires 0 < m < n && Missed(times, m) && AllSeen(times, m - 1)
    ensures RunDog(times, n).fired == Some(3000 * (m - 1) + 5000)
  {
    if n == m + 1 {
      ClearedSoFar(times, m - 1);
      AdvanceModulo(RunDog(times, m - 1).heartbeat, Beats(times, CLEAR_PERIOD * (m - 1), CLEAR_PERIOD * m));
      assert RunDog(times, m).cleared == CLEAR_PERIOD * (m - 1);
    } else {
      ExpiresAfter(times, m, n - 1);
    }
  }

  /** The watchdog never fires exactly when no window is missed. */
  lemma {:induction false} NeverFiresIff(times: seq<nat>, n: nat)
    ensures RunDog(times, n + 1).fired == None <==> AllSeen(times, n)
  {
    if AllSeen(times, n) {
      ClearedSoFar(times, n);
      assert RunDog(times, n).cleared + PERIOD > CLEAR_PERIOD * (n + 1);
    } else {
      var m :| 0 < m <= n && Missed(times, m);
      var f := FirstMissed(times, m);
      ExpiresAfter(times, f, n + 1);
    }
  }

  lemma {:induction false} FirstMissed(times: seq<nat>, m: nat) returns (f: nat)
    requires 0 < m && Missed(times, m)
    ensures 0 < f <= m && Missed(times, f) && AllSeen(times, f - 1)
    decreases m
  {
    if k :| 0 < k < m && Missed(times, k) {
      f := FirstMissed(times, k);
    } else {
      f := m;
    }
  }

  lemma {:induction false} SilentWindow(times: seq<nat>, lo: nat, hi: nat)
    requires forall i :: 0 <= i < |times| ==> times[i] <= lo
    ensures Beats(times, lo, hi) == 0
  {
    if times != [] {
      SilentWindow(times[..|times| - 1], lo, hi);
    }
  }

  /** If the last heartbeat comes at or before time t, the device is reset no later than t + 8000 ms. */
  lemma {:induction false} FiresAfterSilence(times: seq<nat>, t: nat)
    requires forall i :: 0 <= i < |times| ==> times[i] <= t
    ensures var n := t / 3000 + 3; RunDog(times, n).fired.Some? && RunDog(times, n).fired.value <= t + 8000
  {
    var j := t / CLEAR_PERIOD + 1;
    assert t < CLEAR_PERIOD * j <= t + CLEAR_PERIOD;
    SilentWindow(times, CLEAR_PERIOD * j, CLEAR_PERIOD * (j + 1));
    assert Missed(times, j + 1);
    var f := FirstMissed(times, j + 1);
    ExpiresAfter(times, f, j + 2);
  }
}
