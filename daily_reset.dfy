/**
 * The daily reset watcher: every 10 seconds it rereads the configuration and,
 * when the daily reset is enabled and the local time formatted as HH:MM equals
 * the configured reset time, restarts every configured miner and then waits
 * 60 more seconds so that the same minute cannot trigger twice.
 *
 * Time is a local clock in whole seconds; one iteration of the `while True`
 * loop is a step from one clock value to the next.
 */
module DailyReset {
  import opened MinerRecord

  const DEFAULT_RESET_TIME := "03:00"
  /** Sleep at the end of every iteration. */
  const POLL_SECONDS := 10
  /** Extra sleep after a reset. */
  const DEBOUNCE_SECONDS := 60

  /** The two reset keys of the configuration, either possibly absent. */
  datatype ResetSettings = ResetSettings(enabled: Option<bool>, time: Option<string>)

  /** What one iteration reads: the reset keys and the miners `get_miners()` returns. */
  datatype Poll = Poll(settings: ResetSettings, miners: seq<Miner>)

  function MinuteOfDay(t: nat): nat {
    (t / 60) % 1440
  }

  /** Index of the calendar day a clock value falls in. */
  function DayOf(t: nat): nat {
    t / 60 / 1440
  }

  function TwoDigits(n: nat): string
    requires n < 100
  {
    [DigitChar(n / 10), DigitChar(n % 10)]
  }

  /** `strftime("%H:%M")` of the clock value. */
  function ClockText(t: nat): string {
    var m := MinuteOfDay(t);
    TwoDigits(m / 60) + ":" + TwoDigits(m % 60)
  }

  lemma TwoDigitsInjective(a: nat, b: nat)
    requires a < 100 && b < 100
    requires TwoDigits(a) == TwoDigits(b)
    ensures a == b
  {
    assert TwoDigits(a)[0] == TwoDigits(b)[0] && TwoDigits(a)[1] == TwoDigits(b)[1];
    assert a == a / 10 * 10 + a % 10;
  }

  /** Two clock values print the same HH:MM exactly when they are in the same minute of the day. */
  lemma ClockTextIff(s: nat, t: nat)
    ensures ClockText(s) == ClockText(t) <==> MinuteOfDay(s) == MinuteOfDay(t)
  {
    var a, b := MinuteOfDay(s), MinuteOfDay(t);
    if ClockText(s) == ClockText(t) {
      var x, y := ClockText(s), ClockText(t);
      assert x[..2] == TwoDigits(a / 60) && y[..2] == TwoDigits(b / 60);
      assert x[3..] == TwoDigits(a % 60) && y[3..] == TwoDigits(b % 60);
      TwoDigitsInjective(a / 60, b / 60);
      TwoDigitsInjective(a % 60, b % 60);
      assert a == a / 60 * 60 + a % 60;
      assert b == b / 60 * 60 + b % 60;
    }
  }

  /** The reset condition of one iteration: enabled (default off) and HH:MM equal to the reset time. */
  predicate Fires(t: nat, st: ResetSettings) {
    st.enabled.GetOr(false) && ClockText(t) == st.time.GetOr(DEFAULT_RESET_TIME)
  }

  /** With no reset time configured the reset happens at 03:00, minute 180 of the day. */
  lemma DefaultResetAtThree(t: nat)
    ensures Fires(t, ResetSettings(Some(true), None)) <==> MinuteOfDay(t) == 180
  {
    assert ClockText(10800) == DEFAULT_RESET_TIME;
    ClockTextIff(t, 10800);
  }

  /** Outcome of one iteration: the clock after its sleeps and the IPs restarted. */
  datatype Step = Step(fired: bool, next: nat, restarted: seq<string>)

  function WatcherStep(t: nat, p: Poll): Step {
    if Fires(t, p.settings) then Step(true, t + DEBOUNCE_SECONDS + POLL_SECONDS, Ips(p.miners))
    else Step(false, t + POLL_SECONDS, [])
  }

  /** A run of the watcher: final clock, the clock values at which it reset, and all restarts in order. */
  datatype Trace = Trace(clock: nat, fires: seq<nat>, restarted: seq<string>)

  /** The watcher started at `t0` after one iteration per element of `polls`. */
  function Watch(t0: nat, polls: seq<Poll>): Trace {
    if polls == [] then Trace(t0, [], [])
    else
      var prev := Watch(t0, polls[..|polls| - 1]);
      var p := polls[|polls| - 1];
      var step := WatcherStep(prev.clock, p);
      Trace(step.next,
            prev.fires + (if step.fired then [prev.clock] else []),
            prev.restarted + step.restarted)
  }

  /** One pass of the loop body: check, restart every miner on a match, sleep. */
  method WatcherIteration(clock: nat, p: Poll) returns (fired: bool, next: nat, restarted: seq<string>)
    ensures Step(fired, next, restarted) == WatcherStep(clock, p)
  {
    fired, next, restarted := false, clock, [];
    if p.settings.enabled.GetOr(false) {
      var now := ClockText(clock);
      if now == p.settings.time.GetOr(DEFAULT_RESET_TIME) {
        var k := 0;
        while k < |p.miners|
          invariant 0 <= k <= |p.miners|
          invariant restarted == Ips(p.miners[..k])
        {
          assert p.miners[..k + 1][..k] == p.miners[..k];
          restarted := restarted + [p.miners[k].ip];
          k := k + 1;
        }
        assert p.miners[..k] == p.miners;
        fired, next := true, next + DEBOUNCE_SECONDS;
      }
    }
    next := next + POLL_SECONDS;
  }

  /** The watcher loop, run for one iteration per element of `polls`. */
  method RunWatcher(t0: nat, polls: seq<Poll>) returns (clock: nat, fires: seq<nat>, restarted: seq<string>)
    ensures Trace(clock, fires, restarted) == Watch(t0, polls)
  {
    clock, fires, restarted := t0, [], [];
    var n := 0;
    while n < |polls|
      invariant 0 <= n <= |polls|
      invariant Trace(clock, fires, restarted) == Watch(t0, polls[..n])
    {
      assert polls[..n + 1][..n] == polls[..n];
      var p := polls[n];
      var fired, next, more := WatcherIteration(clock, p);
      if fired {
        fires := fires + [clock];
      }
      clock, restarted := next, restarted + more;
      n := n + 1;
    }
    assert polls[..n] == polls;
  }

  /** Resets are at least 70 seconds apart, and each lies before the final clock. */
  lemma {:induction false} WatchSpacing(t0: nat, polls: seq<Poll>)
    ensures var w := Watch(t0, polls);
            t0 <= w.clock &&
            (forall i :: 0 <= i < |w.fires| ==> t0 <= w.fires[i] && w.fires[i] + 70 <= w.clock) &&
            (forall i, j :: 0 <= i < j < |w.fires| ==> w.fires[i] + 70 <= w.fires[j])
  {
    if polls != [] {
      WatchSpacing(t0, polls[..|polls| - 1]);
    }
  }

  /**
   * Some iteration `k` of the run started at `t0` began at clock `t`, and the
   * reset settings it read fire at `t`.
   */
  ghost predicate FiredBy(t0: nat, polls: seq<Poll>, t: nat) {
    exists k: nat :: k < |polls| && Watch(t0, polls[..k]).clock == t && Fires(t, polls[k].settings)
  }

  /**
   * Every reset was made by an iteration that began at that clock value and
   * whose reset settings matched it.
   */
  lemma {:induction false} WatchFiresMatch(t0: nat, polls: seq<Poll>)
    ensures forall i :: 0 <= i < |Watch(t0, polls).fires| ==> FiredBy(t0, polls, Watch(t0, polls).fires[i])
  {
    if polls != [] {
      var init := polls[..|polls| - 1];
      WatchFiresMatch(t0, init);
      var w, prev := Watch(t0, polls), Watch(t0, init);
      forall i | 0 <= i < |w.fires|
        ensures FiredBy(t0, polls, w.fires[i])
      {
        if i < |prev.fires| {
          assert w.fires[i] == prev.fires[i];
          assert FiredBy(t0, init, prev.fires[i]);
          var k: nat :| k < |init| && Watch(t0, init[..k]).clock == prev.fires[i] && Fires(prev.fires[i], init[k].settings);
          assert polls[k] == init[k];
          assert polls[..k] == init[..k];
        } else {
          var k := |polls| - 1;
          assert polls[..k] == init;
          assert k < |polls| && Watch(t0, polls[..k]).clock == w.fires[i] && Fires(w.fires[i], polls[k].settings);
        }
      }
    }
  }

  /** No minute sees two resets. */
  lemma AtMostOncePerMinute(t0: nat, polls: seq<Poll>)
    ensures var w := Watch(t0, polls);
            forall i, j :: 0 <= i < j < |w.fires| ==> w.fires[i] / 60 < w.fires[j] / 60
  {
    WatchSpacing(t0, polls);
  }

  lemma SameRemainderLater(a: nat, b: nat)
    requires a < b && a % 1440 == b % 1440
    ensures a / 1440 < b / 1440
  {
    assert a == a / 1440 * 1440 + a % 1440;
    assert b == b / 1440 * 1440 + b % 1440;
  }

  /** While the reset settings stay the same, no calendar day sees two resets. */
  lemma AtMostOncePerDay(t0: nat, polls: seq<Poll>, st: ResetSettings)
    requires forall k :: 0 <= k < |polls| ==> polls[k].settings == st
    ensures var w := Watch(t0, polls);
            forall i, j :: 0 <= i < j < |w.fires| ==> DayOf(w.fires[i]) < DayOf(w.fires[j])
  {
    var w := Watch(t0, polls);
    WatchSpacing(t0, polls);
    WatchFiresMatch(t0, polls);
    forall i, j | 0 <= i < j < |w.fires|
      ensures DayOf(w.fires[i]) < DayOf(w.fires[j])
    {
      var a, b := w.fires[i], w.fires[j];
      assert FiredBy(t0, polls, a) && FiredBy(t0, polls, b);
      assert Fires(a, st) && Fires(b, st);
      ClockTextIff(a, b);
      SameRemainderLater(a / 60, b / 60);
    }
  }

  /**
   * Under constant reset settings that fire in minute `m` (counted from the
   * clock's origin), a run started no later than that minute is, after any
   * number of iterations, still before it, inside it, or has reset in it.
   */
  lemma {:induction false} ReachesResetMinute(t0: nat, polls: seq<Poll>, st: ResetSettings, m: nat)
    requires forall k :: 0 <= k < |polls| ==> polls[k].settings == st
    requires Fires(60 * m, st)
    requires t0 <= 60 * m
    ensures var w := Watch(t0, polls);
            w.clock < 60 * m || w.clock / 60 == m ||
            exists i :: 0 <= i < |w.fires| && w.fires[i] / 60 == m
  {
    if polls != [] {
      var init := polls[..|polls| - 1];
      ReachesResetMinute(t0, init, st, m);
      var prev, w := Watch(t0, init), Watch(t0, polls);
      var c := prev.clock;
      assert polls[|polls| - 1].settings == st;
      ClockTextIff(c, 60 * m);
      if exists i :: 0 <= i < |prev.fires| && prev.fires[i] / 60 == m {
        var i :| 0 <= i < |prev.fires| && prev.fires[i] / 60 == m;
        assert w.fires[i] == prev.fires[i];
      } else if c / 60 == m {
        // the minute of day matches, so this iteration resets
        assert w.fires[|prev.fires|] == c;
      } else if Fires(c, st) {
        // an earlier reset in the same minute of the day lies a whole day back
        assert c < 60 * m;
        SameRemainderLater(c / 60, m);
        assert w.clock == c + 70;
      }
    }
  }

  /**
   * The 10 s polling never skips the reset minute: under constant reset
   * settings that fire in minute `m`, a run that starts no later than that
   * minute and goes on past it resets within it. With `AtMostOncePerDay`,
   * such a minute sees exactly one reset.
   */
  lemma AtLeastOnceInResetMinute(t0: nat, polls: seq<Poll>, st: ResetSettings, m: nat)
    requires forall k :: 0 <= k < |polls| ==> polls[k].settings == st
    requires Fires(60 * m, st)
    requires t0 <= 60 * m
    requires Watch(t0, polls).clock >= 60 * (m + 1)
    ensures exists i :: 0 <= i < |Watch(t0, polls).fires| && Watch(t0, polls).fires[i] / 60 == m
  {
    ReachesResetMinute(t0, polls, st, m);
  }

  /** An iteration restarts every configured miner when it fires, and no miner otherwise. */
  lemma StepRestartsAllOrNone(t: nat, p: Poll)
    ensures Fires(t, p.settings) ==> WatcherStep(t, p).restarted == Ips(p.miners)
    ensures !Fires(t, p.settings) ==> WatcherStep(t, p).restarted == []
    ensures !p.settings.enabled.GetOr(false) ==> WatcherStep(t, p).restarted == []
  {
  }
}
