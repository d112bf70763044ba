/**
 * The fleet start gate of `start_autotuning`: every enabled miner must carry
 * the six required tuning keys before any tuning loop is started; otherwise
 * the whole start is refused with the list of (ip, key) pairs that are missing.
 */
module StartGate {
  import opened MinerRecord

  /** The keys a start refuses to do without, in the order they are checked. */
  const RequiredFields: seq<Field> := [MinFreq, MaxFreq, MinVolt, MaxVolt, MaxTemp, MaxWatts]

  /** Fallback loop interval when the configuration has no "monitor_interval". */
  const DEFAULT_LOOP_INTERVAL := 10

  /** A key counts as missing when it is absent, None or the empty string; 0 is present. */
  predicate IsMissing(v: FieldValue) {
    v.Absent? || v.Null? || v == Str("")
  }

  /** One entry of the missing-settings report: (miner ip, key). */
  type Gap = (string, Field)

  /** The keys among `fs` that `m` lacks, in the order of `fs`. */
  function MissingFrom(m: Miner, fs: seq<Field>): seq<Gap>
  {
    if fs == [] then []
    else
      var f := fs[|fs| - 1];
      MissingFrom(m, fs[..|fs| - 1]) + (if IsMissing(m.settings.Get(f)) then [(m.ip, f)] else [])
  }

  /** What one miner adds to the report: nothing when it is disabled. */
  function MinerGaps(m: Miner): seq<Gap> {
    if m.enabled then MissingFrom(m, RequiredFields) else []
  }

  /** The report built by the nested loops, miner by miner in configuration order. */
  function MissingSettings(ms: seq<Miner>): seq<Gap>
  {
    if ms == [] then [] else MissingSettings(ms[..|ms| - 1]) + MinerGaps(ms[|ms| - 1])
  }

  /** The inner loop of `missing_settings`: the required keys one miner lacks. */
  method CollectMinerGaps(m: Miner) returns (gaps: seq<Gap>)
    ensures gaps == MinerGaps(m)
  {
    gaps := [];
    if m.enabled {
      var j := 0;
      while j < |RequiredFields|
        invariant 0 <= j <= |RequiredFields|
        invariant gaps == MissingFrom(m, RequiredFields[..j])
      {
        var f := RequiredFields[j];
        var v := m.settings.Get(f);
        assert RequiredFields[..j + 1][..j] == RequiredFields[..j];
        if v.Absent? || v.Null? || v == Str("") {
          gaps := gaps + [(m.ip, f)];
        }
        j := j + 1;
      }
      assert RequiredFields[..j] == RequiredFields;
    }
  }

  /** The nested loops that build `missing_settings`, miner by miner. */
  method CollectMissing(ms: seq<Miner>) returns (missing: seq<Gap>)
    ensures missing == MissingSettings(ms)
  {
    missing := [];
    var i := 0;
    while i < |ms|
      invariant 0 <= i <= |ms|
      invariant missing == MissingSettings(ms[..i])
    {
      var gaps := CollectMinerGaps(ms[i]);
      assert ms[..i + 1] == ms[..i] + [ms[i]];
      MissingSettingsSnoc(ms[..i], ms[i]);
      missing := missing + gaps;
      i := i + 1;
    }
    assert ms[..i] == ms;
  }

  lemma {:induction false} MissingFromMembership(m: Miner, fs: seq<Field>, ip: string, f: Field)
    ensures (ip, f) in MissingFrom(m, fs) <==> ip == m.ip && f in fs && IsMissing(m.settings.Get(f))
  {
    if fs != [] {
      var init := fs[..|fs| - 1];
      MissingFromMembership(m, init, ip, f);
      assert fs == init + [fs[|fs| - 1]];
    }
  }

  /**
   * The report holds (ip, f) exactly when some enabled miner with that IP lacks
   * the required key f: disabled miners and optional keys never appear.
   */
  lemma {:induction false} MissingSettingsMembership(ms: seq<Miner>, ip: string, f: Field)
    ensures (ip, f) in MissingSettings(ms) <==>
            exists i :: 0 <= i < |ms| && ms[i].enabled && ms[i].ip == ip &&
                        f in RequiredFields && IsMissing(ms[i].settings.Get(f))
  {
    if ms != [] {
      var init := ms[..|ms| - 1];
      var last := ms[|ms| - 1];
      MissingSettingsMembership(init, ip, f);
      MissingFromMembership(last, RequiredFields, ip, f);
      if (ip, f) in MissingSettings(ms) {
        if (ip, f) in MissingSettings(init) {
          var i :| 0 <= i < |init| && init[i].enabled && init[i].ip == ip &&
                   f in RequiredFields && IsMissing(init[i].settings.Get(f));
          assert ms[i] == init[i];
        } else {
          assert ms[|ms| - 1] == last;
        }
      } else {
        forall i | 0 <= i < |ms| && ms[i].enabled && ms[i].ip == ip && f in RequiredFields
          ensures !IsMissing(ms[i].settings.Get(f))
        {
          if i < |init| { assert ms[i] == init[i]; }
        }
      }
    }
  }

  /** Only start_freq, start_volt and max_vr_temp are optional: they never block a start. */
  lemma OptionalFieldsNeverBlock(ms: seq<Miner>, ip: string)
    ensures (ip, StartFreq) !in MissingSettings(ms)
    ensures (ip, StartVolt) !in MissingSettings(ms)
    ensures (ip, MaxVrTemp) !in MissingSettings(ms)
  {
    MissingSettingsMembership(ms, ip, StartFreq);
    MissingSettingsMembership(ms, ip, StartVolt);
    MissingSettingsMembership(ms, ip, MaxVrTemp);
  }

  /** Appending one miner appends its gaps to the report. */
  lemma MissingSettingsSnoc(ms: seq<Miner>, m: Miner)
    ensures MissingSettings(ms + [m]) == MissingSettings(ms) + MinerGaps(m)
  {
    var s := ms + [m];
    assert s[..|s| - 1] == ms;
  }

  /** The report of a concatenation is the concatenation of the reports: entries follow configuration order. */
  lemma {:induction false} MissingSettingsConcat(a: seq<Miner>, b: seq<Miner>)
    ensures MissingSettings(a + b) == MissingSettings(a) + MissingSettings(b)
  {
    if b == [] {
      assert a + b == a;
    } else {
      var init, last := b[..|b| - 1], b[|b| - 1];
      assert b == init + [last];
      assert a + b == (a + init) + [last];
      MissingSettingsConcat(a, init);
      MissingSettingsSnoc(a + init, last);
      MissingSettingsSnoc(init, last);
    }
  }

  /** Removing a disabled miner from the configuration leaves the report unchanged. */
  lemma DisabledMinerNeverReported(pre: seq<Miner>, m: Miner, post: seq<Miner>)
    requires !m.enabled
    ensures MissingSettings(pre + [m] + post) == MissingSettings(pre + post)
  {
    assert MissingSettings([m]) == [] by {
      assert [m][..0] == [];
    }
    MissingSettingsConcat(pre + [m], post);
    MissingSettingsConcat(pre, [m]);
    MissingSettingsConcat(pre, post);
  }

  /** Position of a required key in the order the keys are checked. */
  function Rank(f: Field): nat {
    match f
    case MinFreq => 0
    case MaxFreq => 1
    case MinVolt => 2
    case MaxVolt => 3
    case MaxTemp => 4
    case MaxWatts => 5
    case _ => 6
  }

  /** The keys of `r` are listed in strictly increasing rank, each below `k`. */
  ghost predicate RankedBelow(r: seq<Gap>, k: nat) {
    (forall i :: 0 <= i < |r| ==> Rank(r[i].1) < k) &&
    (forall i, j :: 0 <= i < j < |r| ==> Rank(r[i].1) < Rank(r[j].1))
  }

  lemma {:induction false} MissingFromOrdered(m: Miner, k: nat)
    requires k <= |RequiredFields|
    ensures RankedBelow(MissingFrom(m, RequiredFields[..k]), k)
  {
    if k > 0 {
      MissingFromOrdered(m, k - 1);
      var prev := MissingFrom(m, RequiredFields[..k - 1]);
      assert RequiredFields[..k][..k - 1] == RequiredFields[..k - 1];
      var f := RequiredFields[k - 1];
      assert Rank(f) == k - 1;
      var r := MissingFrom(m, RequiredFields[..k]);
      assert r == prev + (if IsMissing(m.settings.Get(f)) then [(m.ip, f)] else []);
    }
  }

  /** Within one miner, the missing keys are reported in the order the keys are checked. */
  lemma MinerGapsOrdered(m: Miner)
    ensures forall i, j :: 0 <= i < j < |MinerGaps(m)| ==> Rank(MinerGaps(m)[i].1) < Rank(MinerGaps(m)[j].1)
  {
    if m.enabled {
      MissingFromOrdered(m, |RequiredFields|);
      assert RequiredFields[..|RequiredFields|] == RequiredFields;
    }
  }

  /** The report depends only on each miner's IP, enable flag and required keys. */
  lemma {:induction false} OnlyRequiredFieldsMatter(ms: seq<Miner>, ns: seq<Miner>)
    requires |ms| == |ns|
    requires forall i :: 0 <= i < |ms| ==> ms[i].ip == ns[i].ip && ms[i].enabled == ns[i].enabled
    requires forall i, f :: 0 <= i < |ms| && f in RequiredFields ==> ms[i].settings.Get(f) == ns[i].settings.Get(f)
    ensures MissingSettings(ms) == MissingSettings(ns)
  {
    if ms != [] {
      OnlyRequiredFieldsMatter(ms[..|ms| - 1], ns[..|ns| - 1]);
      var m, n := ms[|ms| - 1], ns[|ns| - 1];
      forall k | 0 <= k <= |RequiredFields|
        ensures MissingFrom(m, RequiredFields[..k]) == MissingFrom(n, RequiredFields[..k])
      {
        MissingFromAgree(m, n, k);
      }
      assert RequiredFields[..|RequiredFields|] == RequiredFields;
    }
  }

  lemma {:induction false} MissingFromAgree(m: Miner, n: Miner, k: nat)
    requires k <= |RequiredFields|
    requires m.ip == n.ip
    requires forall f :: f in RequiredFields ==> m.settings.Get(f) == n.settings.Get(f)
    ensures MissingFrom(m, RequiredFields[..k]) == MissingFrom(n, RequiredFields[..k])
  {
    if k > 0 {
      MissingFromAgree(m, n, k - 1);
      assert RequiredFields[..k][..k - 1] == RequiredFields[..k - 1];
    }
  }

  /** The enabled miners, in configuration order: the `active_miners` comprehension. */
  function ActiveMiners(ms: seq<Miner>): seq<Miner>
  {
    if ms == [] then []
    else ActiveMiners(ms[..|ms| - 1]) + (if ms[|ms| - 1].enabled then [ms[|ms| - 1]] else [])
  }

  lemma {:induction false} ActiveMinersMembership(ms: seq<Miner>, m: Miner)
    ensures m in ActiveMiners(ms) <==> m in ms && m.enabled
  {
    if ms != [] {
      ActiveMinersMembership(ms[..|ms| - 1], m);
      assert ms == ms[..|ms| - 1] + [ms[|ms| - 1]];
    }
  }

  /** Appending one miner appends it to the active miners when it is enabled. */
  lemma ActiveMinersSnoc(ms: seq<Miner>, m: Miner)
    ensures ActiveMiners(ms + [m]) == ActiveMiners(ms) + (if m.enabled then [m] else [])
  {
    var s := ms + [m];
    assert s[..|s| - 1] == ms;
  }

  lemma {:induction false} ActiveMinersConcat(a: seq<Miner>, b: seq<Miner>)
    ensures ActiveMiners(a + b) == ActiveMiners(a) + ActiveMiners(b)
  {
    if b == [] {
      assert a + b == a;
    } else {
      var init, last := b[..|b| - 1], b[|b| - 1];
      assert b == init + [last];
      assert a + b == (a + init) + [last];
      ActiveMinersConcat(a, init);
      ActiveMinersSnoc(a + init, last);
      ActiveMinersSnoc(init, last);
    }
  }


  /** Arguments handed to one tuning loop (the thread target `monitor_and_adjust`). */
  datatype LoopLaunch = LoopLaunch(ip: string, kind: string, interval: int, settings: Fields<FieldValue>)

  function OrElse(v: FieldValue, fallback: FieldValue): FieldValue {
    if v.Absent? then fallback else v
  }

  /**
   * The loop arguments for one miner: `miner.get(key, 0)` for the six required
   * keys and max_vr_temp, `miner.get(key, "")` for start_freq and start_volt.
   */
  function LaunchFor(m: Miner, interval: int): LoopLaunch {
    var s := m.settings;
    LoopLaunch(m.ip, m.kind, interval,
      Fields(OrElse(s.minFreq, Int(0)), OrElse(s.maxFreq, Int(0)), OrElse(s.startFreq, Str("")),
             OrElse(s.minVolt, Int(0)), OrElse(s.maxVolt, Int(0)), OrElse(s.startVolt, Str("")),
             OrElse(s.maxTemp, Int(0)), OrElse(s.maxWatts, Int(0)), OrElse(s.maxVrTemp, Int(0))))
  }

  /** The part of the configuration file a start reads. */
  datatype Config = Config(miners: seq<Miner>, monitorInterval: Option<int>)

  /** What a press of "Start" leads to. */
  datatype StartOutcome =
    | Refused(missing: seq<Gap>)          // incomplete settings: nothing started
    | NoneEnabled                         // no miner enabled: nothing started
    | Started(loops: seq<LoopLaunch>)     // one loop per enabled miner

  function LaunchAll(active: seq<Miner>, interval: int): (r: seq<LoopLaunch>)
    ensures |r| == |active|
    ensures forall i :: 0 <= i < |active| ==> r[i] == LaunchFor(active[i], interval)
  {
    seq(|active|, i requires 0 <= i < |active| => LaunchFor(active[i], interval))
  }

  /** The decision `start_autotuning` takes for a configuration. */
  function PlanStart(c: Config): StartOutcome {
    var missing := MissingSettings(c.miners);
    var active := ActiveMiners(c.miners);
    if missing != [] then Refused(missing)
    else if active == [] then NoneEnabled
    else Started(LaunchAll(active, c.monitorInterval.GetOr(DEFAULT_LOOP_INTERVAL)))
  }

  /** A start is refused exactly when some enabled miner lacks a required key. */
  lemma StartRefusedIff(c: Config)
    ensures PlanStart(c).Refused? <==>
            exists i, f :: 0 <= i < |c.miners| && c.miners[i].enabled &&
                           f in RequiredFields && IsMissing(c.miners[i].settings.Get(f))
  {
    var ms := c.miners;
    if PlanStart(c).Refused? {
      var g := MissingSettings(ms)[0];
      MissingSettingsMembership(ms, g.0, g.1);
    } else {
      assert MissingSettings(ms) == [];
      forall i, f | 0 <= i < |ms| && ms[i].enabled && f in RequiredFields
        ensures !IsMissing(ms[i].settings.Get(f))
      {
        MissingSettingsMembership(ms, ms[i].ip, f);
      }
    }
  }

  /** With no miner enabled, nothing is started and nothing is reported missing. */
  lemma {:induction false} NoEnabledMinerStartsNothing(c: Config)
    requires forall i :: 0 <= i < |c.miners| ==> !c.miners[i].enabled
    ensures PlanStart(c) == NoneEnabled
  {
    var ms := c.miners;
    if MissingSettings(ms) != [] {
      var g := MissingSettings(ms)[0];
      MissingSettingsMembership(ms, g.0, g.1);
    }
    if ActiveMiners(ms) != [] {
      ActiveMinersMembership(ms, ActiveMiners(ms)[0]);
    }
  }

  /**
   * A successful start launches exactly one loop per enabled miner, in
   * configuration order, and each loop receives the miner's own required values
   * (the fallback 0 of `miner.get` is never used for them).
   */
  lemma StartedLaunchesEnabledMiners(c: Config)
    requires PlanStart(c).Started?
    ensures var loops := PlanStart(c).loops;
            var active := ActiveMiners(c.miners);
            |loops| == |active| > 0 &&
            (forall j :: 0 <= j < |loops| ==> loops[j].ip == active[j].ip && loops[j].kind == active[j].kind) &&
            (forall j, f :: 0 <= j < |loops| && f in RequiredFields ==>
                loops[j].settings.Get(f) == active[j].settings.Get(f) && !IsMissing(loops[j].settings.Get(f)))
  {
    var ms := c.miners;
    var active := ActiveMiners(ms);
    var loops := PlanStart(c).loops;
    forall j, f | 0 <= j < |loops| && f in RequiredFields
      ensures loops[j].settings.Get(f) == active[j].settings.Get(f) && !IsMissing(loops[j].settings.Get(f))
    {
      ActiveMinersMembership(ms, active[j]);
      var i :| 0 <= i < |ms| && ms[i] == active[j];
      MissingSettingsMembership(ms, ms[i].ip, f);
    }
  }
}
