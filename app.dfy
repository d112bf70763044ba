/**
 * The application object: the state the start button, the delete action and
 * the reload of the miner table change in place.
 */
module AutotunerApp {
  import opened MinerRecord
  import opened StartGate
  import opened MinerEdits

  /**
   * The row ids a reload of the miner table gives to `ms`: rows are numbered
   * from `base` in list order, and a repeated IP keeps its last row.
   */
  function RowIds(ms: seq<Miner>, base: nat): (r: map<string, nat>)
    ensures r.Keys == set m | m in ms :: m.ip
    ensures forall ip :: ip in r ==> base <= r[ip] < base + |ms|
  {
    if ms == [] then map[]
    else
      var init := ms[..|ms| - 1];
      assert forall m :: m in ms <==> m in init || m == ms[|ms| - 1];
      RowIds(init, base)[ms[|ms| - 1].ip := base + |ms| - 1]
  }

  /**
   * An IP maps to the row inserted for its last miner in the list: a miner
   * with no later namesake keeps the id given to its own position.
   */
  lemma {:induction false} RowIdsLastRow(ms: seq<Miner>, base: nat, i: nat)
    requires i < |ms|
    requires forall j :: i < j < |ms| ==> ms[j].ip != ms[i].ip
    ensures RowIds(ms, base)[ms[i].ip] == base + i
    decreases |ms|
  {
    if i < |ms| - 1 {
      RowIdsLastRow(ms[..|ms| - 1], base, i);
    }
  }

  /** Loading one more miner adds its row at the end of the numbering. */
  lemma RowIdsStep(ms: seq<Miner>, i: nat, base: nat)
    requires i < |ms|
    ensures RowIds(ms[..i + 1], base) == RowIds(ms[..i], base)[ms[i].ip := base + i]
  {
    assert ms[..i + 1][..i] == ms[..i];
  }

  /** Updating a merged map updates its right-hand part. */
  lemma MergeUpdate<K, V>(a: map<K, V>, b: map<K, V>, k: K, v: V)
    ensures (a + b)[k := v] == a + b[k := v]
  {
  }

  class App {
    /** Whether autotuning is running. */
    var running: bool
    /** The tuning loops (threads) started by the last start. */
    var loops: seq<LoopLaunch>
    /** Daily reset watcher threads started so far; none is ever stopped. */
    var watchers: nat
    /** Row id of each miner IP in the miner table; entries are only removed by a delete. */
    var rowsByIp: map<string, nat>
    /** The id the table gives to the next row it inserts. */
    var nextItem: nat

    /** Every recorded row id was handed out by the table. */
    predicate Valid()
      reads this
    {
      forall ip :: ip in rowsByIp ==> rowsByIp[ip] < nextItem
    }

    /** A new window, not running, whose table is loaded from the configured miners. */
    constructor (ms: seq<Miner>)
      ensures Valid()
      ensures !running && loops == [] && watchers == 0
      ensures rowsByIp == RowIds(ms, 0) && nextItem == |ms|
    {
      running, loops, watchers, rowsByIp, nextItem := false, [], 0, map[], 0;
      new;
      LoadMiners(ms);
    }

    /**
     * `load_miners_from_config`: the table is cleared and gets one new row per
     * miner, but the IP-to-row map is only added to, so an IP no longer
     * configured keeps the id of a row that no longer exists.
     */
    method LoadMiners(ms: seq<Miner>)
      requires Valid()
      modifies this`rowsByIp, this`nextItem
      ensures Valid()
      ensures nextItem == old(nextItem) + |ms|
      ensures rowsByIp == old(rowsByIp) + RowIds(ms, old(nextItem))
    {
      var i := 0;
      while i < |ms|
        invariant 0 <= i <= |ms|
        invariant nextItem == old(nextItem) + i
        invariant rowsByIp == old(rowsByIp) + RowIds(ms[..i], old(nextItem))
        invariant Valid()
      {
        RowIdsStep(ms, i, old(nextItem));
        MergeUpdate(old(rowsByIp), RowIds(ms[..i], old(nextItem)), ms[i].ip, nextItem);
        rowsByIp := rowsByIp[ms[i].ip := nextItem];
        nextItem := nextItem + 1;
        i := i + 1;
      }
      assert ms[..i] == ms;
    }

    /**
     * The edit dialog's Save followed by the reload of the table: a refused
     * edit changes nothing; otherwise the saved list is reloaded, and a renamed
     * IP that no miner has any more keeps its old, removed row.
     */
    method SaveMinerEdit(miners: seq<Miner>, oldIp: string, nicknameText: string, kindText: string, ipText: string)
      returns (r: Result<seq<Miner>, EditError>)
      requires Valid()
      modifies this`rowsByIp, this`nextItem
      ensures Valid()
      ensures r == EditedMiners(miners, oldIp, nicknameText, kindText, ipText)
      ensures r.Failure? ==> rowsByIp == old(rowsByIp) && nextItem == old(nextItem)
      ensures r.Success? ==> nextItem == old(nextItem) + |r.value| &&
                             rowsByIp == old(rowsByIp) + RowIds(r.value, old(nextItem))
      ensures r.Success? && oldIp in old(rowsByIp) && (forall i :: 0 <= i < |r.value| ==> r.value[i].ip != oldIp) ==>
                oldIp in rowsByIp && rowsByIp[oldIp] == old(rowsByIp)[oldIp] < old(nextItem)
    {
      r := SaveMinerSettings(miners, oldIp, nicknameText, kindText, ipText);
      if r.Success? {
        LoadMiners(r.value);
      }
    }

    /**
     * `start_autotuning`: clear the thread list, refuse when an enabled miner
     * lacks a required key or when no miner is enabled, otherwise start one
     * loop per enabled miner in configuration order plus one reset watcher.
     */
    method StartAutotuning(config: Config) returns (outcome: StartOutcome)
      modifies this`running, this`loops, this`watchers
      ensures outcome == PlanStart(config)
      ensures running <==> outcome.Started?
      ensures loops == if outcome.Started? then outcome.loops else []
      ensures watchers == old(watchers) + if outcome.Started? then 1 else 0
    {
      running := true;
      loops := [];
      var missing := CollectMissing(config.miners);
      if missing != [] {
        running := false;
        return Refused(missing);
      }
      var active := ActiveMiners(config.miners);
      if active == [] {
        running := false;
        return NoneEnabled;
      }
      var interval := config.monitorInterval.GetOr(DEFAULT_LOOP_INTERVAL);
      var i := 0;
      while i < |active|
        invariant 0 <= i <= |active|
        invariant running && watchers == old(watchers)
        invariant |loops| == i
        invariant forall j :: 0 <= j < i ==> loops[j] == LaunchFor(active[j], interval)
      {
        loops := loops + [LaunchFor(active[i], interval)];
        i := i + 1;
      }
      assert loops == LaunchAll(active, interval);
      watchers := watchers + 1;
      outcome := Started(loops);
    }

    /**
     * `stop_autotuning` of the window: marks autotuning as stopped. The thread
     * list is left as it is, and the reset watchers keep running.
     */
    method StopAutotuning()
      modifies this`running
      ensures !running
    {
      running := false;
    }

    /**
     * `delete_miner`: with a non-empty selection and a confirmed dialog, every
     * selected IP leaves the row map and every miner with a selected IP leaves
     * the list, which is then saved; otherwise nothing changes and nothing is saved.
     */
    method DeleteMiners(selected: seq<string>, confirmed: bool, miners: seq<Miner>) returns (saved: Option<seq<Miner>>)
      requires Valid()
      modifies this`rowsByIp
      ensures Valid()
      ensures selected == [] || !confirmed ==> saved == None && rowsByIp == old(rowsByIp)
      ensures selected != [] && confirmed ==>
                saved == Some(WithoutIps(miners, set ip | ip in selected)) &&
                rowsByIp == old(rowsByIp) - (set ip | ip in selected)
    {
      if selected == [] || !confirmed {
        return None;
      }
      var ms := miners;
      var i := 0;
      ghost var done: set<string> := {};
      WithoutIpsKeepsUnselected(miners, done);
      while i < |selected|
        invariant 0 <= i <= |selected|
        invariant done == set ip | ip in selected[..i]
        invariant ms == WithoutIps(miners, done)
        invariant rowsByIp == old(rowsByIp) - done
      {
        var ip := selected[i];
        if ip in rowsByIp {
          rowsByIp := rowsByIp - {ip};
        }
        WithoutIpsStep(miners, done, ip);
        ms := WithoutIps(ms, {ip});
        assert selected[..i + 1] == selected[..i] + [ip];
        done := done + {ip};
        i := i + 1;
      }
      assert selected[..i] == selected;
      return Some(ms);
    }
  }
}
