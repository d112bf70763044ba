/**
 * Edits of the "miners" list made from the main window: removing the miners of
 * the selected rows, renaming one miner, and rebuilding the list from the table
 * rows ("Save Settings").
 */
module MinerEdits {
  import opened MinerRecord

  // ---------------------------------------------------------------- delete

  /** The list without the miners whose IP is in `ips`, order kept. */
  function WithoutIps(ms: seq<Miner>, ips: set<string>): seq<Miner>
  {
    if ms == [] then []
    else WithoutIps(ms[..|ms| - 1], ips) + (if ms[|ms| - 1].ip in ips then [] else [ms[|ms| - 1]])
  }

  /** A miner survives the deletion exactly when it was listed and its IP was not selected. */
  lemma {:induction false} WithoutIpsMembership(ms: seq<Miner>, ips: set<string>, m: Miner)
    ensures m in WithoutIps(ms, ips) <==> m in ms && m.ip !in ips
  {
    if ms != [] {
      WithoutIpsMembership(ms[..|ms| - 1], ips, m);
      assert ms == ms[..|ms| - 1] + [ms[|ms| - 1]];
    }
  }

  /** Deletion distributes over concatenation: survivors keep their relative order. */
  lemma {:induction false} WithoutIpsConcat(a: seq<Miner>, b: seq<Miner>, ips: set<string>)
    ensures WithoutIps(a + b, ips) == WithoutIps(a, ips) + WithoutIps(b, ips)
  {
    if b == [] {
      assert a + b == a;
    } else {
      var init, last := b[..|b| - 1], b[|b| - 1];
      WithoutIpsConcat(a, init, ips);
      var ab := a + b;
      assert ab[..|ab| - 1] == a + init;
      assert ab[|ab| - 1] == last;
    }
  }

  /** A list none of whose IPs is selected is kept as it is. */
  lemma {:induction false} WithoutIpsKeepsUnselected(ms: seq<Miner>, ips: set<string>)
    requires forall i :: 0 <= i < |ms| ==> ms[i].ip !in ips
    ensures WithoutIps(ms, ips) == ms
  {
    if ms != [] {
      WithoutIpsKeepsUnselected(ms[..|ms| - 1], ips);
    }
  }

  /** Filtering one selected IP after another is filtering all of them at once. */
  lemma {:induction false} WithoutIpsStep(ms: seq<Miner>, ips: set<string>, ip: string)
    ensures WithoutIps(WithoutIps(ms, ips), {ip}) == WithoutIps(ms, ips + {ip})
  {
    if ms != [] {
      var init, last := ms[..|ms| - 1], ms[|ms| - 1];
      WithoutIpsStep(init, ips, ip);
      var tail := if last.ip in ips then [] else [last];
      WithoutIpsConcat(WithoutIps(init, ips), tail, {ip});
      if tail != [] {
        assert tail[..0] == [];
      }
    }
  }

  // ---------------------------------------------------------------- strip

  /**
   * The characters `str.strip()` removes, restricted to ASCII: space, tab,
   * line feed, vertical tab, form feed, carriage return and the four
   * separators 0x1C-0x1F.
   */
  predicate IsSpace(c: char) {
    c == ' ' || c == '\t' || c == '\n' || c == '\r' || c == '\U{B}' || c == '\U{C}' ||
    ('\U{1C}' <= c <= '\U{1F}')
  }

  /** Number of whitespace characters `s` starts with. */
  function LeadingSpaces(s: string): (n: nat)
    ensures n <= |s|
    ensures forall k :: 0 <= k < n ==> IsSpace(s[k])
    ensures n < |s| ==> !IsSpace(s[n])
  {
    if s != [] && IsSpace(s[0]) then 1 + LeadingSpaces(s[1..]) else 0
  }

  /** Number of whitespace characters `s` ends with. */
  function TrailingSpaces(s: string): (n: nat)
    ensures n <= |s|
    ensures forall k :: |s| - n <= k < |s| ==> IsSpace(s[k])
    ensures n < |s| ==> !IsSpace(s[|s| - n - 1])
  {
    if s != [] && IsSpace(s[|s| - 1]) then 1 + TrailingSpaces(s[..|s| - 1]) else 0
  }

  /** `str.strip()`: the text between the leading and the trailing whitespace. */
  function Strip(s: string): (r: string)
    ensures exists i, j :: 0 <= i <= j <= |s| && r == s[i..j] &&
                           (forall k :: 0 <= k < i ==> IsSpace(s[k])) &&
                           (forall k :: j <= k < |s| ==> IsSpace(s[k]))
    ensures r != [] ==> !IsSpace(r[0]) && !IsSpace(r[|r| - 1])
    ensures r == [] <==> forall k :: 0 <= k < |s| ==> IsSpace(s[k])
  {
    var i := LeadingSpaces(s);
    var rest := s[i..];
    var j := i + |rest| - TrailingSpaces(rest);
    assert forall k :: j <= k < |s| ==> s[k] == rest[k - i];
    s[i..j]
  }

  // ---------------------------------------------------------------- edit

  datatype EditError = IpRequired

  /** A miner with a new nickname, type and IP; its tuning keys and enable flag untouched. */
  function Renamed(m: Miner, nickname: string, kind: string, ip: string): Miner {
    m.(nickname := Some(nickname), kind := kind, ip := ip)
  }

  /**
   * What the edit dialog's Save produces: the list with the first miner whose
   * IP is `oldIp` renamed, or the refusal of an IP that strips to empty.
   */
  function EditedMiners(miners: seq<Miner>, oldIp: string, nicknameText: string, kindText: string, ipText: string)
    : Result<seq<Miner>, EditError>
  {
    var ip := Strip(ipText);
    if ip == [] then Failure(IpRequired)
    else
      var k := FirstMatch(miners, oldIp);
      Success(if k < |miners| then miners[k := Renamed(miners[k], Strip(nicknameText), Strip(kindText), ip)] else miners)
  }

  /**
   * The "Save" button of the edit dialog: the three texts are stripped, an
   * empty IP is refused with the configuration untouched, and otherwise the
   * first miner whose IP is `oldIp` (if any) is renamed.
   */
  method SaveMinerSettings(miners: seq<Miner>, oldIp: string, nicknameText: string, kindText: string, ipText: string)
    returns (r: Result<seq<Miner>, EditError>)
    ensures r == EditedMiners(miners, oldIp, nicknameText, kindText, ipText)
    ensures Strip(ipText) == [] ==> r == Failure(IpRequired)
    ensures Strip(ipText) != [] ==> r.Success? && |r.value| == |miners|
    ensures Strip(ipText) != [] ==>
              var k := FirstMatch(miners, oldIp);
              forall j :: 0 <= j < |miners| ==>
                r.value[j] == if j == k then Renamed(miners[j], Strip(nicknameText), Strip(kindText), Strip(ipText))
                              else miners[j]
  {
    var nickname, kind, ip := Strip(nicknameText), Strip(kindText), Strip(ipText);
    if ip == [] {
      return Failure(IpRequired);
    }
    var ms := miners;
    var i := 0;
    while i < |ms|
      invariant 0 <= i <= |ms|
      invariant ms == miners
      invariant forall j :: 0 <= j < i ==> miners[j].ip != oldIp
    {
      if ms[i].ip == oldIp {
        ms := ms[i := Renamed(ms[i], nickname, kind, ip)];
        break;
      }
      i := i + 1;
    }
    FirstMatchIsLeast(miners, oldIp, i);
    return Success(ms);
  }

  // ---------------------------------------------------------------- save settings

  /** The three text columns of one row of the miner table. */
  datatype TableRow = TableRow(nickname: string, kind: string, ip: string)

  /** `defaults.get(key, "")`: a missing key is saved as the empty string. */
  function OrEmpty(v: FieldValue): FieldValue {
    if v.Absent? then Str("") else v
  }

  /**
   * The enable flag "Save Settings" keeps for `ip`: that of the first existing
   * miner with this IP, false when there is none.
   */
  function EnabledOf(existing: seq<Miner>, ip: string): (e: bool)
    ensures (forall k :: 0 <= k < |existing| ==> existing[k].ip != ip) ==> !e
    ensures forall k :: (0 <= k < |existing| && existing[k].ip == ip &&
                         forall j :: 0 <= j < k ==> existing[j].ip != ip) ==> (e <==> existing[k].enabled)
  {
    var k := FirstMatch(existing, ip);
    k < |existing| && existing[k].enabled
  }

  /** The record "Save Settings" writes for one table row. */
  function SavedRecord(row: TableRow, defaults: Fields<FieldValue>, existing: seq<Miner>): Miner {
    Miner(Some(row.nickname), row.kind, row.ip, MapFields(defaults, OrEmpty), EnabledOf(existing, row.ip))
  }

  /**
   * `save_settings`: one record per table row, in row order; `defaults[i]`
   * is what the configuration store returns for the IP of row i.
   */
  method SaveSettings(rows: seq<TableRow>, defaults: seq<Fields<FieldValue>>, existing: seq<Miner>)
    returns (updated: seq<Miner>)
    requires |defaults| == |rows|
    ensures |updated| == |rows|
    ensures forall i :: 0 <= i < |rows| ==> updated[i] == SavedRecord(rows[i], defaults[i], existing)
  {
    updated := [];
    var i := 0;
    while i < |rows|
      invariant 0 <= i <= |rows|
      invariant |updated| == i
      invariant forall j :: 0 <= j < i ==> updated[j] == SavedRecord(rows[j], defaults[j], existing)
    {
      var row := rows[i];
      var k := 0;
      var enabled := false;
      while k < |existing|
        invariant 0 <= k <= |existing|
        invariant forall j :: 0 <= j < k ==> existing[j].ip != row.ip
      {
        if existing[k].ip == row.ip {
          enabled := existing[k].enabled;
          break;
        }
        k := k + 1;
      }
      FirstMatchIsLeast(existing, row.ip, k);
      updated := updated + [Miner(Some(row.nickname), row.kind, row.ip, MapFields(defaults[i], OrEmpty), enabled)];
      i := i + 1;
    }
  }

  /** Every record written by "Save Settings" has all nine tuning keys. */
  lemma SavedRecordHasAllKeys(row: TableRow, defaults: Fields<FieldValue>, existing: seq<Miner>, f: Field)
    ensures !SavedRecord(row, defaults, existing).settings.Get(f).Absent?
    ensures defaults.Get(f).Absent? ==> SavedRecord(row, defaults, existing).settings.Get(f) == Str("")
    ensures !defaults.Get(f).Absent? ==> SavedRecord(row, defaults, existing).settings.Get(f) == defaults.Get(f)
  {
  }

  /** The nickname the table shows: the stored one, or "Miner-<ip>" when the record has none. */
  function ShownNickname(m: Miner): string {
    m.nickname.GetOr("Miner-" + m.ip)
  }

  /** The miner table as loaded from a miner list. */
  function TableOf(ms: seq<Miner>): (rows: seq<TableRow>)
    ensures |rows| == |ms|
    ensures forall i :: 0 <= i < |ms| ==> rows[i] == TableRow(ShownNickname(ms[i]), ms[i].kind, ms[i].ip)
  {
    seq(|ms|, i requires 0 <= i < |ms| => TableRow(ShownNickname(ms[i]), ms[i].kind, ms[i].ip))
  }

  /**
   * Saving a table loaded from a list with distinct IPs keeps every miner's
   * type, IP and enable flag, and its nickname; a record without one gets the
   * "Miner-<ip>" the table showed for it.
   */
  lemma {:induction false} SaveSettingsKeepsEnabled(existing: seq<Miner>, defaults: seq<Fields<FieldValue>>, i: nat)
    requires |defaults| == |existing|
    requires forall a, b :: 0 <= a < b < |existing| ==> existing[a].ip != existing[b].ip
    requires i < |existing|
    ensures var rec := SavedRecord(TableOf(existing)[i], defaults[i], existing);
            rec.ip == existing[i].ip &&
            (existing[i].nickname.Some? ==> rec.nickname == existing[i].nickname) &&
            (existing[i].nickname.None? ==> rec.nickname == Some("Miner-" + existing[i].ip)) &&
            rec.kind == existing[i].kind && rec.enabled == existing[i].enabled
  {
    FirstMatchIsLeast(existing, existing[i].ip, i);
  }
}
