/**
 * The per-miner tuning grid of the "AutoTuner Settings" window: one row of
 * nine text entries and an enable checkbox per miner. Rows with an empty entry
 * have their checkbox forced off; saving turns each all-digit text into an
 * integer and every other text into the empty string.
 */
module TuningGrid {
  import opened MinerRecord
  import opened StartGate

  // ---------------------------------------------------------------- text <-> int

  /** `str.isdigit()` on ASCII text: non-empty and nothing but digits. */
  predicate IsDigits(t: string) {
    |t| > 0 && forall i :: 0 <= i < |t| ==> IsDigit(t[i])
  }

  /** `int(t)` for a text of digits. */
  function DigitsValue(t: string): nat
    requires forall i :: 0 <= i < |t| ==> IsDigit(t[i])
  {
    if t == [] then 0
    else
      assert IsDigit(t[|t| - 1]);
      DigitsValue(t[..|t| - 1]) * 10 + (t[|t| - 1] as int - '0' as int)
  }

  /** `str(n)` for a non-negative integer: a digit text that `int` reads back as `n`. */
  function DecimalText(n: nat): (t: string)
    ensures IsDigits(t)
    ensures DigitsValue(t) == n
  {
    if n < 10 then [DigitChar(n)]
    else
      var t := DecimalText(n / 10) + [DigitChar(n % 10)];
      assert t[..|t| - 1] == DecimalText(n / 10);
      t
  }

  /** `str(n)` for any integer. */
  function IntText(n: int): string {
    if n < 0 then "-" + DecimalText(-n) else DecimalText(n)
  }

  /**
   * The text an entry shows when the grid opens: `miner.get(key, "")` handed
   * to `Entry.insert`, which writes an integer in decimal and a string as it
   * is. None is refused: Tk drops a None argument, so the insert is issued
   * without its text and raises.
   */
  function GridText(v: FieldValue): (r: Option<string>)
    ensures r.None? <==> v.Null?
  {
    match v
    case Absent => Some("")
    case Null => None
    case Str(s) => Some(s)
    case Int(n) => Some(IntText(n))
  }

  /** `int(t) if t.isdigit() else ""`: what saving stores for one entry. */
  function ParseGridText(t: string): (v: FieldValue)
    ensures !v.Null? && !v.Absent?
  {
    if IsDigits(t) then Int(DigitsValue(t)) else Str("")
  }

  /**
   * Showing a value in an entry and saving it without edits: None cannot be
   * shown, non-negative integers come back unchanged, and anything else that
   * is not a digit string becomes "".
   */
  lemma GridTextRoundTrip(v: FieldValue)
    ensures v.Null? ==> GridText(v) == None
    ensures !v.Null? ==> GridText(v).Some?
    ensures v.Int? && v.n >= 0 ==> ParseGridText(GridText(v).value) == v
    ensures v.Int? && v.n < 0 ==> ParseGridText(GridText(v).value) == Str("")
    ensures v.Absent? ==> ParseGridText(GridText(v).value) == Str("")
    ensures v.Str? ==> ParseGridText(GridText(v).value) == ParseGridText(v.s)
  {
    if v.Int? && v.n < 0 {
      assert GridText(v).value[0] == '-';
    }
  }

  /** A saved value can be shown again, and saving it again leaves it as it was. */
  lemma ParseStable(t: string)
    ensures GridText(ParseGridText(t)).Some?
    ensures ParseGridText(GridText(ParseGridText(t)).value) == ParseGridText(t)
  {
    GridTextRoundTrip(ParseGridText(t));
  }

  // ---------------------------------------------------------------- rows

  /** One grid row: the nine entry texts and the enable checkbox. */
  datatype GridRow = GridRow(texts: Fields<string>, checked: bool)

  /** Some entry of the row is empty. */
  predicate HasEmpty(texts: Fields<string>) {
    texts.minFreq == "" || texts.maxFreq == "" || texts.startFreq == "" ||
    texts.minVolt == "" || texts.maxVolt == "" || texts.startVolt == "" ||
    texts.maxTemp == "" || texts.maxWatts == "" || texts.maxVrTemp == ""
  }

  lemma HasEmptyIff(texts: Fields<string>)
    ensures HasEmpty(texts) <==> exists f :: texts.Get(f) == ""
  {
    if HasEmpty(texts) {
      if texts.minFreq == "" { assert texts.Get(MinFreq) == ""; }
      else if texts.maxFreq == "" { assert texts.Get(MaxFreq) == ""; }
      else if texts.startFreq == "" { assert texts.Get(StartFreq) == ""; }
      else if texts.minVolt == "" { assert texts.Get(MinVolt) == ""; }
      else if texts.maxVolt == "" { assert texts.Get(MaxVolt) == ""; }
      else if texts.startVolt == "" { assert texts.Get(StartVolt) == ""; }
      else if texts.maxTemp == "" { assert texts.Get(MaxTemp) == ""; }
      else if texts.maxWatts == "" { assert texts.Get(MaxWatts) == ""; }
      else { assert texts.Get(MaxVrTemp) == ""; }
    }
  }

  /** `validate_miner_settings`: a row with an empty entry gets its checkbox cleared. */
  function ValidateRow(row: GridRow): GridRow {
    if HasEmpty(row.texts) then row.(checked := false) else row
  }

  /** The grid has a column for every key. */
  lemma GridFieldsComplete()
    ensures forall f :: f in GridFields
  {
    forall f ensures f in GridFields {
      assert f == GridFields[0] || f == GridFields[1] || f == GridFields[2] || f == GridFields[3] ||
             f == GridFields[4] || f == GridFields[5] || f == GridFields[6] || f == GridFields[7] ||
             f == GridFields[8];
    }
  }

  /** Some key of `fs` holds None. */
  predicate HoldsNone(fs: Fields<FieldValue>) {
    exists f :: f in GridFields && fs.Get(f).Null?
  }

  /** Why the grid cannot be used. */
  datatype OpenError = NoMiners | NoNickname(ip: string) | NoneEntry(ip: string)

  /**
   * The row shown for a miner when the window opens: its label names the
   * miner, every entry shows its key's text, the checkbox starts from
   * "enabled", and the row is validated. The label reads "nickname" without a
   * default, so a record without one raises before any entry exists; a key
   * holding None raises at its insert. Either ends the opening.
   */
  function OpenRow(m: Miner): (r: Result<GridRow, OpenError>)
    ensures r.Failure? <==> m.nickname.None? || exists f :: m.settings.Get(f).Null?
    ensures m.nickname.None? ==> r == Failure(NoNickname(m.ip))
    ensures m.nickname.Some? && r.Failure? ==> r == Failure(NoneEntry(m.ip))
    ensures r.Success? ==> forall f :: GridText(m.settings.Get(f)) == Some(r.value.texts.Get(f))
    ensures r.Success? ==> (r.value.checked <==> m.enabled && !HasEmpty(r.value.texts))
  {
    if m.nickname.None? then Failure(NoNickname(m.ip))
    else if HoldsNone(m.settings) then Failure(NoneEntry(m.ip))
    else
      var texts := MapFields(MapFields(m.settings, GridText), (o: Option<string>) => o.GetOr(""));
      GridFieldsComplete();
      Success(ValidateRow(GridRow(texts, m.enabled)))
  }

  /** The rows built miner by miner; the first miner whose row fails ends the opening. */
  function OpenRows(ms: seq<Miner>): (r: Result<seq<GridRow>, OpenError>)
    ensures r.Success? <==> forall i :: 0 <= i < |ms| ==> OpenRow(ms[i]).Success?
    ensures r.Success? ==> |r.value| == |ms| && forall i :: 0 <= i < |ms| ==> OpenRow(ms[i]) == Success(r.value[i])
    ensures r.Failure? ==> exists i :: 0 <= i < |ms| && OpenRow(ms[i]) == Failure(r.error) &&
                                       forall j :: 0 <= j < i ==> OpenRow(ms[j]).Success?
  {
    if ms == [] then Success([])
    else
      match OpenRow(ms[0])
      case Failure(e) => Failure(e)
      case Success(row) =>
        var rest := OpenRows(ms[1..]);
        if rest.Failure? then
          assert forall i :: 0 <= i < |ms| - 1 ==> ms[1..][i] == ms[i + 1];
          rest
        else
          Success([row] + rest.value)
  }

  /**
   * `open_autotuner_settings`: with no miner configured only a warning is
   * shown; otherwise the window gets one row per miner, and its Save button,
   * created after the last row, exists only when every miner has a nickname
   * and none holds a None.
   */
  function OpenGrid(ms: seq<Miner>): (r: Result<seq<GridRow>, OpenError>)
    ensures ms == [] ==> r == Failure(NoMiners)
    ensures r.Success? <==> ms != [] && (forall i :: 0 <= i < |ms| ==> ms[i].nickname.Some?) &&
                            forall i, f :: 0 <= i < |ms| ==> !ms[i].settings.Get(f).Null?
    ensures r.Success? ==> |r.value| == |ms| && forall i :: 0 <= i < |ms| ==> OpenRow(ms[i]) == Success(r.value[i])
  {
    if ms == [] then Failure(NoMiners) else OpenRows(ms)
  }

  /** What saving writes into one miner: nine coerced values and the checkbox. */
  function SavedMiner(m: Miner, row: GridRow): Miner {
    m.(settings := MapFields(row.texts, ParseGridText), enabled := row.checked)
  }

  function SavedMiners(miners: seq<Miner>, rows: seq<GridRow>): (r: seq<Miner>)
    requires |rows| == |miners|
    ensures |r| == |miners|
    ensures forall i :: 0 <= i < |miners| ==> r[i] == SavedMiner(miners[i], rows[i])
  {
    seq(|miners|, i requires 0 <= i < |miners| => SavedMiner(miners[i], rows[i]))
  }

  /**
   * `save_autotuner_settings`: for every miner, in place, each key gets the
   * coerced text of its entry and "enabled" gets the checkbox. The window
   * builds one row per miner of the same list, hence `|rows| == |miners|`.
   */
  method SaveAutotunerSettings(miners: seq<Miner>, rows: seq<GridRow>) returns (saved: seq<Miner>)
    requires |rows| == |miners|
    ensures saved == SavedMiners(miners, rows)
  {
    saved := miners;
    var i := 0;
    while i < |saved|
      invariant 0 <= i <= |saved| == |miners|
      invariant forall k :: 0 <= k < i ==> saved[k] == SavedMiner(miners[k], rows[k])
      invariant forall k :: i <= k < |saved| ==> saved[k] == miners[k]
    {
      var settings := saved[i].settings;
      var j := 0;
      while j < |GridFields|
        invariant 0 <= j <= |GridFields|
        invariant forall f :: f in GridFields[..j] ==> settings.Get(f) == ParseGridText(rows[i].texts.Get(f))
      {
        var f := GridFields[j];
        var text := rows[i].texts.Get(f);
        settings := settings.With(f, if IsDigits(text) then Int(DigitsValue(text)) else Str(""));
        assert GridFields[..j + 1] == GridFields[..j] + [f];
        j := j + 1;
      }
      assert GridFields[..j] == GridFields;
      GridFieldsComplete();
      FieldsExt(settings, MapFields(rows[i].texts, ParseGridText));
      saved := saved[i := saved[i].(settings := settings, enabled := rows[i].checked)];
      i := i + 1;
    }
  }

  // ---------------------------------------------------------------- properties

  /** A row with an empty entry is saved disabled; otherwise the checkbox is saved as set. */
  lemma EmptyEntrySavesDisabled(m: Miner, row: GridRow)
    ensures HasEmpty(row.texts) ==> !SavedMiner(m, ValidateRow(row)).enabled
    ensures !HasEmpty(row.texts) ==> SavedMiner(m, ValidateRow(row)).enabled == row.checked
    ensures SavedMiner(m, ValidateRow(row)).enabled ==> forall f :: row.texts.Get(f) != ""
  {
    HasEmptyIff(row.texts);
  }

  /**
   * A miner whose nine keys are non-negative integers opens in the grid when
   * it has a nickname, and saving it untouched keeps it.
   */
  lemma UneditedSaveKeepsMiner(m: Miner)
    requires forall f :: m.settings.Get(f).Int? && m.settings.Get(f).n >= 0
    ensures OpenRow(m).Success? <==> m.nickname.Some?
    ensures OpenRow(m).Success? ==> SavedMiner(m, OpenRow(m).value) == m
  {
    if m.nickname.Some? {
      var row := OpenRow(m).value;
      forall f ensures row.texts.Get(f) != "" && ParseGridText(row.texts.Get(f)) == m.settings.Get(f) {
        GridTextRoundTrip(m.settings.Get(f));
      }
      HasEmptyIff(row.texts);
      FieldsExt(MapFields(row.texts, ParseGridText), m.settings);
    }
  }

  /**
   * A saved miner with a nickname reopens; saving again keeps every value,
   * and the enable flag survives only when every entry held digits, since any
   * other text was saved as "" and reopens as an empty entry.
   */
  lemma ReopenAndSave(m: Miner, row: GridRow)
    ensures var s := SavedMiner(m, row);
            (OpenRow(s).Success? <==> m.nickname.Some?) &&
            (OpenRow(s).Success? ==>
               SavedMiner(s, OpenRow(s).value).settings == s.settings &&
               (SavedMiner(s, OpenRow(s).value).enabled <==> row.checked && forall f :: IsDigits(row.texts.Get(f))))
  {
    var s := SavedMiner(m, row);
    if m.nickname.Some? {
      var texts := OpenRow(s).value.texts;
      forall f ensures ParseGridText(texts.Get(f)) == s.settings.Get(f)
                    && (texts.Get(f) == "" <==> !IsDigits(row.texts.Get(f)))
      {
        ParseStable(row.texts.Get(f));
      }
      HasEmptyIff(texts);
      FieldsExt(MapFields(texts, ParseGridText), s.settings);
    }
  }

  /**
   * A list written by the grid's Save holds no None, so the grid opens on it
   * again exactly when the list is not empty and every miner has a nickname.
   */
  lemma SavedGridReopens(miners: seq<Miner>, rows: seq<GridRow>)
    requires |rows| == |miners|
    ensures OpenGrid(SavedMiners(miners, rows)).Success? <==>
            miners != [] && forall i :: 0 <= i < |miners| ==> miners[i].nickname.Some?
  {
    var saved := SavedMiners(miners, rows);
    assert forall i :: 0 <= i < |miners| ==> saved[i].nickname == miners[i].nickname;
  }

  /**
   * After saving the grid, a start is blocked on (ip, key) exactly when the
   * row of a miner with that IP was checked and its entry for that required
   * key was not a digit string.
   */
  lemma SavedGridGate(miners: seq<Miner>, rows: seq<GridRow>, ip: string, f: Field)
    requires |rows| == |miners|
    ensures (ip, f) in MissingSettings(SavedMiners(miners, rows)) <==>
            exists i :: 0 <= i < |miners| && rows[i].checked && miners[i].ip == ip &&
                        f in RequiredFields && !IsDigits(rows[i].texts.Get(f))
  {
    var saved := SavedMiners(miners, rows);
    MissingSettingsMembership(saved, ip, f);
    if (ip, f) in MissingSettings(saved) {
      var i :| 0 <= i < |saved| && saved[i].enabled && saved[i].ip == ip &&
               f in RequiredFields && IsMissing(saved[i].settings.Get(f));
      assert rows[i].checked && miners[i].ip == ip && !IsDigits(rows[i].texts.Get(f));
    } else {
      forall i | 0 <= i < |miners| && rows[i].checked && miners[i].ip == ip && f in RequiredFields
        ensures IsDigits(rows[i].texts.Get(f))
      {
        assert saved[i].enabled && saved[i].ip == ip;
      }
    }
  }
}
