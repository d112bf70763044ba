# Bitaxe multi-autotuner: the record-level logic of the control window

This project models, in Dafny, the logic that the Tkinter control window
`gui.py` applies to the fleet's configuration. That logic is spread through the
window's callbacks and is modelled here without the widgets:

- **the start gate** (`start_autotuning`). Every enabled miner must carry the
  six required tuning keys `min_freq, max_freq, min_volt, max_volt, max_temp,
  max_watts`. A key counts as missing when it is absent, `None` or `""`; `0`
  counts as present. If any key is missing, the start is refused and the
  `(ip, key)` pairs are reported in configuration order, then in key order.
  Otherwise one tuning loop is started per enabled miner, in configuration
  order, together with one daily-reset watcher. `running` ends false when
  nothing was started;
- **the miner-list edits**:
  - deleting the selected rows. The miners with those IPs leave the list, and
    the IPs leave the IP→row map;
  - renaming the first miner with a given IP. An empty IP, after stripping, is
    refused. The table is then reloaded, and the IP→row map is only added
    to, so the old IP keeps the id of a row that no longer exists;
  - opening and saving the per-miner tuning grid. The grid cannot open when a
    miner has no `nickname` (its row label reads the key without a default)
    or holds `None` under any tuning key (inserting it into an entry raises).
    The Save button is then never created. On save, an all-digit text
    becomes an integer and any other text becomes `""`. A row with an empty
    entry has its enable box forced off;
  - "Save Settings", which rebuilds the list from the table rows and keeps each
    IP's `enabled` flag;
- **the daily reset watcher**. Every 10 s it compares the local `HH:MM` with the
  configured reset time (default `"03:00"`). When the reset is enabled and the
  two match, it restarts every configured miner and sleeps 60 s more. While
  the reset settings stay the same, a reset minute that the run reaches and
  passes sees exactly one reset.

Module layout:

- `miner.dfy` (`MinerRecord`): records, and the per-key values
  `Absent | Null | Str | Int`.
- `start_gate.dfy` (`StartGate`): the gate.
- `miner_edits.dfy` (`MinerEdits`): the delete filter, the rename and "Save
  Settings".
- `tuning_grid.dfy` (`TuningGrid`): the grid.
- `daily_reset.dfy` (`DailyReset`): the watcher.
- `app.dfy` (`AutotunerApp`): the window object. It is a class whose fields are
  the state the source updates in place: `running`, the started loops, the
  watcher threads, the IP→row map and the table's next row id.

Some behaviours of the code are easy to misread; the model follows the code:

- The loops receive a monitor interval that defaults to 10 when the
  configuration has none (gui.py:806). The 5 at gui.py:758 is overwritten
  before use.
- The gate checks only for absent, `None` or `""`. A non-numeric string passes
  it.
- The daily reset is debounced per minute by the 60 s sleep. "Once per day"
  holds only while the reset settings stay the same (`AtMostOncePerDay`).
- Each successful start starts one more watcher thread, and none is ever
  stopped (`App.watchers`).

Inputs that come from outside the window are parameters:

- the configuration file's contents;
- what `get_miner_defaults` returns;
- what `get_miners` returns, except for the reload right after an edit is
  saved, which is taken to return the list just saved;
- the selected rows and the answer to the confirmation dialog;
- the local clock, in seconds.

Restarts are recorded as the list of IPs restarted.

## Model

| member | source | states |
|---|---|---|
| MinerRecord.FirstMatch | gui.py:388-393 | the index found is the first miner with the IP (no earlier one has it), or the list length when none has it |
| StartGate.CollectMinerGaps | gui.py:767-772 | the inner loop yields exactly the required keys one enabled miner lacks, in key order, and nothing for a disabled miner |
| StartGate.CollectMissing | gui.py:762-772 | the nested loops build exactly the report `MissingSettings` of the configuration |
| StartGate.MissingSettingsMembership | gui.py:766-772 | (ip, key) is reported iff some enabled miner with that IP lacks that required key (absent, None or "") |
| StartGate.OptionalFieldsNeverBlock | gui.py:763-771 | start_freq, start_volt and max_vr_temp are never reported missing |
| StartGate.MissingSettingsConcat | gui.py:766-772 | the report of a concatenated list is the concatenation of the reports: entries follow configuration order |
| StartGate.MinerGapsOrdered | gui.py:770-772 | within one miner the missing keys appear in the order of the required-key list |
| StartGate.DisabledMinerNeverReported | gui.py:767-768 | inserting a disabled miner anywhere does not change the report |
| StartGate.OnlyRequiredFieldsMatter | gui.py:770-771 | the report depends only on IP, enable flag and the six required keys |
| StartGate.ActiveMinersMembership | gui.py:787 | a miner is active iff it is in the list and enabled |
| StartGate.ActiveMinersConcat | gui.py:787 | the active miners keep configuration order |
| StartGate.StartRefusedIff | gui.py:775-783 | a start is refused iff some enabled miner lacks a required key |
| StartGate.NoEnabledMinerStartsNothing | gui.py:787-794 | with no miner enabled the outcome is "none enabled" and nothing is reported missing |
| StartGate.StartedLaunchesEnabledMiners | gui.py:796-820 | a successful start launches exactly one loop per enabled miner, in order, each with that miner's IP, type and own (present) required values |
| AutotunerApp.App.StartAutotuning | gui.py:750-826 | outcome is the gate's decision; `running` ends true only when loops were started; the thread list holds exactly those loops; one more watcher only on success |
| AutotunerApp.App.StopAutotuning | gui.py:828-831 | `running` ends false |
| AutotunerApp.App.DeleteMiners | gui.py:268-299 | empty selection or refused confirmation changes and saves nothing; otherwise the saved list is the input without the selected IPs and the row map loses exactly the selected IPs |
| AutotunerApp.App.constructor | gui.py:37-152 | a new window is not running, has no threads and no watchers, and its row map holds exactly the IPs of the loaded miners |
| AutotunerApp.RowIds | gui.py:218-225 | a reload maps exactly the loaded IPs, each to one of the new row ids |
| AutotunerApp.RowIdsLastRow | gui.py:220-225 | each loaded IP maps to the row inserted for its last miner in the list |
| AutotunerApp.App.LoadMiners | gui.py:216-225 | the reload hands out one new row id per miner and only adds to the row map, so entries of IPs no longer configured are kept |
| AutotunerApp.App.SaveMinerEdit | gui.py:376-398 | a refused edit changes nothing; an accepted one reloads the saved list, and a renamed IP that no miner has any more keeps its old row id, one the reload removed |
| MinerEdits.WithoutIpsMembership | gui.py:295 | a miner survives deletion iff it was listed and its IP was not selected |
| MinerEdits.WithoutIpsConcat | gui.py:295 | deletion distributes over concatenation, so survivors keep their order |
| MinerEdits.WithoutIpsKeepsUnselected | gui.py:295 | a list with no selected IP is kept unchanged |
| MinerEdits.WithoutIpsStep | gui.py:283-295 | filtering selected IPs one after another equals filtering them all at once |
| MinerEdits.Strip | gui.py:378-380 | the stripped text is a slice of the input with only whitespace (ASCII, 0x1C-0x1F included) cut off, starts and ends with non-whitespace, and is empty iff the input is all whitespace |
| MinerEdits.SaveMinerSettings | gui.py:376-398 | an IP that strips to empty is refused; otherwise the list keeps its length, only the first miner with the old IP gets the new nickname, type and IP, and every other record is unchanged |
| MinerEdits.EnabledOf | gui.py:713-715 | the kept flag is false when no existing miner has the IP, and otherwise equals the flag of the first one that has it |
| MinerEdits.SaveSettings | gui.py:701-735 | one record per table row, in row order, with the row's nickname, type and IP, the defaults with missing keys as "", and the kept enable flag |
| MinerEdits.SavedRecordHasAllKeys | gui.py:717-731 | every saved record has all nine keys: the default value, or "" where the default lacks the key |
| MinerEdits.SaveSettingsKeepsEnabled | gui.py:704-735 | saving a table loaded from a list with distinct IPs keeps each miner's type, IP, enable flag and nickname; a record without a nickname is saved with the "Miner-<ip>" the table showed (gui.py:223) |
| TuningGrid.DecimalText | gui.py:664 | an integer shown in an entry is a digit string that `int` reads back as the same integer |
| TuningGrid.GridTextRoundTrip | gui.py:664-685 | None cannot be shown in an entry; shown then saved, non-negative integers come back unchanged, negatives and absent keys come back as "", strings are coerced |
| TuningGrid.ParseStable | gui.py:664-685 | a coerced value can be shown again, and coerced again it does not change |
| TuningGrid.OpenRow | gui.py:646-679 | a miner's row opens iff it has a nickname and none of its keys holds None, and the error says which of the two failed; then each entry shows its key's text and the box is checked iff the miner is enabled and no entry is empty |
| TuningGrid.OpenRows | gui.py:646-679 | the rows open iff every miner's row opens, one per miner in order; otherwise the error is that of the first miner whose row fails |
| TuningGrid.OpenGrid | gui.py:558-693 | no miners gives only a warning; the grid, and with it its Save button, exists iff every miner has a nickname and no key of any miner holds None |
| TuningGrid.HasEmptyIff | gui.py:639 | the row check is exactly "some entry is empty" |
| TuningGrid.SaveAutotunerSettings | gui.py:681-686 | every miner gets, per key, the integer of an all-digit entry or "" and, as its flag, the checkbox; nickname, type and IP untouched |
| TuningGrid.EmptyEntrySavesDisabled | gui.py:638-644 | after validation a row with an empty entry is saved disabled, any other row is saved with its checkbox, and a saved-enabled row has no empty entry |
| TuningGrid.UneditedSaveKeepsMiner | gui.py:646-686 | a miner whose nine keys are non-negative integers opens in the grid iff it has a nickname, and saving it untouched keeps it |
| TuningGrid.ReopenAndSave | gui.py:646-686 | a saved miner reopens iff it has a nickname; saving again keeps all values, and keeps the flag exactly when every entry held digits |
| TuningGrid.SavedGridReopens | gui.py:654-686 | a list written by the grid's Save holds no None, so the grid opens on it again iff it is not empty and every miner has a nickname |
| TuningGrid.SavedGridGate | gui.py:685-686 | after a grid save, a start is blocked on (ip, key) iff that miner's row was checked and its entry for that required key was not a digit string |
| DailyReset.ClockTextIff | gui.py:903-904 | two moments print the same HH:MM iff they fall in the same minute of the day |
| DailyReset.DefaultResetAtThree | gui.py:902-904 | with no reset time configured the reset fires exactly in minute 180 of the day (03:00) |
| DailyReset.WatcherIteration | gui.py:900-911 | one loop pass computes the step: a reset iff enabled and HH:MM matches, restarting every configured miner, then 70 s of sleep (10 s otherwise) |
| DailyReset.RunWatcher | gui.py:899-911 | the loop run over a sequence of iterations yields the trace `Watch` |
| DailyReset.WatchSpacing | gui.py:910-911 | resets are at least 70 s apart and the clock never goes back |
| DailyReset.WatchFiresMatch | gui.py:900-904 | every reset was made by an iteration that began at that moment and whose reset settings, read in that iteration, matched its HH:MM |
| DailyReset.AtMostOncePerMinute | gui.py:910 | no minute sees two resets |
| DailyReset.AtMostOncePerDay | gui.py:899-911 | while the reset settings stay the same, no calendar day sees two resets |
| DailyReset.ReachesResetMinute | gui.py:899-911 | under constant settings that fire in a minute the run starts no later than, the clock is before that minute, inside it, or a reset happened in it |
| DailyReset.AtLeastOnceInResetMinute | gui.py:899-911 | under constant settings, a run that starts no later than a matching minute and goes past it resets within that minute |
| DailyReset.StepRestartsAllOrNone | gui.py:902-909 | a firing iteration restarts exactly the configured miners, in order; any other iteration, and every iteration with the reset disabled, restarts none |

## Left out

- The tuning loop itself (`monitor_and_adjust`): the step-up/step-down policy,
  the flatline detector and safe frequency/voltage pairing. These live in
  autotune.py, which is not part of this model. A started loop is recorded
  only by its arguments (`LoopLaunch`).
- The `stop_autotuning` of autotune.py, `restart_bitaxe`, `get_system_info`,
  `detect_miners` and `webbrowser.open`. These are device and network I/O.
  A restart is recorded as the IP it was sent to.
- `load_config`, `save_config`, `get_miners` and `get_miner_defaults`. These
  are file I/O in config.py, which is not part of this model. Their results are
  parameters, and what would be saved is a result.
- All widgets, dialogs, styling, full-screen handling, log messages and their
  main-thread marshalling. Also left out are the periodic display refresh
  (`update_miner_display`) and the telemetry formatting with two decimals.
- Threads and their concurrency. A start records the loops it would start and
  counts the watcher threads. The model does not capture several watchers
  restarting the fleet at the same minute.
- Copy and paste between grid rows (gui.py:622-636). The model assumes
  validation runs after every edit of a row, as the key-release binding does.
  An edit that fires no key event is not modelled.
- Python truthiness of a non-boolean `enabled` value. The flag is a boolean,
  and a missing key reads as false.
- `str.isdigit` and `str.strip` are modelled on ASCII only. Unicode digits and
  Unicode whitespace beyond ASCII are not modelled.
- When a miner holds `None`, the opening of the grid raises partway. The rows
  already built and the half-built window stay on screen, and a later opening
  only raises that window. The model records only that no grid is available.
- Tk's row ids ("I001", "I002", …) are modelled as consecutive numbers.
- `AutotunerApp.App.SaveMinerEdit` reloads the list it has just saved. It
  assumes that `get_miners` in config.py returns exactly what `save_config`
  wrote. Its statement about the stale row of the old IP rests on that
  assumption.
- Records are assumed to carry "ip" and "type", which every reader of the
  list indexes without a default. A record lacking either raises a KeyError
  that is not modelled. Only "nickname" is modelled as possibly missing.
- `TuningGrid.SaveAutotunerSettings` saves the list read when the grid was
  opened. A delete or rename made in the main window while the grid is open
  is therefore undone by the save. The model takes that list as a parameter
  and does not model the interleaving of the two windows.
- `TuningGrid.SaveAutotunerSettings` requires one grid row per miner. The
  window builds its rows from the same list it saves into, and a missing row
  would raise a KeyError.
- `DailyReset.RunWatcher` runs the unbounded `while True` loop for a finite
  sequence of iterations. Each pass takes no time besides its sleeps. The clock
  is local seconds, and clock jumps and daylight-saving changes are not
  modelled.
- `DailyReset.AtMostOncePerDay` is stated only while the reset settings stay
  the same. If the reset time is edited during a day, a second reset on that
  day is possible, and the model states only the per-minute bound for that
  case.
