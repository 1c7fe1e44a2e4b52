# Snapshot-and-diff over emulator memory

This project models the memory-observation scripts of a Link's Awakening DX
address-hunting toolkit. The scripts all follow the same steps:

1. read a range of Game Boy memory addresses into a dictionary;
2. read the same addresses again later, or from a second machine;
3. emit one change record `{addr, before, after, diff = after - before}` for
   every address whose value differs;
4. optionally filter, count or rank those records.

Memory is a total function from a 16-bit address to a byte (`MemoryDiff.Memory`).
Reading the emulator's memory becomes a lookup in it. The shared specification
is `MemoryDiff.Diff(before, after, lo, hi, ignore)`: the records for
`range(lo, hi)` in visiting order, skipping `ignore`.

The modules follow the scripts:

- `MemoryDiff` (`memory_diff.dfy`): the byte, address, memory and change-record
  types, the diff specification and its properties, the read loop and the diff
  loop, and the `s[:n]` preview.
- `ItemFlags` and `ItemFlagsReacquire` (`item_flag_monitor.dfy`): the live item-flag
  monitor. It is a class with the rolling baseline `previousFlags` over
  `0xDB00..0xDBFF` and the `discoveredItems` table. A check reports a flag that goes
  from 0 to 1 and then moves the baseline to the current memory.
- `SaveStateCompare` (`compare_savestates.dfy`): the save-state comparator. It diffs
  two memories over five named ranges, skips the position addresses, previews
  ten records per range, and applies the "significant" filter `1 <= |diff| <= 50`.
- `RangeScanner` (`verify_ram_addresses.dfy`): one range scanned around an
  action, and the movement test's table of results keyed `<name>_right` and
  `<name>_down`.
- `Discovery` (`discover_ram_addresses.dfy`): the action tester over
  `0x0000..0x02FF` and the analysis. The analysis counts in how many actions each
  address changed, keeps each address's records, ranks addresses by that count
  with a stable sort, and shows the top twenty with three records each.
- `StateFiles` (`state_manager.dfy`): the save-state file manager. It covers the
  backup path `roms/<name>.state`, backup and load as copies over a file map, the
  quick save, and the listing of saved states by name.

Each loop the scripts run is a `method` with loop invariants. Its `ensures`
ties the result to a specification function, and lemmas prove what the scripts
promise about that function.

Two points about what the code does:

- The monitor does not report a flag at most once. It does not consult
  `discovered_items` when it decides what to report, so a flag that is set,
  cleared and set again is reported twice.
  Its address is still stored only once in `discovered_items`
  (`ItemFlagsReacquire.ReacquiredFlagReportedTwice`).
- The monitor has no discovery ledger that rejects duplicates. It has no
  category table and no reward accumulator. The category table in the discovery
  script is declared but never read. The reinforcement-learning reward is a
  constant.

## Model

| member | source | states |
|---|---|---|
| MemoryDiff.DiffSound | compare_savestates.py:55-70 | Every record is about an address of the range that is not ignored and whose two values differ. It carries both values and `after - before`. Records ascend by address, and there are no more of them than addresses in the range. |
| MemoryDiff.DiffReports | verify_ram_addresses.py:87-89 | An address is reported exactly when it is in the range, is not ignored, and its values differ. |
| MemoryDiff.DiffBounds | compare_savestates.py:68 | Every difference is the signed `after - before`. It is non-zero and within -255..255. |
| MemoryDiff.DiffSelf | compare_savestates.py:63 | Diffing a memory against itself reports nothing. |
| MemoryDiff.DiffAntisymmetric | compare_savestates.py:60-68 | Swapping the two memories reports the same addresses in the same order, each record with its values swapped and its difference negated. |
| MemoryDiff.Capture | verify_ram_addresses.py:73-75 | The snapshot holds exactly the addresses of the range, each with the memory's value. |
| MemoryDiff.DiffAgainst | verify_ram_addresses.py:86-95 | The diff loop against an earlier snapshot returns exactly the diff of the memory the snapshot was read from and the current memory. |
| MemoryDiff.Preview | compare_savestates.py:74 | `s[:n]` is a prefix of at most `n` items, and is all of `s` when `s` is shorter than `n`. |
| MemoryDiff.Overflow | compare_savestates.py:77-78 | The shown items plus the "and k more" count make up the whole list. The count is positive exactly when the list is longer than `n`. |
| ItemFlags.FlagRange | item_flag_monitor.py:20-22 | The monitored range is the 256 addresses `0xDB00..0xDBFF` in ascending order, and it contains every flag address. The baseline, check and print loops each visit exactly this sequence, in order. |
| ItemFlags.AcquisitionsSound | item_flag_monitor.py:55-65 | Every reported address is in the range and went from 0 to 1. Each record carries old value 0 and new value 1. Records are strictly ascending by address. |
| ItemFlags.AcquisitionsExact | item_flag_monitor.py:59-65 | An address is reported exactly when it is in the range and went from 0 to 1. Any other transition is never reported. |
| ItemFlags.Rebased | item_flag_monitor.py:68-69 | After a check or a baseline update, every monitored address holds the current value. Every other baseline entry is kept. |
| ItemFlags.RecordedKeepsOthers | item_flag_monitor.py:66 | The discovered table gains exactly the reported addresses, each with value 1. Other entries keep their values. Its size never decreases, and it does not grow when every reported address was already in it. |
| ItemFlags.CheckUpToMeaning | item_flag_monitor.py:55-69 | After visiting part of the range, the check loop's list, baseline and table are the acquisitions of that part, the baseline overlaid with memory there, and the table with those acquisitions recorded. |
| ItemFlags.ItemFlagMonitor.constructor | item_flag_monitor.py:25-26 | The baseline and the discovered table start empty. |
| ItemFlags.ItemFlagMonitor.UpdateFlagBaseline | item_flag_monitor.py:45-48 | Every monitored address's baseline equals memory. Other baseline entries and the discovered table are unchanged. |
| ItemFlags.ItemFlagMonitor.CheckFlagChanges | item_flag_monitor.py:51-71 | It returns the 0-to-1 acquisitions against the old baseline, moves the baseline to memory on every monitored address, and records the acquisitions in the discovered table. |
| ItemFlags.ItemFlagMonitor.PrintAcquisitions | item_flag_monitor.py:73-80 | The reported addresses are shown in order. The table's size is shown exactly when something was reported. |
| ItemFlags.NonZeroFlags | item_flag_monitor.py:84-88 | Every listed flag is in the range, non-zero and has memory's value. The list ascends by address. |
| ItemFlags.NonZeroFlagsIndex | item_flag_monitor.py:85-88 | For every non-zero flag in the range, gives the position in the list where it appears. |
| ItemFlags.NonZeroFlagsComplete | item_flag_monitor.py:85-88 | Every non-zero flag in the range is listed. |
| ItemFlags.PrintCurrentFlags | item_flag_monitor.py:84-92 | It shows the first 10 non-zero flags and the count of the rest. |
| ItemFlags.UnchangedMemoryReportsNothing | item_flag_monitor.py:56-69 | A second check against unchanged memory reports nothing. |
| ItemFlags.NoAcquisitionsWhenEqual | item_flag_monitor.py:60 | Where the baseline equals memory, nothing is reported. |
| ItemFlagsReacquire.OnlyFlagReported | item_flag_monitor.py:60-65 | From a cleared baseline, setting one flag reports exactly that flag. |
| ItemFlagsReacquire.ClearingReportsNothing | item_flag_monitor.py:60 | Clearing flags (1 to 0) is never reported. |
| ItemFlagsReacquire.RecordedOnly | item_flag_monitor.py:66 | Recording reports of only `f` into a table holding at most `f` leaves exactly `{f}`. |
| ItemFlagsReacquire.ReacquiredFlagReportedTwice | item_flag_monitor.py:55-69 | A flag set, cleared and set again is reported by the first and third checks and not by the second. The table holds it once. |
| SaveStateCompare.CompareSound | compare_savestates.py:52-70 | Every record lies in a range carrying its tag, is not ignored, has differing values and carries both values with `test - base`. |
| SaveStateCompare.CompareComplete | compare_savestates.py:55-63 | Every address inside some range that is not ignored and whose values differ is reported. |
| SaveStateCompare.CompareReports | compare_savestates.py:52-63 | An address is reported exactly when it lies in some range, is not ignored, and its values differ. |
| SaveStateCompare.IgnoredNeverReported | compare_savestates.py:56-58 | An ignored address is never reported, whatever its values. |
| SaveStateCompare.CompareAscending | compare_savestates.py:52-80 | Over ranges that each end before the next starts, the records are grouped by range in list order and strictly ascend by address. |
| SaveStateCompare.MemoryRangesOrdered | compare_savestates.py:42-48 | The five compared ranges are ordered and disjoint. |
| SaveStateCompare.CompareSelf | compare_savestates.py:63 | Comparing a memory with itself reports nothing. |
| SaveStateCompare.CompareAntisymmetric | compare_savestates.py:60-68 | Swapping base and test reports the same addresses under the same tags, each record with its values swapped and its difference negated. |
| SaveStateCompare.SignificantMembers | compare_savestates.py:87 | The filter keeps exactly the records with `1 <= abs(diff) <= 50`. |
| SaveStateCompare.SignificantAppend | compare_savestates.py:87 | The filter distributes over concatenation, so it keeps the records' order. |
| SaveStateCompare.SignificantAscending | compare_savestates.py:87 | Filtering an ascending list keeps it ascending. |
| SaveStateCompare.SignificantSmall | compare_savestates.py:87 | On the comparator's records the filter keeps exactly those with difference within -50..50. |
| SaveStateCompare.CompareRange | compare_savestates.py:53-70 | The per-range loop returns that range's diff, ignored addresses skipped, every record tagged with the range name. |
| SaveStateCompare.CompareAll | compare_savestates.py:52-80 | The outer loop returns the ranges' records concatenated in list order, previews each range's first 10 records, and gives each range's count of records left after those 10. |
| SaveStateCompare.CompareSavestates | compare_savestates.py:35-92 | No position address appears in the result. The records ascend by address, each range's preview has its first 10 records and its count is the number of records left after them, and the candidates are the first 15 significant records. |
| RangeScanner.ScanMemoryRange | verify_ram_addresses.py:60-102 | The snapshot holds exactly `start..end` with the settled values. The changes are the diff of settled and post-action memory: records only where values differ, signed differences, strictly ascending, at most `end - start + 1` of them. The first 10 are shown. |
| RangeScanner.KeysApart | verify_ram_addresses.py:142-143 | A `_right` key is never a `_down` key, and each suffix keeps distinct names distinct. |
| RangeScanner.MovementResultsKeys | verify_ram_addresses.py:134-143 | The table's keys are exactly `<name>_right` and `<name>_down` for every scanned range. |
| RangeScanner.MovementResultsCount | verify_ram_addresses.py:132-143 | With distinct range names, the table has two entries per range. |
| RangeScanner.MovementResultsLookup | verify_ram_addresses.py:139-143 | With distinct range names, a range's two keys hold its scans after moving right and after moving down. |
| RangeScanner.MovementResultsAll | verify_ram_addresses.py:139-143 | With distinct range names, every range's two entries hold its two scans. |
| RangeScanner.RangesToTestDistinct | verify_ram_addresses.py:124-130 | The five scanned ranges have distinct names. |
| RangeScanner.ScanAll | verify_ram_addresses.py:134-143 | The outer loop builds exactly the table of two scans per range. |
| RangeScanner.TestMovement | verify_ram_addresses.py:104-145 | The movement test's table has the 10 keys of the five ranges, and each holds that range's scan. |
| Discovery.MeaningfulKeepsAll | discover_ram_addresses.py:86 | On records whose differences are all non-zero, the `abs(diff) > 0` filter drops nothing. |
| Discovery.MeaningfulIdentity | discover_ram_addresses.py:73-86 | A test's records always have non-zero differences, so its filter returns them unchanged. |
| Discovery.ActionChangesRecords | discover_ram_addresses.py:74-83 | Every record of a test is about an address below `0x300` whose value the action changed. It carries both values and `post - pre`, and is tagged with the action name. |
| Discovery.ActionChangesComplete | discover_ram_addresses.py:74-83 | Every address below `0x300` whose value the action changed has a record in the test. |
| Discovery.ActionChangesAscending | discover_ram_addresses.py:74-83 | A test's records strictly ascend by address, so each address appears at most once. |
| Discovery.DetailsOf | discover_ram_addresses.py:151 | An address's details are as many as its records, and all are about it. |
| Discovery.FirstSeenExact | discover_ram_addresses.py:150 | The frequency dictionary's key order lists every counted address exactly once. |
| Discovery.TallyMeaning | discover_ram_addresses.py:144-151 | After counting, the key order is first-appearance order. An address has a frequency and details exactly when some record is about it. Its frequency is its number of records, and its details are those records in order. |
| Discovery.ActionsContaining | discover_ram_addresses.py:147-150 | The number of actions in which an address changed is at most the number of actions. |
| Discovery.FrequencyCountsActions | discover_ram_addresses.py:147-150 | When each action's records ascend, an address's record count equals the number of actions in which it changed. |
| Discovery.AnalysisMeaning | discover_ram_addresses.py:144-151 | An address has a frequency exactly when it changed in some action. The frequency is the number of such actions, at most the number of actions. Its details are as many as its frequency, all about it. |
| Discovery.Items | discover_ram_addresses.py:157 | The dictionary's items, one per key in key order, with that key's count. |
| Discovery.RankPerm | discover_ram_addresses.py:157 | The ranking is a rearrangement of the items. |
| Discovery.RankSorted | discover_ram_addresses.py:157 | The ranking lists counts from highest to lowest. |
| Discovery.RankStable | discover_ram_addresses.py:157 | Items with equal counts keep their original order, as Python's stable `sorted(..., reverse=True)` does. |
| Discovery.RankMember | discover_ram_addresses.py:157 | Every ranked item is one of the items. |
| Discovery.RankedKnown | discover_ram_addresses.py:159-161 | Every ranked address has details to show. |
| Discovery.OrderKnown | discover_ram_addresses.py:144-151 | Every address in the key order has a frequency. |
| Discovery.EfficientRamDiscovery.constructor | discover_ram_addresses.py:22 | The baseline starts empty. |
| Discovery.EfficientRamDiscovery.TakeBaseline | discover_ram_addresses.py:34-46 | The baseline is replaced by exactly the addresses `0x0000..0x02FF` with the memory's values. |
| Discovery.EfficientRamDiscovery.DiffAfterAction | discover_ram_addresses.py:72-83 | The post-action loop returns exactly the test's records. |
| Discovery.EfficientRamDiscovery.TestAction | discover_ram_addresses.py:48-92 | A test returns the records of the addresses the action changed, tagged with its name, ascending by address. The first 10 are shown. |
| Discovery.EfficientRamDiscovery.CountAction | discover_ram_addresses.py:148-151 | Counting one action's records into the tables gives the tables of all records counted so far. |
| Discovery.EfficientRamDiscovery.CountChanges | discover_ram_addresses.py:147-151 | The counting loops give the tables of every record of every action, actions in order. |
| Discovery.EfficientRamDiscovery.AnalyzeResults | discover_ram_addresses.py:140-162 | It returns the counting tables and the stable ranking of the frequency items. It selects the top 20, each with its first 3 details. |
| StateFiles.BackupPathOfDefault | state_manager.py:22-23 | A name's backup path is the default state exactly when the name is the ROM's file name. |
| StateFiles.BackupPathInjective | state_manager.py:22 | Different names give different backup paths. |
| StateFiles.StateName | state_manager.py:45 | Adding `.state` back to a listed name gives the directory entry. |
| StateFiles.ListedNamesSound | state_manager.py:42-46 | Every returned name plus `.state` is an entry of the listing and is not the emulator's own state file. There are no more names than entries. |
| StateFiles.ListedNamesComplete | state_manager.py:42-46 | Every entry ending in `.state`, other than the emulator's own, has its name returned. |
| StateFiles.ListedNamesAppend | state_manager.py:42-46 | The names keep the listing's order. |
| StateFiles.BackupEffect | state_manager.py:16-25 | Without the default state the backup fails and nothing changes. A copy adds or overwrites only the backup path, with the default state's contents. |
| StateFiles.LoadEffect | state_manager.py:27-37 | Without the named backup the load fails and nothing changes. A copy overwrites only the default state, with the backup's contents. |
| StateFiles.LoadAfterBackup | state_manager.py:16-37 | Loading a state right after backing it up succeeds and changes no file. |
| StateFiles.QuickSaveNeverSameFile | state_manager.py:57-61 | A quick save never targets the default state, so it copies exactly when the default state exists. |
| StateFiles.ListedStatesLoadable | state_manager.py:27-46 | Every name the listing of the backup directory returns loads, copying that file over the default state. |
| StateFiles.StateManager.constructor | state_manager.py:11-14 | The manager starts on the given file set. |
| StateFiles.StateManager.BackupCurrentState | state_manager.py:16-25 | The outcome and the new file set are those of a backup. |
| StateFiles.StateManager.LoadState | state_manager.py:27-37 | The outcome and the new file set are those of a load. |
| StateFiles.StateManager.ListStates | state_manager.py:39-55 | The loop returns the names of the `.state` entries other than the emulator's own, suffix stripped, in listing order. |
| StateFiles.StateManager.QuickSave | state_manager.py:57-61 | A quick save is a backup under `quick_save_<timestamp>`, and it never hits the same-file error. |

## Left out

- The PyBoy emulator is not modelled: loading a state, `tick`, `send_input`, and the settle delays before and after an action. The memory before and after an action is a parameter. The model assumes the emulator is deterministic, so a scan's "settled" memory is the same for each scan.
- The action closures (`move_right`, `move_up`, `use_a_button`, `move_right_extended`, ...) are input plumbing and have no stated result. `discover_common_addresses` only runs them and fills the results table, so `AnalyzeResults` takes that table as a sequence of `(action, records)` pairs in insertion order.
- `find_position_addresses` in `verify_ram_addresses.py` only runs `scan_memory_range` over three more ranges and prints. `ScanMemoryRange` covers it.
- `compare_multiple_states`, `verify_files`, `setup_emulator`, `cleanup` and every `main` are file checks and command-line dispatch.
- The monitor's console input thread and polling loop (`item_flag_monitor.py:94-166`) involve concurrency and the wall clock.
- Printing, emoji and number formatting are left out. The model keeps what is selected for display (first 10, top 20, first 3, the "more" counts) and not the text.
- The unused `ranges` and `candidates` fields of the discovery class are left out, as is the `frames` argument of `take_baseline`.
- The file system is a map from path to contents. A directory listing is a parameter of `ListStates`. `shutil.copy2`'s metadata copy is not modelled.
- `StateFiles.Backup` and `StateFiles.Load` treat source and destination as the same file only when the path strings are equal. Symbolic links and aliases are not modelled. `copy2` raises `SameFileError` in that case, and the model returns the outcome `SameFile` instead.
- `ItemFlags.ItemFlagMonitor.CheckFlagChanges` requires a baseline over the whole flag range. The source raises `KeyError` when it is called before `update_flag_baseline`, so calling it that way is outside the model.
- The reinforcement-learning environment, training scripts and log manager are left out. They use floating point, images and a constant reward.
