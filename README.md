# Context Maintainer — a verified model of its core

Context Maintainer is a macOS menu-bar app. It gives every virtual desktop
("space") its own todo list, title and colour. It snapshots all of them into
a capped history when a session is rotated, and it keeps one note window on
each monitor. This project models the app's core in Dafny and proves what
that core promises:

- **Spaces** (`spaces.dfy`): the space registry. `enumerate_spaces` flattens
  the operating system's per-display space lists into `(space id, display,
  local ordinal)` triples. `space_info_for_display` picks the active space of
  one display. The operating system's answer is a `Snapshot` value.
- **Store** and **Commands** (`store.dfy`, `commands.dfy`): the versioned
  desktop-state store.
  - `Store` holds `PersistData`, its defaults, and every command as a pure
    transition, together with the lemmas about them: round trips, session
    rotation and its 20-entry cap, restoring a snapshot, and the v0→v1
    migration.
  - `Commands.AppState` is the mutable application state. Each command is a
    method on it that changes the data and persists it. The loops of
    `rekey`/`migrate_v0_to_v1` and `start_new_session` are methods proved
    against the `Store` functions.
- **Views** (`views.dfy`): default colours, `get_desktop`,
  `list_all_desktops`, `list_all_spaces`, `list_desktops_grouped` and
  `build_desktop_infos`.
- **Switcher** (`switcher.dfy`): `switch_desktop` and the key presses that
  `simulate_desktop_switch` sends.
- **Windows** (`windows.dfy`): window labels, the monitor-count fallback
  rule, the reconfiguration "begin" flag, and `sync_windows_to_monitors` as a
  state machine over the set of live window labels.
- **Todos** (`todo_store.dfy`): the front end's todo store (`useTodoStore`),
  as a class whose actions update its fields. Debounced saves are queued
  requests.
- **Timers** (`timer_store.dfy`): the front end's per-desktop countdown store
  (`useTimerStore`).
- **SnapPosition** (`snap_position.dfy`): `calculateSnapPosition`, with the
  cases of its test file as lemmas.
- **Utils** (`utils.dfy`): `formatCountdown`, `friendlyMonitorName` and
  `formatPreset`.
- **Common** (`common.dfy`): shared values, made explicit. These are decimal
  rendering, JavaScript `trim`, `%` and `Math.floor`, and `TodoItem`.

Calls into macOS, the clock and random ids become parameters. A space list
is a `Snapshot`, the time is a `now` string, a fresh uuid is an `id`
parameter, and an interval handle is a `handle` parameter.

## Model

| member | source | states |
|---|---|---|
| Spaces.EnumerateSpaces | src-tauri/src/lib.rs:215-262 | the nested loop over displays and spaces returns exactly `Enumerate(snap)`: per display in order, the type-0 spaces in native order, with ordinals 1, 2, … |
| Spaces.DisplaySpaces | src-tauri/src/lib.rs:234-253 | the k-th kept space of a display carries the k-th kept id, the display index and local ordinal k + 1 |
| Spaces.KeptIdsAreNormal | src-tauri/src/lib.rs:236-251 | an id is enumerated for a display iff some space of that display has type 0 (a missing type reads as -1) and that id |
| Spaces.UntypedSpacesSkipped | src-tauri/src/lib.rs:238-243 | spaces whose type is missing are never enumerated |
| Spaces.EnumerationOrdered | src-tauri/src/lib.rs:229-254 | every enumerated display index is below the display count, and the output is sorted by display index |
| Spaces.EnumerationPerDisplay | src-tauri/src/lib.rs:229-254 | the spaces of display k in the output are exactly those of the k-th display's list; a display index past the end has none |
| Spaces.OnDisplayAppend | src-tauri/src/lib.rs:229-254 | filtering by display distributes over concatenation |
| Spaces.SpaceInfoForDisplay | src-tauri/src/lib.rs:168-211 | no answer or no displays gives (0, 0); an in-range display reads its own current space; an out-of-range display falls back to display 0 |
| Store.DefaultSettings | src-tauri/src/lib.rs:312-344 | no custom colours, setup not complete, 10 desktops, presets [60, 300, 600], both notifications on, no hidden panels |
| Store.DefaultPersistData | src-tauri/src/lib.rs:346-360 | every map empty, no completed items, version 0, default settings |
| Store.LoadData | src-tauri/src/lib.rs:367-372 | a parsed file is used as is; a missing or unreadable file gives the defaults |
| Store.GetTodos | src-tauri/src/lib.rs:446-450 | the stored list, or the empty list for an unknown desktop |
| Store.GetTitle | src-tauri/src/lib.rs:460-464 | the stored title, or "" for an unknown desktop |
| Store.SaveTodos | src-tauri/src/lib.rs:452-458 | the desktop's key is added and every other list and field is unchanged |
| Store.SaveThenGetTodos | src-tauri/src/lib.rs:446-458 | reading back after a save gives the saved list; other desktops read as before |
| Store.SaveTitle | src-tauri/src/lib.rs:466-476 | an empty title removes the key rather than storing ""; any other title is stored; nothing else changes |
| Store.SaveThenGetTitle | src-tauri/src/lib.rs:460-476 | reading back after a save gives the saved title; other desktops read as before |
| Store.SaveTitleKeepsNoEmptyTitles | src-tauri/src/lib.rs:466-476 | saving titles preserves the invariant that no stored title is "" |
| Store.SaveColor | src-tauri/src/lib.rs:660-666 | the desktop's colour becomes `color`, other colours and all other fields are unchanged |
| Store.ApplyTheme | src-tauri/src/lib.rs:708-720 | only `settings.custom_colors` changes |
| Store.ThemedContents | src-tauri/src/lib.rs:708-720 | the colour map after a theme has exactly the ids of the first min(\|spaces\|, \|colors\|) enumerated spaces; with distinct ids, space i has `colors[i]` |
| Store.ClearAllData | src-tauri/src/lib.rs:747-755 | notes, titles and custom colours become empty; history, completed items, version and all other settings are unchanged |
| Store.CapHistory | src-tauri/src/lib.rs:603-609 | a history longer than 20 keeps its newest 20 entries, a shorter one is kept whole |
| Store.StartNewSession | src-tauri/src/lib.rs:584-618 | all notes and titles are cleared; settings, completed items and version are unchanged |
| Store.RotatedStep | src-tauri/src/lib.rs:592-610 | one more visited desktop is one more fold step |
| Store.RotatedContents | src-tauri/src/lib.rs:592-610 | after visiting distinct ids, a desktop has history iff it had history or was visited with content; a visited desktop with content has its history pushed, any other keeps its old history |
| Store.RotationHistory | src-tauri/src/lib.rs:584-618 | a desktop with a non-empty title or list gets its snapshot appended (capped); every other desktop's history, present or absent, is unchanged |
| Store.RotationOrderIrrelevant | src-tauri/src/lib.rs:590-610 | the result is the same whatever order the id set is iterated in |
| Store.RotationKeepsCap | src-tauri/src/lib.rs:582-609 | if every history has at most 20 entries, it still does after a rotation |
| Store.CapAfterPush | src-tauri/src/lib.rs:603-609 | pushing onto a capped history of min(n, 20) entries gives min(n + 1, 20) entries, ending with the new one after the newest earlier ones |
| Store.RotationNewestKept | src-tauri/src/lib.rs:584-618 | a rotation grows a history of min(n, 20) entries to min(n + 1, 20): the newest entry is the desktop's current title and todos at `now`, and before it come the most recent earlier entries in order |
| Store.RestoreContext | src-tauri/src/lib.rs:626-642 | false with the data unchanged iff the desktop or index is missing; on a hit the desktop's todos become the saved ones and its title is saved as by `save_title` (an empty title removes the key) |
| Store.RestoreThenGet | src-tauri/src/lib.rs:626-642 | after a successful restore the desktop reads back the saved todos and title |
| Store.RotateThenRestore | src-tauri/src/lib.rs:584-642 | restoring the newest snapshot after a rotation brings back the todos and title the desktop had before it |
| Store.RestoreNewest | src-tauri/src/lib.rs:626-642 | restoring a desktop's newest history entry succeeds and reads back that entry's todos and title |
| Store.CapKeepsNewest | src-tauri/src/lib.rs:603-609 | capping after a push never drops the entry just pushed |
| Store.RestoreKeepsNoEmptyTitles | src-tauri/src/lib.rs:626-642 | restoring preserves the invariant that no stored title is "" |
| Store.PositionToId | src-tauri/src/lib.rs:386-392 | the mapping has exactly the global positions 0 … n-1, and position p maps to the id of the p-th enumerated space |
| Store.RekeyedContents | src-tauri/src/lib.rs:394-407 | a rekeyed map has exactly the ids of the positions present in the old map; with distinct ids each carries the value of its old position |
| Store.Migrate | src-tauri/src/lib.rs:381-409 | a no-op from version 1 on; the result is always at least version 1; history and completed items are never touched |
| Store.MigrateIdempotent | src-tauri/src/lib.rs:381-409 | migrating twice, even against another space list, equals migrating once |
| Store.MigratedKeysAreLive | src-tauri/src/lib.rs:405-407 | after a v0 migration the keys of notes, titles and colours are the live ids of the old positions; keys with no such position are dropped |
| Store.MigratedValues | src-tauri/src/lib.rs:405-407 | with distinct ids, each old position's todos and title are read back under the live id |
| Store.MigrationExample | src-tauri/src/lib.rs:381-409 | with one space (id 555), key 0 moves to 555, key 5 is dropped, and the version becomes 1 |
| Store.AddCompleted | src-tauri/src/lib.rs:793-805 | exactly one completed item (id, text, desktop, time) is appended; nothing else changes |
| Commands.CollectIds | src-tauri/src/lib.rs:590 | the id set is listed once each, in some order |
| Commands.PushCapped | src-tauri/src/lib.rs:603-609 | the push-then-drain loop equals `CapHistory(history + [entry])` |
| Commands.Rekey | src-tauri/src/lib.rs:394-403 | the keys are the images of the old keys that have a position, each value comes from an old key, and under an injective mapping each old value lands on its new key |
| Commands.PositionToIdInjective | src-tauri/src/lib.rs:386-392 | distinct space ids make the position-to-id mapping injective |
| Commands.RekeyIsRekeyed | src-tauri/src/lib.rs:394-403 | with distinct ids, any map meeting `Rekey`'s contract is the fold definition `Rekeyed` |
| Commands.RekeyedKeys | src-tauri/src/lib.rs:394-403 | the key set of the loop equals the key set of the fold |
| Commands.MigrateV0ToV1 | src-tauri/src/lib.rs:381-409 | no-op from version 1; from version 0 the version becomes exactly 1, everything but notes, titles and custom colours is kept, and those three are carried over to the live ids (keys exactly, each value from a position holding that id); with distinct ids, equal to `Store.Migrate` |
| Commands.RekeyCarriesOver | src-tauri/src/lib.rs:394-403 | what `rekey` promises through the position-to-id mapping is a carry-over from positions to ids |
| Commands.AppState.Startup | src-tauri/src/lib.rs:1074-1086 | loads the file (or the defaults); from version 1 keeps it and the file as they are; from version 0 sets version 1, keeps history, completed items and the other settings, carries notes, titles and colours over to the live ids, and writes the result back |
| Commands.AppState.Persist | src-tauri/src/lib.rs:374-378 | the data is unchanged and the disk holds it |
| Commands.AppState.SaveTodos | src-tauri/src/lib.rs:452-458 | the data becomes `Store.SaveTodos` of the old data and is persisted |
| Commands.AppState.SaveTitle | src-tauri/src/lib.rs:466-476 | the data becomes `Store.SaveTitle` of the old data and is persisted |
| Commands.AppState.SaveColor | src-tauri/src/lib.rs:660-666 | the data becomes `Store.SaveColor` of the old data and is persisted |
| Commands.AppState.CompleteSetup | src-tauri/src/lib.rs:652-658 | only `setup_complete` becomes true; persisted |
| Commands.AppState.SaveDesktopCount | src-tauri/src/lib.rs:700-706 | only `desktop_count` changes; persisted |
| Commands.AppState.SaveTimerPresets | src-tauri/src/lib.rs:722-728 | only `timer_presets` changes; persisted |
| Commands.AppState.SaveNotifySettings | src-tauri/src/lib.rs:730-737 | only the two notification flags change; persisted |
| Commands.AppState.SaveHiddenPanels | src-tauri/src/lib.rs:739-745 | only `hidden_panels` changes; persisted |
| Commands.AppState.ApplyTheme | src-tauri/src/lib.rs:708-720 | the colours are cleared and refilled by the loop over enumerated spaces, equal to `Store.ApplyTheme`; persisted |
| Commands.AppState.ClearAllData | src-tauri/src/lib.rs:747-755 | the data becomes `Store.ClearAllData` of the old data and is persisted |
| Commands.AppState.StartNewSession | src-tauri/src/lib.rs:584-618 | the data becomes `Store.StartNewSession` for some order listing the session ids once (any order gives the same result); persisted |
| Commands.AppState.RestoreContext | src-tauri/src/lib.rs:626-642 | result and new data are `Store.RestoreContext`; the file is written only on success |
| Commands.AppState.AddCompleted | src-tauri/src/lib.rs:793-805 | the data becomes `Store.AddCompleted` of the old data and is persisted |
| Commands.AppState.ClearCompleted | src-tauri/src/lib.rs:807-813 | only the completed list is emptied; persisted |
| Views.DefaultColor | src-tauri/src/lib.rs:422-424 | a default colour is one of the eight palette colours |
| Views.DefaultColorCycle | src-tauri/src/lib.rs:49-58 | the palette repeats every 8 positions and neighbouring positions differ |
| Views.ColorOf | src-tauri/src/lib.rs:434-436 | a custom colour wins, otherwise the default colour of the position |
| Views.DesktopNameInjective | src-tauri/src/lib.rs:440 | distinct positions get distinct "Desktop N" names |
| Views.PositionOf | src-tauri/src/lib.rs:430-432 | the first global position holding the id, or 0 when the id is not enumerated |
| Views.GetDesktop | src-tauri/src/lib.rs:426-444 | id and fullscreen flag from the display's current space, position from the enumeration, name "Desktop position+1" and resolved colour |
| Views.GetDesktopPosition | src-tauri/src/lib.rs:426-444 | when the current space is enumerated, its position indexes that space |
| Views.GetDesktopExample | src-tauri/src/lib.rs:426-444 | a one-display snapshot on space 100 gives position 0, "Desktop 1", the first palette colour, not fullscreen |
| Views.ClearedColorsAreDefault | src-tauri/src/lib.rs:747-755 | after `clear_all_data` every desktop shows its default colour |
| Views.ThemedColor | src-tauri/src/lib.rs:708-720 | after a theme, space i shows `colors[i]` when i < \|colors\|, else its default colour |
| Views.ActiveCount | src-tauri/src/lib.rs:497-500 | the number of items not done: the length of the order-preserving filter `Todos.ActiveItems`, so at most the length of the list |
| Views.ActiveCountExtremes | src-tauri/src/lib.rs:497-500 | the count is 0 iff every item is done, and the full length iff none is |
| Views.ListAllDesktops | src-tauri/src/lib.rs:488-514 | one summary per enumerated space, in order, the i-th with global position i |
| Views.SummaryAgreesWithGetDesktop | src-tauri/src/lib.rs:426-514 | the summary at the active desktop's position has its id, name and colour |
| Views.ListAllSpaces | src-tauri/src/lib.rs:677-698 | one entry per enumerated space, carrying the summary's id, position, name, title and colour |
| Views.DisplayBound | src-tauri/src/lib.rs:530-553 | one past the largest display index present, or 0 with no spaces |
| Views.FiledStep | src-tauri/src/lib.rs:530-549 | filing one more summary appends it to its display's bucket |
| Views.FileSummaries | src-tauri/src/lib.rs:527-549 | the loop files each summary under its display, in order, and finds the display bound |
| Views.ReadOutGroups | src-tauri/src/lib.rs:551-553 | reading buckets 0 … bound-1 gives the groups below the bound |
| Views.ListDesktopsGrouped | src-tauri/src/lib.rs:522-554 | the result is `Grouped` of the enumeration and its summaries |
| Views.GroupsAscending | src-tauri/src/lib.rs:551-553 | groups come in strictly ascending display order, none is empty, each holds exactly that display's summaries |
| Views.GroupsCover | src-tauri/src/lib.rs:551-553 | every display hosting a space has a group |
| Views.GroupedByDisplay | src-tauri/src/lib.rs:522-554 | every display that hosts a space has a group holding exactly its summaries, in order |
| Views.GroupedFlattensToList | src-tauri/src/lib.rs:488-554 | concatenating the groups gives `list_all_desktops` back, so positions stay global |
| Views.DisplayCount | src-tauri/src/lib.rs:826 | one more than the largest display index, and at least 1 |
| Views.BuildDesktopInfos | src-tauri/src/lib.rs:824-851 | one info per display, each equal to `get_desktop` for that display |
| Views.InfosReadTheirOwnDisplay | src-tauri/src/lib.rs:824-851 | each display's info shows that display's own current space |
| Switcher.SimulateDesktopSwitch | src-tauri/src/lib.rs:266-281 | \|steps\| key presses, all 124 (right) for positive steps and all 123 (left) otherwise |
| Switcher.MovedUniform | src-tauri/src/lib.rs:266-281 | presses of one arrow move exactly their number of places, passing only through positions between start and end |
| Switcher.SwitchSteps | src-tauri/src/lib.rs:556-578 | steps exist iff current and target are both on the display and differ; then they are the target's index minus the current one's, never 0 |
| Switcher.SwitchDesktop | src-tauri/src/lib.rs:556-578 | true iff steps exist, then exactly the key presses for those steps; false presses nothing |
| Switcher.SwitchLandsOnTarget | src-tauri/src/lib.rs:556-578 | the presses move from the current index to the target's index |
| Switcher.SwitchToCurrentRefused | src-tauri/src/lib.rs:570-576 | switching to the current desktop is refused |
| Windows.MonitorLabel | src-tauri/src/lib.rs:940-942 | index 0 is "main" and no other index is |
| Windows.MonitorLabelInjective | src-tauri/src/lib.rs:940-942 | distinct monitors get distinct labels |
| Windows.ExpectedLabels | src-tauri/src/lib.rs:940-942 | the i-th expected label is monitor i's label |
| Windows.ParseUsize | src-tauri/src/lib.rs:38-46 | after dropping one leading '+', the string parses iff it is a non-empty digit string denoting a value below 2^64, and then to that value; so "", "+" and any string with another character do not parse |
| Windows.WindowLabelToDisplayIndex | src-tauri/src/lib.rs:38-46 | a label without the "monitor-" prefix, or whose suffix does not parse, maps to 0; a non-zero result is the parsed suffix of a "monitor-" label; every result is below 2^64 |
| Windows.LabelRoundTrip | src-tauri/src/lib.rs:38-46 | the display index of monitor i's label is i |
| Windows.LabelEdgeCases | src-tauri/src/lib.rs:38-46 | "settings", "monitor-", "monitor-+" and "monitor-x1" map to 0; "monitor-+2" and "monitor-02" map to 2 |
| Windows.CgDisplayCount | src-tauri/src/lib.rs:104-112 | a failed hardware query counts 0 displays |
| Windows.MonitorsWithFallback | src-tauri/src/lib.rs:75-101 | a failed first query fails; a first answer at least the hardware count (or a count of 0) is used; otherwise the retry is used if it reports at least as many monitors, else the first answer |
| Windows.Closed | src-tauri/src/lib.rs:1001-1012 | only live labels are asked to close, never "main", and every live unexpected label other than "main" is |
| Windows.FailedCloseStaysOpen | src-tauri/src/lib.rs:1001-1012 | a window asked to close is still open afterwards iff its close failed, the error being ignored |
| Windows.CreatedBelowStep | src-tauri/src/lib.rs:944-999 | considering one more monitor creates its label iff it is neither live nor failed |
| Windows.CreatedAreExpected | src-tauri/src/lib.rs:944-999 | only expected, not yet live labels are created |
| Windows.ReconciledExactly | src-tauri/src/lib.rs:918-1035 | when no window creation and no close fails, the live set becomes the expected labels plus "main" if it was live |
| Windows.ReconcileKeepsExpected | src-tauri/src/lib.rs:918-1035 | a live expected window, and "main", are never closed, whatever fails |
| Windows.ReconcileIdempotent | src-tauri/src/lib.rs:918-1035 | when no window creation and no close fails, reconciling twice for the same monitors equals reconciling once |
| Windows.BeginFlagIsLowestBit | src-tauri/src/lib.rs:890-899 | a flag word with bit 0 set is a "begin" notification and one with bit 0 clear is not |
| Windows.WindowManager.constructor | src-tauri/src/lib.rs:927 | starts from the given live windows with no reconciliation recorded |
| Windows.WindowManager.SyncWindowsToMonitors | src-tauri/src/lib.rs:918-1035 | a failed monitor query changes nothing; otherwise the create loop and the close loop leave exactly `Reconciled`, failed creations and failed closes included, and the pass is recorded |
| Windows.WindowManager.CreateMissing | src-tauri/src/lib.rs:944-999 | the creation loop adds exactly the expected labels that were not live and did not fail |
| Windows.WindowManager.CloseRemoved | src-tauri/src/lib.rs:1001-1012 | the closing loop over the windows live before creation leaves exactly `Reconciled`: unexpected windows other than "main" are gone unless their close failed |
| Windows.WindowManager.OnDisplayReconfiguration | src-tauri/src/lib.rs:895-916 | a "begin" notification is ignored; any other one runs a reconciliation |
| Todos.Appended | src/stores/useTodoStore.ts:72 | earlier items unchanged, one new undone item at the end |
| Todos.Find | src/stores/useTodoStore.ts:85-86 | the first item with the id, or none iff no item has it |
| Todos.WithoutId | src/stores/useTodoStore.ts:116 | exactly the items whose id differs remain |
| Todos.WithoutIdAppend | src/stores/useTodoStore.ts:116 | filtering distributes over concatenation, so the order of the rest is kept |
| Todos.WithoutAbsentId | src/stores/useTodoStore.ts:116 | removing an absent id changes nothing |
| Todos.WithoutIdIdempotent | src/stores/useTodoStore.ts:114-125 | deleting twice equals deleting once |
| Todos.Retexted | src/stores/useTodoStore.ts:101-104 | same length, ids, done flags and order; only matching items get the new text |
| Todos.RetextedProperties | src/stores/useTodoStore.ts:101-112 | editing twice equals editing once; editing an absent id changes nothing |
| Todos.DoneItems | src/stores/useTodoStore.ts:129 | exactly the done items |
| Todos.ActiveItems | src/stores/useTodoStore.ts:127-131 | exactly the items not done |
| Todos.ActiveAndDoneSplit | src/stores/useTodoStore.ts:127-131 | active and done items together are a permutation of the list |
| Todos.Reordered | src/stores/useTodoStore.ts:127-131 | the reordered list followed by the done items in their original order |
| Todos.ReorderIsPermutation | src/stores/useTodoStore.ts:127-131 | reordering a permutation of the active items gives a permutation of the whole list |
| Todos.WithoutIdOfOne | src/stores/useTodoStore.ts:89 | filtering out the only item's id leaves nothing |
| Todos.ToggleRemovesItem | src/stores/useTodoStore.ts:83-99 | completing a present item removes every item with its id and keeps the items before and after it in order |
| Todos.TodoStore.constructor | src/stores/useTodoStore.ts:30-35 | empty list, empty title and input, nothing pending or sent |
| Todos.TodoStore.SetTodos | src/stores/useTodoStore.ts:37 | only the list changes |
| Todos.TodoStore.SetTitle | src/stores/useTodoStore.ts:38 | only the title changes |
| Todos.TodoStore.SetNewText | src/stores/useTodoStore.ts:39 | only the input text changes |
| Todos.TodoStore.Commit | src/stores/useTodoStore.ts:72-80 | the list is set and its save replaces any pending one |
| Todos.TodoStore.AddTodo | src/stores/useTodoStore.ts:67-81 | blank input changes nothing; otherwise the trimmed text is appended undone, the input is cleared and a save is queued |
| Todos.TodoStore.ToggleDone | src/stores/useTodoStore.ts:83-99 | an absent id changes nothing; otherwise the item is removed, a save is queued and `add_completed` is sent with its text |
| Todos.TodoStore.UpdateText | src/stores/useTodoStore.ts:101-112 | the list becomes `Retexted` and a save is queued |
| Todos.TodoStore.DeleteTodo | src/stores/useTodoStore.ts:114-125 | the list becomes `WithoutId` and a save is queued |
| Todos.TodoStore.ReorderTodos | src/stores/useTodoStore.ts:127-139 | the list becomes `Reordered` and a save is queued |
| Todos.TodoStore.UpdateTitle | src/stores/useTodoStore.ts:141-149 | the title is set and its save replaces any pending one; the list is untouched |
| Todos.TodoStore.FireTodosTimer | src/stores/useTodoStore.ts:77-79 | the pending list save, if any, is sent and nothing else changes |
| Todos.TodoStore.FireTitleTimer | src/stores/useTodoStore.ts:147 | the pending title save, if any, is sent and nothing else changes |
| Todos.DebouncedEdits | src/stores/useTodoStore.ts:101-125 | two edits before the timer fires send one save holding the result of both |
| Timers.GetTimer | src/stores/useTimerStore.ts:46-48 | the stored timer, or the all-zero stopped default |
| Timers.Patched | src/stores/useTimerStore.ts:55 | each patched field takes the patch's value, each other field keeps the timer's |
| Timers.UpdateTimer | src/stores/useTimerStore.ts:50-56 | the entry for the id is the patched timer; every other entry is unchanged |
| Timers.UpdateThenGet | src/stores/useTimerStore.ts:46-56 | reading after an update gives the patched timer for that id and the old one for others; an empty patch changes nothing |
| Timers.PatchesCompose | src/stores/useTimerStore.ts:50-56 | two patches in a row equal one patch where the later fields win |
| Timers.PresetDecomposition | src/stores/useTimerStore.ts:119-128 | for a non-negative preset, minutes and seconds are below 60 and 3600h + 60m + s is the preset |
| Timers.NegativePresetExample | src/stores/useTimerStore.ts:119-128 | a preset of -1 gives -1 h, -1 min, -1 s, which does not total -1 |
| Timers.Ticked | src/stores/useTimerStore.ts:130-169 | with more than 1 s left exactly one second is taken off; otherwise the timer stops at 0 without a handle; h/m/s and flashing are kept |
| Timers.Countdown | src/stores/useTimerStore.ts:130-169 | k ticks from r seconds leave r - k while k < r, and stop the timer at 0 after r ticks |
| Timers.TickIsLocal | src/stores/useTimerStore.ts:130-169 | ticking one desktop leaves every other desktop's timer unchanged |
| Timers.TimerStore.constructor | src/stores/useTimerStore.ts:58-60 | no timers, desktop 0, no intervals, no notifications |
| Timers.TimerStore.SetActiveDesktop | src/stores/useTimerStore.ts:62 | only the active desktop changes |
| Timers.TimerStore.GetActiveTimer | src/stores/useTimerStore.ts:64-67 | the active desktop's timer, or the default |
| Timers.TimerStore.Update | src/stores/useTimerStore.ts:50-56 | the timers become `UpdateTimer` of the old ones |
| Timers.TimerStore.SetHours | src/stores/useTimerStore.ts:69-72 | only the active timer's hours change |
| Timers.TimerStore.SetMinutes | src/stores/useTimerStore.ts:73-76 | only the active timer's minutes change |
| Timers.TimerStore.SetSeconds | src/stores/useTimerStore.ts:77-80 | only the active timer's seconds change |
| Timers.TimerStore.SetFlashing | src/stores/useTimerStore.ts:81-84 | only the active timer's flashing flag changes |
| Timers.TimerStore.StartTimer | src/stores/useTimerStore.ts:86-104 | a total of 0 or less changes nothing; otherwise the active timer runs with `remaining` = the total and the new interval belongs to it |
| Timers.TimerStore.CancelTimer | src/stores/useTimerStore.ts:106-117 | the active timer stops at 0 with no handle, keeping h/m/s; its interval, if any, is cleared |
| Timers.TimerStore.PopulateFromPreset | src/stores/useTimerStore.ts:119-128 | the active timer's h/m/s become the preset's floor quotients and truncated remainders |
| Timers.TimerStore.Tick | src/stores/useTimerStore.ts:130-169 | more than 1 s left: one second off; otherwise stopped at 0, interval cleared, flashing if asked, one notification when asked and permitted; only the ticked desktop changes |
| Timers.TimerStore.EndFlash | src/stores/useTimerStore.ts:158-162 | only that desktop's flashing flag is cleared |
| SnapPosition.RoundHalf | src/snapPosition.ts:33 | `Math.round(n / 2)`: half of n, halves rounding up |
| SnapPosition.Clamp | src/snapPosition.ts:43-44 | the result is at least the lower bound, at most the upper one when they do not cross, and v itself when in range |
| SnapPosition.HorizontalOf | src/snapPosition.ts:31-34 | left iff the anchor contains "left"; centre iff it contains "center" but not "left"; right otherwise |
| SnapPosition.VerticalOf | src/snapPosition.ts:37-40 | top iff the anchor starts with "top"; middle iff it starts with "middle" and not "top"; bottom otherwise |
| SnapPosition.CalculateSnapPosition | src/snapPosition.ts:22-47 | x ≥ monitor x and y ≥ monitor y + menu bar; the window's right and bottom edges stay on the monitor whenever it fits |
| SnapPosition.AnchorChoicesDecide | src/snapPosition.ts:30-40 | two anchors with the same horizontal and vertical choice give the same position |
| SnapPosition.TopRightRoomy | src/snapPosition.ts:31-44 | with room, top right is inset by the padding from the right edge and sits just below the menu bar |
| SnapPosition.BottomLeftRoomy | src/snapPosition.ts:31-44 | with room, bottom left is inset by the padding from the left and bottom edges |
| SnapPosition.MiddleCenterRoomy | src/snapPosition.ts:31-44 | with room, middle centre is at half the leftover width and height |
| SnapPosition.TopRightAnchor | src/snapPosition.ts:30-40 | "top-right" reads as right and top |
| SnapPosition.BottomLeftAnchor | src/snapPosition.ts:30-40 | "bottom-left" reads as left and bottom |
| SnapPosition.MiddleCenterAnchor | src/snapPosition.ts:30-40 | "middle-center" reads as centre and middle |
| SnapPosition.TestCases | src/snapPosition.test.mjs:48-87 | the four test cases: (2412, 50) on the Retina monitor, (3040, 844) on the external one, (1222, 762) centred, and a clamped top right that stays on a tiny monitor |
| Utils.Pad2 | src/utils.ts:55-58 | numbers 0 … 9 get a leading "0"; any other number is rendered as is |
| Utils.Pad2Digits | src/utils.ts:55-58 | a padded number below 100 is exactly two digits that read back as the number |
| Utils.CountdownFields | src/utils.ts:55-58 | below 100 hours the hour, minute and second fields are in range and recombine to the total |
| Utils.FormatCountdownRoundTrip | src/utils.ts:54-59 | below 100 hours the clock is 8 characters "hh:mm:ss" of digits and parses back to the total |
| Utils.FormatCountdownLong | src/utils.ts:54-59 | from 100 hours on the clock is longer than 8 characters |
| Utils.FormatCountdownNegative | src/utils.ts:54-59 | -1 s renders as "-1:-1:-1" |
| Utils.FriendlyMonitorName | src/utils.ts:32-36 | a missing or empty name, or one that is an identifier once trimmed, becomes "Screen index+1"; any other name is shown untrimmed |
| Utils.FriendlyNameShape | src/utils.ts:32-36 | the name shown is never empty, and a name passed through is blank or has a character outside '#', hex digits and '-' |
| Utils.BlankNameShown | src/utils.ts:32-36 | a name of blanks is shown unchanged |
| Utils.PaddedHexNameReplaced | src/utils.ts:32-36 | " 1E-4A " at index 1 becomes "Screen 2" |
| Utils.UnpaddedNameShown | src/utils.ts:32-36 | a name with no white space at either end and a character outside the identifier alphabet is shown as it is |
| Utils.ScreenNames | src/utils.ts:33 | the second and third monitors are "Screen 2" and "Screen 3" |
| Utils.ProductNameShown | src/utils.ts:32-36 | "DELL U2720Q" is shown as is; no name at index 2 gives "Screen 3" |
| Utils.FormatPreset | src/utils.ts:48-52 | "h" from 3600 s, "m" from 60 s, "s" below that; exact multiples show the quotient; other presets give no integer label |
| Utils.FormatPresetRoundTrip | src/utils.ts:48-52 | every integer label reads back as its preset |
| Utils.DefaultPresetLabels | src/utils.ts:48-52 | the default presets read "1m", "5m" and "10m" |
| Common.NatToString | src-tauri/src/lib.rs:440 | non-empty digits, a single digit iff below 10, no leading zero |
| Common.DecimalValueOfNatToString | src/utils.ts:54-59 | a rendered number reads back as itself |
| Common.NatToStringInjective | src-tauri/src/lib.rs:440 | distinct numbers render differently |
| Common.IndexOf | src-tauri/src/lib.rs:567-568 | the first index of the value, or none iff it is absent |
| Common.JsRem | src/stores/useTimerStore.ts:124-125 | JavaScript `%`: below the divisor in size and with the sign of the dividend |
| Common.FloorDiv | src/stores/useTimerStore.ts:123-124 | `Math.floor(a / b)`: the largest r with r·b ≤ a |
| Common.Trim | src/utils.ts:34 | the input with only whitespace removed from both ends, and no whitespace left at either end |
| Common.TrimEmptyIffBlank | src/stores/useTodoStore.ts:69-70 | trimming leaves nothing iff the text is all whitespace |

## Left out

- macOS calls: the CGS space queries, CoreFoundation dictionaries, the
  Accessibility API and window-chrome hiding. Their answers are the
  `Snapshot` parameter. The connection-0 and null-array cases are `None`.
- `osascript` key presses and every sleep: the 300 ms per switch step, the
  500 ms monitor retry and the 500 ms settle delay. A switch is modelled as
  the list of key codes it would send.
- JSON file I/O: parsing is a `parsed: Option<PersistData>` parameter, and
  writing is `disk := Some(data)`. A failed or racing write is not modelled.
- The `Mutex`, observer threads, the run loop, the space-change listener and
  the global app handle. Each command runs as one atomic step.
- `Views.GetDesktop`: the source queries the current space and the space
  list separately. The model reads both from one `Snapshot`, so a change in
  between is not modelled.
- `Switcher.SwitchDesktop` and `Switcher.SwitchSteps`: `switch_desktop` also
  queries the current space and the space list separately. Both are read
  from one `Snapshot`, so a change in between is not modelled.
- Window positioning in `sync_windows_to_monitors` (float division by the
  scale factor) and window building. A window is its label.
- `Windows.WindowManager.SyncWindowsToMonitors`: which window creations fail
  is the `failed` parameter, which closes report an error (ignored by the
  source, so the window stays open) is the `closeFailed` parameter, and the
  monitor query is the `monitors` parameter.
- `SnapPosition.CalculateSnapPosition`: the padding and menu-bar height are
  parameters, already rounded from 16 and 25 times the scale factor. Float
  coordinates are not modelled.
- The tray menu, auto-start, updater, feedback and `get_settings` plumbing.
- `Commands.Rekey`: the source iterates a `HashMap` in unspecified order. The
  model picks keys in any order. Equality with the fold `Store.Rekeyed` is
  proved only when the live space ids are distinct; when ids repeat, which
  entry wins depends on the order and is not fixed. `Commands.MigrateV0ToV1`
  then states the keys and that each value comes from some position with
  that id, but not which one.
- `Switcher.SwitchSteps`: positions are unbounded integers. The source's
  `as i32` casts are not modelled, so lists longer than 2^31 are out of
  scope.
- `Views.DesktopName`: `position + 1` on `u32` would overflow at 2^32
  desktops. The model does not wrap.
- `Utils.FormatPreset`: a preset that is not a whole multiple renders a
  JavaScript float ("1.5m"). The model returns `None` for it instead of a
  label.
- `Timers.TimerStore.Tick`: the asynchronous permission check and request is
  the `granted` parameter. The 1.5 s flash timeout is the separate
  `EndFlash` action, and sending a notification is appending `TimerDone`.
- `Timers.TimerStore.StartTimer`: `setInterval` is the `handle` parameter,
  and an interval is recorded in `intervals`. As written, the source does not
  clear a timer's earlier interval when it starts again. The model keeps
  that. The interval captures the `notifySystem` and `notifyFlash` flags
  given at start; `intervals` records only the desktop, and `Tick` takes
  the flags as parameters, so the model does not tie a tick to its
  interval's flags.
- The todo store's 300 ms debounce timers are pending-request fields, fired
  by `FireTodosTimer`/`FireTitleTimer`. `loadTodos`/`loadTitle` are
  `SetTodos`/`SetTitle` with the result of `Store.GetTodos`/`Store.GetTitle`.
- Fresh uuids and timestamps (`crypto.randomUUID`, `uuid`, `chrono`) are
  parameters.
- The React components, `useUIStore`, `useSettingsStore`, `useDesktopStore`,
  `useHistoryStore`, `theme.ts`, `detectColorMode`, `formatRelativeTime` and
  `loadAnchor`/`saveAnchor`. These are UI, float colour maths, or clock and
  storage access.
