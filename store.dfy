/** The versioned desktop-state aggregate (`PersistData`) and, as pure
    transitions on it, what each state command does. The class in module
    Commands applies these transitions in place. */
module Store {
  import opened Common
  import Spaces

  // ── Data model ───────────────────────────────────────────────

  /** One entry of a desktop's session history. */
  datatype SavedContext = SavedContext(title: string, todos: seq<TodoItem>, savedAt: string)

  /** A todo archived when it was ticked off. */
  datatype CompletedItem = CompletedItem(id: string, text: string, desktopId: int, completedAt: string)

  datatype Settings = Settings(
    customColors: map<int, string>,
    setupComplete: bool,
    desktopCount: u32,
    timerPresets: seq<u32>,
    notifySystem: bool,
    notifyFlash: bool,
    hiddenPanels: seq<string>)

  /** The root aggregate, keyed by space id. */
  datatype PersistData = PersistData(
    notes: map<int, seq<TodoItem>>,
    titles: map<int, string>,
    settings: Settings,
    version: u32,
    contextHistory: map<int, seq<SavedContext>>,
    completed: seq<CompletedItem>)

  /** Histories keep at most this many entries per desktop. */
  const MAX_HISTORY_PER_DESKTOP: nat := 20

  function DefaultSettings(): (s: Settings)
    ensures s.customColors == map[] && !s.setupComplete && s.desktopCount == 10
    ensures s.timerPresets == [60, 300, 600] && s.notifySystem && s.notifyFlash && s.hiddenPanels == []
  {
    Settings(map[], false, 10, [60, 300, 600], true, true, [])
  }

  function DefaultPersistData(): (d: PersistData)
    ensures d.notes == map[] && d.titles == map[] && d.contextHistory == map[] && d.completed == []
    ensures d.version == 0 && d.settings == DefaultSettings()
  {
    PersistData(map[], map[], DefaultSettings(), 0, map[], [])
  }

  /** `load_data`: the parsed file, or the default aggregate when the file
      could not be read or parsed (`parsed` is None). */
  function LoadData(parsed: Option<PersistData>): (d: PersistData)
    ensures parsed.Some? ==> d == parsed.value
    ensures parsed.None? ==> d.version == 0 && d.notes == map[] && d.titles == map[] && d.settings == DefaultSettings()
  {
    parsed.GetOr(DefaultPersistData())
  }

  // ── Reads ────────────────────────────────────────────────────

  /** `get_todos`: the stored list, or the empty list for an unknown desktop. */
  function GetTodos(d: PersistData, desktop: int): (r: seq<TodoItem>)
    ensures desktop in d.notes ==> r == d.notes[desktop]
    ensures desktop !in d.notes ==> r == []
  {
    if desktop in d.notes then d.notes[desktop] else []
  }

  /** `get_title`: the stored title, or "" for an unknown desktop. */
  function GetTitle(d: PersistData, desktop: int): (r: string)
    ensures desktop in d.titles ==> r == d.titles[desktop]
    ensures desktop !in d.titles ==> r == ""
  {
    if desktop in d.titles then d.titles[desktop] else ""
  }

  function HistoryOf(d: PersistData, desktop: int): seq<SavedContext> {
    if desktop in d.contextHistory then d.contextHistory[desktop] else []
  }

  // ── Per-desktop writes ───────────────────────────────────────

  /** `save_todos`: replaces the list of one desktop. */
  function SaveTodos(d: PersistData, desktop: int, todos: seq<TodoItem>): (r: PersistData)
    ensures r.notes.Keys == d.notes.Keys + {desktop}
    ensures forall k :: k in d.notes && k != desktop ==> r.notes[k] == d.notes[k]
    ensures r == d.(notes := r.notes)
  {
    d.(notes := d.notes[desktop := todos])
  }

  /** `save_title`: an empty title removes the entry instead of storing "". */
  function SaveTitle(d: PersistData, desktop: int, title: string): (r: PersistData)
    ensures title == "" ==> desktop !in r.titles && r.titles == d.titles - {desktop}
    ensures title != "" ==> r.titles == d.titles[desktop := title]
    ensures r == d.(titles := r.titles)
  {
    if title == "" then d.(titles := d.titles - {desktop})
    else d.(titles := d.titles[desktop := title])
  }

  /** `save_color`: a custom colour for one desktop. */
  function SaveColor(d: PersistData, desktop: int, color: string): (r: PersistData)
    ensures r.settings.customColors.Keys == d.settings.customColors.Keys + {desktop}
    ensures r.settings.customColors[desktop] == color
    ensures forall k :: k in d.settings.customColors && k != desktop ==>
      r.settings.customColors[k] == d.settings.customColors[k]
    ensures r == d.(settings := d.settings.(customColors := r.settings.customColors))
  {
    d.(settings := d.settings.(customColors := d.settings.customColors[desktop := color]))
  }

  /** Reading a desktop's todos after saving them gives the saved list, and
      no other desktop's list changes. */
  lemma SaveThenGetTodos(d: PersistData, desktop: int, todos: seq<TodoItem>, other: int)
    ensures GetTodos(SaveTodos(d, desktop, todos), desktop) == todos
    ensures other != desktop ==> GetTodos(SaveTodos(d, desktop, todos), other) == GetTodos(d, other)
  {
  }

  /** Reading a title after saving it gives the saved title, even when it was
      empty and so was removed. */
  lemma SaveThenGetTitle(d: PersistData, desktop: int, title: string, other: int)
    ensures GetTitle(SaveTitle(d, desktop, title), desktop) == title
    ensures other != desktop ==> GetTitle(SaveTitle(d, desktop, title), other) == GetTitle(d, other)
  {
  }

  /** The store never holds an empty title. */
  ghost predicate NoEmptyTitles(d: PersistData) {
    forall k :: k in d.titles ==> d.titles[k] != ""
  }

  lemma SaveTitleKeepsNoEmptyTitles(d: PersistData, desktop: int, title: string)
    requires NoEmptyTitles(d)
    ensures NoEmptyTitles(SaveTitle(d, desktop, title))
  {
  }

  // ── Themes ───────────────────────────────────────────────────

  /** The custom colours `apply_theme` builds from the first `n` enumerated
      spaces: starting empty, space i gets `colors[i]` when i < |colors|. */
  function Themed(spaces: seq<Spaces.Space>, colors: seq<string>, n: nat): map<int, string>
    requires n <= |spaces|
  {
    if n == 0 then map[]
    else
      var acc := Themed(spaces, colors, n - 1);
      if n - 1 < |colors| then acc[spaces[n - 1].id := colors[n - 1]] else acc
  }

  /** `apply_theme`: clears every custom colour, then colours the enumerated
      spaces in order from `colors`. */
  function ApplyTheme(d: PersistData, spaces: seq<Spaces.Space>, colors: seq<string>): (r: PersistData)
    ensures r == d.(settings := d.settings.(customColors := r.settings.customColors))
  {
    d.(settings := d.settings.(customColors := Themed(spaces, colors, |spaces|)))
  }

  predicate DistinctIds(spaces: seq<Spaces.Space>) {
    forall i, j :: 0 <= i < j < |spaces| ==> spaces[i].id != spaces[j].id
  }

  /** The themed keys are exactly the ids of the first min(n, |colors|)
      spaces; with distinct ids, space i gets `colors[i]`. */
  lemma {:induction false} ThemedContents(spaces: seq<Spaces.Space>, colors: seq<string>, n: nat)
    requires n <= |spaces|
    ensures Themed(spaces, colors, n).Keys == set i | 0 <= i < n && i < |colors| :: spaces[i].id
    ensures DistinctIds(spaces) ==>
      forall i :: 0 <= i < n && i < |colors| ==> Themed(spaces, colors, n)[spaces[i].id] == colors[i]
    decreases n
  {
    if n > 0 {
      ThemedContents(spaces, colors, n - 1);
      var before := set i | 0 <= i < n - 1 && i < |colors| :: spaces[i].id;
      var after := set i | 0 <= i < n && i < |colors| :: spaces[i].id;
      if n - 1 < |colors| {
        assert after == before + {spaces[n - 1].id};
      } else {
        assert after == before;
      }
    }
  }

  // ── Clearing ─────────────────────────────────────────────────

  /** `clear_all_data`: empties the todos, the titles and the custom
      colours; history, completed items, version and the other settings
      stay as they were. */
  function ClearAllData(d: PersistData): (r: PersistData)
    ensures r.notes == map[] && r.titles == map[] && r.settings.customColors == map[]
    ensures r.contextHistory == d.contextHistory && r.completed == d.completed && r.version == d.version
    ensures r.settings == d.settings.(customColors := map[])
  {
    d.(notes := map[], titles := map[], settings := d.settings.(customColors := map[]))
  }

  // ── Session rotation ─────────────────────────────────────────

  /** The desktops `start_new_session` looks at: any with todos or a title. */
  function SessionIds(d: PersistData): set<int> {
    d.notes.Keys + d.titles.Keys
  }

  /** `order` lists every element of `s` exactly once (the order in which a
      hash set of the ids is collected into a vector). */
  predicate ListsOnce(order: seq<int>, s: set<int>) {
    (forall i, j :: 0 <= i < j < |order| ==> order[i] != order[j]) &&
    (forall k :: k in order ==> k in s) && (forall k :: k in s ==> k in order)
  }

  /** A desktop is snapshotted unless both its title and its list are empty. */
  predicate HasContent(d: PersistData, desktop: int) {
    GetTitle(d, desktop) != "" || GetTodos(d, desktop) != []
  }

  function SnapshotOf(d: PersistData, desktop: int, now: string): SavedContext {
    SavedContext(GetTitle(d, desktop), GetTodos(d, desktop), now)
  }

  /** Drops the oldest entries so that at most 20 remain. */
  function CapHistory(h: seq<SavedContext>): (r: seq<SavedContext>)
    ensures |r| == if |h| > MAX_HISTORY_PER_DESKTOP then MAX_HISTORY_PER_DESKTOP else |h|
    ensures r == h[|h| - |r|..]
  {
    if |h| > MAX_HISTORY_PER_DESKTOP then h[|h| - MAX_HISTORY_PER_DESKTOP..] else h
  }

  /** The history `desktop` ends up with when it is snapshotted once. */
  function Pushed(d: PersistData, desktop: int, now: string): seq<SavedContext> {
    CapHistory(HistoryOf(d, desktop) + [SnapshotOf(d, desktop, now)])
  }

  /** Visiting one desktop: with content, its snapshot is pushed onto its
      entry of `m` (created empty when missing), which is then capped. */
  function Visit(d: PersistData, now: string, m: map<int, seq<SavedContext>>, k: int): map<int, seq<SavedContext>> {
    if HasContent(d, k) then m[k := CapHistory((if k in m then m[k] else []) + [SnapshotOf(d, k, now)])] else m
  }

  /** The history map after visiting the desktops of `order` in turn. */
  function Rotated(d: PersistData, now: string, order: seq<int>): map<int, seq<SavedContext>> {
    if order == [] then d.contextHistory
    else Visit(d, now, Rotated(d, now, order[..|order| - 1]), order[|order| - 1])
  }

  /** One more desktop visited: the fold's step, in terms of prefixes. */
  lemma RotatedStep(d: PersistData, now: string, order: seq<int>, i: nat)
    requires i < |order|
    ensures Rotated(d, now, order[..i + 1]) == Visit(d, now, Rotated(d, now, order[..i]), order[i])
  {
    assert order[..i + 1][..i] == order[..i];
  }

  /** `start_new_session`: every desktop with content gets a snapshot,
      visited in `order` (any listing of the desktops with todos or a
      title); then all todos and titles are cleared. */
  function StartNewSession(d: PersistData, now: string, order: seq<int>): (r: PersistData)
    requires ListsOnce(order, SessionIds(d))
    ensures r.notes == map[] && r.titles == map[]
    ensures r.settings == d.settings && r.completed == d.completed && r.version == d.version
  {
    d.(contextHistory := Rotated(d, now, order), notes := map[], titles := map[])
  }

  /** What visiting a list of distinct desktops does to each history: those
      visited with content hold their old history plus the snapshot, capped;
      all others keep theirs, and no other entry appears. */
  lemma {:induction false} RotatedContents(d: PersistData, now: string, order: seq<int>)
    requires forall i, j :: 0 <= i < j < |order| ==> order[i] != order[j]
    ensures forall k :: k in Rotated(d, now, order) <==>
      k in d.contextHistory || (k in order && HasContent(d, k))
    ensures forall k :: k in order && HasContent(d, k) ==> Rotated(d, now, order)[k] == Pushed(d, k, now)
    ensures forall k :: k in d.contextHistory && !(k in order && HasContent(d, k)) ==>
      Rotated(d, now, order)[k] == d.contextHistory[k]
    decreases |order|
  {
    if order != [] {
      var init := order[..|order| - 1];
      var last := order[|order| - 1];
      RotatedContents(d, now, init);
      assert forall k :: k in order <==> k in init || k == last;
      assert last !in init;
    }
  }

  /** What rotation does to one desktop's history: with content, the old
      history plus the snapshot, oldest dropped beyond 20; without content,
      unchanged (and still absent if it was). */
  lemma RotationHistory(d: PersistData, now: string, order: seq<int>, k: int)
    requires ListsOnce(order, SessionIds(d))
    ensures HasContent(d, k) ==> k in StartNewSession(d, now, order).contextHistory
    ensures HasContent(d, k) ==> HistoryOf(StartNewSession(d, now, order), k) == Pushed(d, k, now)
    ensures !HasContent(d, k) ==> HistoryOf(StartNewSession(d, now, order), k) == HistoryOf(d, k)
    ensures !HasContent(d, k) && k !in d.contextHistory ==> k !in StartNewSession(d, now, order).contextHistory
  {
    RotatedContents(d, now, order);
    if HasContent(d, k) {
      assert k in SessionIds(d);
    }
  }

  /** The order in which the desktops are visited does not matter. */
  lemma RotationOrderIrrelevant(d: PersistData, now: string, o1: seq<int>, o2: seq<int>)
    requires ListsOnce(o1, SessionIds(d)) && ListsOnce(o2, SessionIds(d))
    ensures StartNewSession(d, now, o1) == StartNewSession(d, now, o2)
  {
    RotatedContents(d, now, o1);
    RotatedContents(d, now, o2);
    var a := Rotated(d, now, o1);
    var b := Rotated(d, now, o2);
    forall k
      ensures k in a <==> k in b
    {
      assert k in o1 <==> k in SessionIds(d);
      assert k in o2 <==> k in SessionIds(d);
    }
    assert a.Keys == b.Keys;
    forall k | k in a
      ensures a[k] == b[k]
    {
    }
    assert a == b;
  }

  /** The history cap holds after every rotation: no history grows past 20
      when none was past 20 before. */
  ghost predicate HistoriesCapped(d: PersistData) {
    forall k :: k in d.contextHistory ==> |d.contextHistory[k]| <= MAX_HISTORY_PER_DESKTOP
  }

  lemma RotationKeepsCap(d: PersistData, now: string, order: seq<int>)
    requires HistoriesCapped(d)
    requires ListsOnce(order, SessionIds(d))
    ensures HistoriesCapped(StartNewSession(d, now, order))
  {
    var r := StartNewSession(d, now, order);
    forall k | k in r.contextHistory
      ensures |r.contextHistory[k]| <= MAX_HISTORY_PER_DESKTOP
    {
      RotationHistory(d, now, order, k);
    }
  }

  /** Appending to a history of min(n, 20) entries and capping it gives
      min(n + 1, 20) entries: the new one last, after the newest old ones. */
  lemma CapAfterPush(h: seq<SavedContext>, x: SavedContext, n: nat)
    requires |h| == if n < MAX_HISTORY_PER_DESKTOP then n else MAX_HISTORY_PER_DESKTOP
    ensures var c := CapHistory(h + [x]);
      && |c| == (if n + 1 < MAX_HISTORY_PER_DESKTOP then n + 1 else MAX_HISTORY_PER_DESKTOP)
      && c[|c| - 1] == x
      && c[..|c| - 1] == h[|h| + 1 - |c|..]
  {
    var c := CapHistory(h + [x]);
    assert c[..|c| - 1] == (h + [x])[|h| + 1 - |c|..|h|];
  }

  /** The snapshot is the newest entry, and the entries before it are the
      newest ones of the old history: after N rotations with content a
      history holds min(N, 20) entries. */
  lemma RotationNewestKept(d: PersistData, now: string, order: seq<int>, k: int, n: nat)
    requires ListsOnce(order, SessionIds(d))
    requires HasContent(d, k)
    requires |HistoryOf(d, k)| == if n < MAX_HISTORY_PER_DESKTOP then n else MAX_HISTORY_PER_DESKTOP
    ensures var h := HistoryOf(StartNewSession(d, now, order), k);
      && |h| == (if n + 1 < MAX_HISTORY_PER_DESKTOP then n + 1 else MAX_HISTORY_PER_DESKTOP)
      && h[|h| - 1] == SavedContext(GetTitle(d, k), GetTodos(d, k), now)
      && h[..|h| - 1] == HistoryOf(d, k)[|HistoryOf(d, k)| + 1 - |h|..]
  {
    RotationHistory(d, now, order, k);
    CapAfterPush(HistoryOf(d, k), SnapshotOf(d, k, now), n);
  }

  // ── Restoring ────────────────────────────────────────────────

  /** `restore_context`: copies history entry `index` of `desktop` back into
      its todos and title (an empty title removes the entry). A missing
      desktop or index gives false and leaves the aggregate unchanged. */
  function RestoreContext(d: PersistData, desktop: int, index: nat): (r: (bool, PersistData))
    ensures !r.0 <==> (desktop !in d.contextHistory || index >= |d.contextHistory[desktop]|)
    ensures !r.0 ==> r.1 == d
    ensures r.0 ==> var saved := d.contextHistory[desktop][index];
      && r.1.notes == d.notes[desktop := saved.todos]
      && r.1 == SaveTitle(d, desktop, saved.title).(notes := r.1.notes)
  {
    if desktop !in d.contextHistory || index >= |d.contextHistory[desktop]| then (false, d)
    else
      var saved := d.contextHistory[desktop][index];
      (true, SaveTitle(d.(notes := d.notes[desktop := saved.todos]), desktop, saved.title))
  }

  /** A successful restore makes the saved entry the desktop's current
      todos and title. */
  lemma RestoreThenGet(d: PersistData, desktop: int, index: nat)
    requires desktop in d.contextHistory && index < |d.contextHistory[desktop]|
    ensures var saved := d.contextHistory[desktop][index];
      && RestoreContext(d, desktop, index).0
      && GetTodos(RestoreContext(d, desktop, index).1, desktop) == saved.todos
      && GetTitle(RestoreContext(d, desktop, index).1, desktop) == saved.title
  {
  }

  /** Rotation followed by restoring the newest entry brings back the
      desktop's todos and title as they were before the rotation. */
  lemma RotateThenRestore(d: PersistData, now: string, order: seq<int>, k: int)
    requires ListsOnce(order, SessionIds(d))
    requires HasContent(d, k)
    ensures var r := StartNewSession(d, now, order);
      && k in r.contextHistory
      && var last := |r.contextHistory[k]| - 1;
      && last >= 0
      && RestoreContext(r, k, last).0
      && GetTodos(RestoreContext(r, k, last).1, k) == GetTodos(d, k)
      && GetTitle(RestoreContext(r, k, last).1, k) == GetTitle(d, k)
  {
    var r := StartNewSession(d, now, order);
    RotationHistory(d, now, order, k);
    CapKeepsNewest(HistoryOf(d, k), SnapshotOf(d, k, now));
    RestoreNewest(r, k, SnapshotOf(d, k, now));
  }

  /** Restoring a desktop's newest entry brings back that entry. */
  lemma RestoreNewest(r: PersistData, k: int, s: SavedContext)
    requires k in r.contextHistory && |r.contextHistory[k]| >= 1
    requires r.contextHistory[k][|r.contextHistory[k]| - 1] == s
    ensures var last := |r.contextHistory[k]| - 1;
      && RestoreContext(r, k, last).0
      && GetTodos(RestoreContext(r, k, last).1, k) == s.todos
      && GetTitle(RestoreContext(r, k, last).1, k) == s.title
  {
    RestoreThenGet(r, k, |r.contextHistory[k]| - 1);
  }

  /** Capping after a push never drops the entry just pushed. */
  lemma CapKeepsNewest(h: seq<SavedContext>, x: SavedContext)
    ensures var c := CapHistory(h + [x]);
      |c| >= 1 && c[|c| - 1] == x
  {
    assert (h + [x])[|h|] == x;
  }

  lemma RestoreKeepsNoEmptyTitles(d: PersistData, desktop: int, index: nat)
    requires NoEmptyTitles(d)
    ensures NoEmptyTitles(RestoreContext(d, desktop, index).1)
  {
  }

  // ── Migration v0 → v1 ────────────────────────────────────────

  /** The map `pos_to_sid`: global position → space id. */
  function PositionToId(spaces: seq<Spaces.Space>): (m: map<int, int>)
    ensures forall p :: p in m <==> 0 <= p < |spaces|
    ensures forall p :: 0 <= p < |spaces| ==> m[p] == spaces[p].id
  {
    map p | 0 <= p < |spaces| :: spaces[p].id
  }

  /** The re-keyed map built from positions 0..n-1, later positions winning
      when two spaces share an id. */
  function RekeyedUpTo<V>(m: map<int, V>, spaces: seq<Spaces.Space>, n: nat): map<int, V>
    requires n <= |spaces|
  {
    if n == 0 then map[]
    else
      var acc := RekeyedUpTo(m, spaces, n - 1);
      if n - 1 in m then acc[spaces[n - 1].id := m[n - 1]] else acc
  }

  function Rekeyed<V>(m: map<int, V>, spaces: seq<Spaces.Space>): map<int, V> {
    RekeyedUpTo(m, spaces, |spaces|)
  }

  /** The new keys are the ids at the m keys' positions; keys with no
      such position are dropped; with distinct ids every surviving value
      sits under the id of its m position. */
  lemma {:induction false} RekeyedContents<V>(m: map<int, V>, spaces: seq<Spaces.Space>, n: nat)
    requires n <= |spaces|
    ensures RekeyedUpTo(m, spaces, n).Keys == set p | 0 <= p < n && p in m :: spaces[p].id
    ensures DistinctIds(spaces) ==>
      forall p :: 0 <= p < n && p in m ==> RekeyedUpTo(m, spaces, n)[spaces[p].id] == m[p]
    decreases n
  {
    if n > 0 {
      RekeyedContents(m, spaces, n - 1);
      var before := set p | 0 <= p < n - 1 && p in m :: spaces[p].id;
      var after := set p | 0 <= p < n && p in m :: spaces[p].id;
      if n - 1 in m {
        assert after == before + {spaces[n - 1].id};
      } else {
        assert after == before;
      }
    }
  }

  /** `migrate_v0_to_v1`: from version 0, re-keys notes, titles and custom
      colours from positions to space ids and sets version 1; from version
      1 on it changes nothing. */
  function Migrate(d: PersistData, spaces: seq<Spaces.Space>): (r: PersistData)
    ensures d.version >= 1 ==> r == d
    ensures r.version >= 1
    ensures d.version < 1 ==> r.version == 1
    ensures r.contextHistory == d.contextHistory && r.completed == d.completed
  {
    if d.version >= 1 then d
    else d.(notes := Rekeyed(d.notes, spaces),
            titles := Rekeyed(d.titles, spaces),
            settings := d.settings.(customColors := Rekeyed(d.settings.customColors, spaces)),
            version := 1)
  }

  /** Running the migration twice is the same as running it once, whatever
      the spaces are the second time. */
  lemma MigrateIdempotent(d: PersistData, spaces: seq<Spaces.Space>, later: seq<Spaces.Space>)
    ensures Migrate(Migrate(d, spaces), later) == Migrate(d, spaces)
  {
  }

  /** After migrating version-0 data, every key of notes, titles and custom
      colours is the id of an enumerated space whose position was a key. */
  lemma MigratedKeysAreLive(d: PersistData, spaces: seq<Spaces.Space>)
    requires d.version == 0
    ensures var r := Migrate(d, spaces);
      && r.notes.Keys == (set p | 0 <= p < |spaces| && p in d.notes :: spaces[p].id)
      && r.titles.Keys == (set p | 0 <= p < |spaces| && p in d.titles :: spaces[p].id)
      && r.settings.customColors.Keys == (set p | 0 <= p < |spaces| && p in d.settings.customColors :: spaces[p].id)
  {
    RekeyedContents(d.notes, spaces, |spaces|);
    RekeyedContents(d.titles, spaces, |spaces|);
    RekeyedContents(d.settings.customColors, spaces, |spaces|);
  }

  /** With distinct space ids, the todos stored under position p end up
      under the id of the space at position p. */
  lemma MigratedValues(d: PersistData, spaces: seq<Spaces.Space>, p: int)
    requires d.version == 0 && DistinctIds(spaces)
    requires 0 <= p < |spaces|
    ensures p in d.notes ==> GetTodos(Migrate(d, spaces), spaces[p].id) == d.notes[p]
    ensures p in d.titles ==> GetTitle(Migrate(d, spaces), spaces[p].id) == d.titles[p]
  {
    RekeyedContents(d.notes, spaces, |spaces|);
    RekeyedContents(d.titles, spaces, |spaces|);
  }

  /** The legacy example: notes {0: L, 5: M} with one space 555 at position
      0 become {555: L}, at version 1. */
  lemma MigrationExample(d: PersistData, l: seq<TodoItem>, m: seq<TodoItem>)
    requires d.version == 0 && d.notes == map[0 := l, 5 := m]
    ensures Migrate(d, [Spaces.Space(555, 0, 1)]).notes == map[555 := l]
    ensures Migrate(d, [Spaces.Space(555, 0, 1)]).version == 1
  {
    var spaces := [Spaces.Space(555, 0, 1)];
    RekeyedContents(d.notes, spaces, 1);
  }

  // ── Completed items ──────────────────────────────────────────

  /** `add_completed`: appends an archived item; its id and timestamp come
      from the caller (uuid and clock). */
  function AddCompleted(d: PersistData, text: string, desktopId: int, id: string, now: string): (r: PersistData)
    ensures r.completed == d.completed + [CompletedItem(id, text, desktopId, now)]
    ensures r == d.(completed := r.completed)
  {
    d.(completed := d.completed + [CompletedItem(id, text, desktopId, now)])
  }
}
