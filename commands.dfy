/** The application state behind the state commands: the aggregate held in
    memory and the copy last written to the data file. Every command that
    changes the aggregate writes it back, so after each of them the file
    holds exactly the in-memory state. */
module Commands {
  import opened Common
  import Spaces
  import Store

  // ── Migration ────────────────────────────────────────────────

  /** Collecting a hash set of ids into a vector: every element exactly
      once, in an order the model leaves unspecified. */
  method CollectIds(s: set<int>) returns (ids: seq<int>)
    ensures Store.ListsOnce(ids, s)
  {
    var pending := s;
    ids := [];
    while pending != {}
      invariant pending <= s
      invariant forall i, j :: 0 <= i < j < |ids| ==> ids[i] != ids[j]
      invariant forall k :: k in ids ==> k in s && k !in pending
      invariant forall k :: k in s ==> k in ids || k in pending
      decreases |pending|
    {
      var k := Pick(pending);
      ids := ids + [k];
      pending := pending - {k};
    }
  }

  /** Pushing onto a history and draining the oldest entries beyond 20. */
  method PushCapped(history: seq<Store.SavedContext>, entry: Store.SavedContext) returns (h: seq<Store.SavedContext>)
    ensures h == Store.CapHistory(history + [entry])
  {
    h := history + [entry];
    if |h| > Store.MAX_HISTORY_PER_DESKTOP {
      var excess := |h| - Store.MAX_HISTORY_PER_DESKTOP;
      h := h[excess..];
    }
  }

  /** A mapping that sends no two keys to the same value. */
  predicate Injective(mapping: map<int, int>) {
    forall a, b :: a in mapping && b in mapping && a != b ==> mapping[a] != mapping[b]
  }

  /** `rekey`: carries every entry whose key the mapping knows over to the
      mapped key and drops the others. Entries are visited in hash order
      (an arbitrary choice here); when two keys map to the same new key,
      whichever is visited last wins, so each value comes from some key
      mapped there, and with an injective mapping from exactly that key. */
  method Rekey<V>(m: map<int, V>, mapping: map<int, int>) returns (r: map<int, V>)
    ensures r.Keys == set k | k in m && k in mapping :: mapping[k]
    ensures forall n :: n in r ==> exists k :: k in m && k in mapping && mapping[k] == n && r[n] == m[k]
    ensures Injective(mapping) ==> forall k :: k in m && k in mapping ==> r[mapping[k]] == m[k]
  {
    r := map[];
    ghost var from: map<int, int> := map[];
    var todo := m.Keys;
    while todo != {}
      invariant todo <= m.Keys
      invariant r.Keys == set k | k in m && k !in todo && k in mapping :: mapping[k]
      invariant from.Keys == r.Keys
      invariant forall n :: n in r ==>
        from[n] in m && from[n] !in todo && from[n] in mapping && mapping[from[n]] == n && r[n] == m[from[n]]
      invariant Injective(mapping) ==> forall k :: k in m && k !in todo && k in mapping ==> r[mapping[k]] == m[k]
      decreases |todo|
    {
      var key := Pick(todo);
      if key in mapping {
        r := r[mapping[key] := m[key]];
        from := from[mapping[key] := key];
      }
      todo := todo - {key};
    }
    forall n | n in r
      ensures exists k :: k in m && k in mapping && mapping[k] == n && r[n] == m[k]
    {
      var k := from[n];
      assert k in m && k in mapping && mapping[k] == n && r[n] == m[k];
    }
  }

  /** Distinct space ids make the position-to-id mapping injective. */
  lemma PositionToIdInjective(spaces: seq<Spaces.Space>)
    requires Store.DistinctIds(spaces)
    ensures Injective(Store.PositionToId(spaces))
  {
    var mapping := Store.PositionToId(spaces);
    forall a, b | a in mapping && b in mapping && a != b
      ensures mapping[a] != mapping[b]
    {
      if a < b {
        assert spaces[a].id != spaces[b].id;
      } else {
        assert spaces[b].id != spaces[a].id;
      }
    }
  }

  /** With distinct ids, `rekey` through the position-to-id mapping is the
      position-ordered re-keying the migration is specified by. */
  lemma RekeyIsRekeyed<V>(m: map<int, V>, spaces: seq<Spaces.Space>, r: map<int, V>)
    requires Store.DistinctIds(spaces)
    requires var mapping := Store.PositionToId(spaces);
      && r.Keys == (set k | k in m && k in mapping :: mapping[k])
      && (forall k :: k in m && k in mapping ==> r[mapping[k]] == m[k])
    ensures r == Store.Rekeyed(m, spaces)
  {
    var mapping := Store.PositionToId(spaces);
    var t := Store.Rekeyed(m, spaces);
    Store.RekeyedContents(m, spaces, |spaces|);
    assert (set k | k in m && k in mapping :: mapping[k]) == (set p | 0 <= p < |spaces| && p in m :: spaces[p].id);
    assert r.Keys == t.Keys;
    forall n | n in r
      ensures r[n] == t[n]
    {
      var p :| 0 <= p < |spaces| && p in m && spaces[p].id == n;
      assert p in mapping;
    }
  }

  /** The keys `rekey` produces through the position-to-id mapping are the
      ids of the spaces at the positions that were keys. */
  lemma RekeyedKeys<V>(m: map<int, V>, spaces: seq<Spaces.Space>)
    ensures var mapping := Store.PositionToId(spaces);
      (set k | k in m && k in mapping :: mapping[k]) == (set p | 0 <= p < |spaces| && p in m :: spaces[p].id)
  {
  }

  /** The entries of `r` are those of `m` carried from positions to the
      ids of the spaces at those positions: its keys are the ids of the
      positions that were keys, and each value is the old value of some
      position holding that id. */
  ghost predicate CarriedOver<V>(m: map<int, V>, spaces: seq<Spaces.Space>, r: map<int, V>) {
    && r.Keys == (set p | 0 <= p < |spaces| && p in m :: spaces[p].id)
    && forall n :: n in r ==> exists p :: 0 <= p < |spaces| && p in m && spaces[p].id == n && r[n] == m[p]
  }

  /** What `rekey` promises through the position-to-id mapping is a
      carry-over. */
  lemma RekeyCarriesOver<V>(m: map<int, V>, spaces: seq<Spaces.Space>, r: map<int, V>)
    requires var mapping := Store.PositionToId(spaces);
      && r.Keys == (set k | k in m && k in mapping :: mapping[k])
      && (forall n :: n in r ==> exists k :: k in m && k in mapping && mapping[k] == n && r[n] == m[k])
    ensures CarriedOver(m, spaces, r)
  {
    RekeyedKeys(m, spaces);
    var mapping := Store.PositionToId(spaces);
    forall n | n in r
      ensures exists p :: 0 <= p < |spaces| && p in m && spaces[p].id == n && r[n] == m[p]
    {
      var k :| k in m && k in mapping && mapping[k] == n && r[n] == m[k];
      assert 0 <= k < |spaces| && spaces[k].id == n;
    }
  }

  /** `migrate_v0_to_v1`: from version 0, re-keys notes, titles and custom
      colours from global positions to the ids of the enumerated spaces and
      sets version 1; from version 1 on it returns the data unchanged. */
  method MigrateV0ToV1(d: Store.PersistData, snap: Spaces.Snapshot) returns (r: Store.PersistData)
    ensures d.version >= 1 ==> r == d
    ensures r.version >= 1
    ensures d.version < 1 ==>
      r == d.(notes := r.notes, titles := r.titles,
              settings := d.settings.(customColors := r.settings.customColors), version := 1)
    ensures d.version < 1 ==> var spaces := Spaces.Enumerate(snap);
      && CarriedOver(d.notes, spaces, r.notes)
      && CarriedOver(d.titles, spaces, r.titles)
      && CarriedOver(d.settings.customColors, spaces, r.settings.customColors)
    ensures Store.DistinctIds(Spaces.Enumerate(snap)) ==> r == Store.Migrate(d, Spaces.Enumerate(snap))
  {
    if d.version >= 1 {
      return d;
    }
    var spaces := Spaces.EnumerateSpaces(snap);
    var posToSid := map p | 0 <= p < |spaces| :: spaces[p].id;
    assert posToSid == Store.PositionToId(spaces);
    var notes := Rekey(d.notes, posToSid);
    var titles := Rekey(d.titles, posToSid);
    var colors := Rekey(d.settings.customColors, posToSid);
    r := d.(notes := notes, titles := titles, settings := d.settings.(customColors := colors), version := 1);
    RekeyCarriesOver(d.notes, spaces, notes);
    RekeyCarriesOver(d.titles, spaces, titles);
    RekeyCarriesOver(d.settings.customColors, spaces, colors);
    if Store.DistinctIds(spaces) {
      PositionToIdInjective(spaces);
      RekeyIsRekeyed(d.notes, spaces, notes);
      RekeyIsRekeyed(d.titles, spaces, titles);
      RekeyIsRekeyed(d.settings.customColors, spaces, colors);
    }
  }

  // ── The state ────────────────────────────────────────────────

  class AppState {
    /** The aggregate held in memory. */
    var data: Store.PersistData
    /** What the data file holds: None while it is missing or unreadable. */
    var disk: Option<Store.PersistData>

    /** Start-up: load the file (`parsed` is its decoded content, None when
        it was missing or malformed), migrate version-0 data against the
        current spaces and write the migrated data back. */
    constructor Startup(parsed: Option<Store.PersistData>, snap: Spaces.Snapshot)
      ensures data.version >= 1
      ensures Store.LoadData(parsed).version >= 1 ==> data == Store.LoadData(parsed) && disk == parsed
      ensures Store.LoadData(parsed).version < 1 ==> disk == Some(data)
      ensures var loaded := Store.LoadData(parsed); loaded.version < 1 ==>
        && data == loaded.(notes := data.notes, titles := data.titles,
                           settings := loaded.settings.(customColors := data.settings.customColors), version := 1)
        && CarriedOver(loaded.notes, Spaces.Enumerate(snap), data.notes)
        && CarriedOver(loaded.titles, Spaces.Enumerate(snap), data.titles)
        && CarriedOver(loaded.settings.customColors, Spaces.Enumerate(snap), data.settings.customColors)
      ensures Store.DistinctIds(Spaces.Enumerate(snap)) ==> data == Store.Migrate(Store.LoadData(parsed), Spaces.Enumerate(snap))
    {
      var loaded := Store.LoadData(parsed);
      var migrated := loaded;
      var written := parsed;
      if loaded.version < 1 {
        migrated := MigrateV0ToV1(loaded, snap);
        written := Some(migrated);
      }
      data := migrated;
      disk := written;
    }

    /** The write-back every mutating command ends with. */
    method Persist()
      modifies this
      ensures data == old(data) && disk == Some(data)
    {
      disk := Some(data);
    }

    method SaveTodos(desktop: int, todos: seq<TodoItem>)
      modifies this
      ensures data == Store.SaveTodos(old(data), desktop, todos) && disk == Some(data)
    {
      data := data.(notes := data.notes[desktop := todos]);
      Persist();
    }

    method SaveTitle(desktop: int, title: string)
      modifies this
      ensures data == Store.SaveTitle(old(data), desktop, title) && disk == Some(data)
    {
      if title == "" {
        data := data.(titles := data.titles - {desktop});
      } else {
        data := data.(titles := data.titles[desktop := title]);
      }
      Persist();
    }

    method SaveColor(desktop: int, color: string)
      modifies this
      ensures data == Store.SaveColor(old(data), desktop, color) && disk == Some(data)
    {
      data := data.(settings := data.settings.(customColors := data.settings.customColors[desktop := color]));
      Persist();
    }

    /** `complete_setup`: marks the first-run setup as done. */
    method CompleteSetup()
      modifies this
      ensures data == old(data).(settings := old(data).settings.(setupComplete := true)) && disk == Some(data)
    {
      data := data.(settings := data.settings.(setupComplete := true));
      Persist();
    }

    method SaveDesktopCount(count: u32)
      modifies this
      ensures data == old(data).(settings := old(data).settings.(desktopCount := count)) && disk == Some(data)
    {
      data := data.(settings := data.settings.(desktopCount := count));
      Persist();
    }

    method SaveTimerPresets(presets: seq<u32>)
      modifies this
      ensures data == old(data).(settings := old(data).settings.(timerPresets := presets)) && disk == Some(data)
    {
      data := data.(settings := data.settings.(timerPresets := presets));
      Persist();
    }

    method SaveNotifySettings(system: bool, flash: bool)
      modifies this
      ensures data == old(data).(settings := old(data).settings.(notifySystem := system, notifyFlash := flash))
      ensures disk == Some(data)
    {
      data := data.(settings := data.settings.(notifySystem := system));
      data := data.(settings := data.settings.(notifyFlash := flash));
      Persist();
    }

    method SaveHiddenPanels(panels: seq<string>)
      modifies this
      ensures data == old(data).(settings := old(data).settings.(hiddenPanels := panels)) && disk == Some(data)
    {
      data := data.(settings := data.settings.(hiddenPanels := panels));
      Persist();
    }

    /** `apply_theme`: clears the custom colours, then gives the i-th
        enumerated space the i-th colour while colours last. */
    method ApplyTheme(snap: Spaces.Snapshot, colors: seq<string>)
      modifies this
      ensures data == Store.ApplyTheme(old(data), Spaces.Enumerate(snap), colors) && disk == Some(data)
    {
      var spaces := Spaces.EnumerateSpaces(snap);
      data := data.(settings := data.settings.(customColors := map[]));
      for i := 0 to |spaces|
        invariant data == old(data).(settings := old(data).settings.(customColors := Store.Themed(spaces, colors, i)))
      {
        if i < |colors| {
          data := data.(settings := data.settings.(customColors := data.settings.customColors[spaces[i].id := colors[i]]));
        }
      }
      Persist();
    }

    method ClearAllData()
      modifies this
      ensures data == Store.ClearAllData(old(data)) && disk == Some(data)
    {
      data := data.(notes := map[]);
      data := data.(titles := map[]);
      data := data.(settings := data.settings.(customColors := map[]));
      Persist();
    }

    /** `start_new_session`: collects the ids with todos or a title (in
        hash order, chosen arbitrarily here), snapshots each one with
        content into its history, capped at 20, then clears all todos and
        titles. By RotationOrderIrrelevant the result does not depend on
        the order chosen. */
    method StartNewSession(now: string)
      modifies this
      ensures exists order ::
        (Store.ListsOnce(order, Store.SessionIds(old(data))) && data == Store.StartNewSession(old(data), now, order))
      ensures disk == Some(data)
    {
      // The locked data, read as one value; its history map is updated in
      // the loop and stored back with the cleared notes and titles.
      var d := data;
      var history := d.contextHistory;
      var ids := CollectIds(d.notes.Keys + d.titles.Keys);
      var i := 0;
      assert ids[..0] == [];
      while i < |ids|
        invariant 0 <= i <= |ids|
        invariant history == Store.Rotated(d, now, ids[..i])
      {
        var sid := ids[i];
        Store.RotatedStep(d, now, ids, i);
        var title := Store.GetTitle(d, sid);
        var todos := Store.GetTodos(d, sid);
        if title == "" && todos == [] {
          i := i + 1;
          continue;
        }
        var entries := if sid in history then history[sid] else [];
        entries := PushCapped(entries, Store.SavedContext(title, todos, now));
        history := history[sid := entries];
        i := i + 1;
      }
      assert ids[..i] == ids;
      data := d.(contextHistory := history, notes := map[], titles := map[]);
      assert data == Store.StartNewSession(d, now, ids);
      Persist();
    }

    /** `restore_context`: false, and nothing written, when the desktop has
        no history or no entry at `index`; otherwise the entry becomes the
        desktop's todos and title and the result is true. */
    method RestoreContext(desktop: int, index: nat) returns (ok: bool)
      modifies this
      ensures (ok, data) == Store.RestoreContext(old(data), desktop, index)
      ensures ok ==> disk == Some(data)
      ensures !ok ==> disk == old(disk)
    {
      if desktop !in data.contextHistory || index >= |data.contextHistory[desktop]| {
        return false;
      }
      var saved := data.contextHistory[desktop][index];
      data := data.(notes := data.notes[desktop := saved.todos]);
      if saved.title == "" {
        data := data.(titles := data.titles - {desktop});
      } else {
        data := data.(titles := data.titles[desktop := saved.title]);
      }
      Persist();
      ok := true;
    }

    /** `add_completed`: the id and the timestamp come from the caller. */
    method AddCompleted(text: string, desktopId: int, id: string, now: string)
      modifies this
      ensures data == Store.AddCompleted(old(data), text, desktopId, id, now) && disk == Some(data)
    {
      data := data.(completed := data.completed + [Store.CompletedItem(id, text, desktopId, now)]);
      Persist();
    }

    method ClearCompleted()
      modifies this
      ensures data == old(data).(completed := []) && disk == Some(data)
    {
      data := data.(completed := []);
      Persist();
    }
  }
}
