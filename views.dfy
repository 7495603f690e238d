/** Read-only views of the desktops: default colours, the active desktop of
    a display, the flat and the per-display desktop lists, and the desktop
    infos broadcast when the active space changes. */
module Views {
  import opened Common
  import opened Spaces
  import Store
  import Todos

  // ── Colours and names ────────────────────────────────────────

  /** The built-in palette of eight muted pastels. */
  const COLORS: seq<string> := ["#F5E6A3", "#F2B8A0", "#A8CCE0", "#A8D8B0", "#C8A8D8", "#F0C8A0", "#A0D8D0", "#E0B8C8"]

  /** `default_color`: the palette is cycled by global position. */
  function DefaultColor(position: nat): (c: string)
    ensures c in COLORS
  {
    COLORS[position % |COLORS|]
  }

  /** The palette repeats every eight positions, and neighbouring positions
      never share a default colour. */
  lemma DefaultColorCycle(position: nat)
    ensures DefaultColor(position + 8) == DefaultColor(position)
    ensures DefaultColor(position + 1) != DefaultColor(position)
  {
    var k := position % 8;
    assert (position + 8) % 8 == k;
    assert (position + 1) % 8 == (k + 1) % 8;
    assert forall i, j :: 0 <= i < j < 8 ==> COLORS[i] != COLORS[j];
  }

  /** A desktop's colour: its custom colour when one is stored, otherwise
      the default colour of its position. */
  function ColorOf(d: Store.PersistData, sid: int, position: nat): (c: string)
    ensures sid in d.settings.customColors ==> c == d.settings.customColors[sid]
    ensures sid !in d.settings.customColors ==> c == DefaultColor(position)
  {
    if sid in d.settings.customColors then d.settings.customColors[sid] else DefaultColor(position)
  }

  /** The name shown for the desktop at a 0-based global position. */
  function DesktopName(position: nat): string {
    "Desktop " + NatToString(position + 1)
  }

  /** Different positions get different names. */
  lemma DesktopNameInjective(p: nat, q: nat)
    requires DesktopName(p) == DesktopName(q)
    ensures p == q
  {
    var prefix := "Desktop ";
    assert NatToString(p + 1) == DesktopName(p)[|prefix|..];
    assert NatToString(q + 1) == DesktopName(q)[|prefix|..];
    NatToStringInjective(p + 1, q + 1);
  }

  /** The global position of a space id, 0 when it is not enumerated. */
  function PositionOf(spaces: seq<Space>, sid: int): (p: nat)
    ensures sid in Ids(spaces) ==>
      (p < |spaces| && spaces[p].id == sid && forall j :: 0 <= j < p ==> spaces[j].id != sid)
    ensures sid !in Ids(spaces) ==> p == 0
  {
    var ids := Ids(spaces);
    match IndexOf(ids, sid)
    case Some(i) => i
    case None => 0
  }

  // ── The active desktop of one display ────────────────────────

  datatype DesktopInfo = DesktopInfo(spaceId: int, position: nat, name: string, color: string, isFullscreen: bool)

  /** `get_desktop`: the active space of the display, its global position,
      name and colour, and whether it is a full-screen space (type != 0).
      Both window-server queries read the same snapshot here. */
  function GetDesktop(d: Store.PersistData, snap: Snapshot, display: nat): (r: DesktopInfo)
    ensures r.spaceId == SpaceInfoForDisplay(snap, display).0
    ensures r.isFullscreen <==> SpaceInfoForDisplay(snap, display).1 != 0
    ensures r.position == PositionOf(Enumerate(snap), r.spaceId)
    ensures r.name == DesktopName(r.position) && r.color == ColorOf(d, r.spaceId, r.position)
  {
    var (sid, kind) := SpaceInfoForDisplay(snap, display);
    var position := PositionOf(Enumerate(snap), sid);
    DesktopInfo(sid, position, DesktopName(position), ColorOf(d, sid, position), kind != 0)
  }

  /** The position reported for an enumerated active space is where that
      space sits in the enumeration. */
  lemma GetDesktopPosition(d: Store.PersistData, snap: Snapshot, display: nat)
    requires SpaceInfoForDisplay(snap, display).0 in Ids(Enumerate(snap))
    ensures var r := GetDesktop(d, snap, display);
      r.position < |Enumerate(snap)| && Enumerate(snap)[r.position].id == r.spaceId
  {
  }

  /** Two desktops, ids 100 and 200, on one display with 100 active and no
      custom colours: desktop 1, first palette colour, not full screen. */
  lemma GetDesktopExample(d: Store.PersistData)
    requires d.settings.customColors == map[]
    ensures var snap := Some([RawDisplay(Some([RawSpace(Some(0), Some(100)), RawSpace(Some(0), Some(200))]),
                                         Some(RawSpace(Some(0), Some(100))))]);
      GetDesktop(d, snap, 0) == DesktopInfo(100, 0, "Desktop 1", "#F5E6A3", false)
  {
    var ss := [RawSpace(Some(0), Some(100)), RawSpace(Some(0), Some(200))];
    var snap := Some([RawDisplay(Some(ss), Some(RawSpace(Some(0), Some(100))))]);
    assert ss[..1] == [RawSpace(Some(0), Some(100))];
    assert ss[..1][..0] == [];
    assert DisplaySpaces(ss[..1], 0) == [Space(100, 0, 1)];
    assert DisplaySpaces(ss, 0) == [Space(100, 0, 1), Space(200, 0, 2)];
    var ds := [RawDisplay(Some(ss), Some(RawSpace(Some(0), Some(100))))];
    assert ds[..0] == [];
    assert EnumerateDisplays(ds) == EnumerateDisplays(ds[..0]) + DisplaySpaces(SpacesOf(ds[0]), 0);
    assert Enumerate(snap) == [Space(100, 0, 1), Space(200, 0, 2)];
    assert Ids(Enumerate(snap)) == [100, 200];
    assert NatToString(1) == "1";
  }

  /** After `clear_all_data` every desktop shows its default colour. */
  lemma ClearedColorsAreDefault(d: Store.PersistData, sid: int, position: nat)
    ensures ColorOf(Store.ClearAllData(d), sid, position) == DefaultColor(position)
  {
  }

  /** After `apply_theme` with distinct space ids, the i-th enumerated space
      shows `colors[i]` while colours last and its default colour after. */
  lemma ThemedColor(d: Store.PersistData, spaces: seq<Space>, colors: seq<string>, i: nat)
    requires Store.DistinctIds(spaces) && i < |spaces|
    ensures i < |colors| ==> ColorOf(Store.ApplyTheme(d, spaces, colors), spaces[i].id, i) == colors[i]
    ensures i >= |colors| ==> ColorOf(Store.ApplyTheme(d, spaces, colors), spaces[i].id, i) == DefaultColor(i)
  {
    Store.ThemedContents(spaces, colors, |spaces|);
  }

  // ── The flat desktop list ────────────────────────────────────

  datatype DesktopSummary = DesktopSummary(spaceId: int, position: nat, name: string, title: string,
                                           color: string, todoCount: nat)

  /** The number of items not yet done. */
  function ActiveCount(todos: seq<TodoItem>): (n: nat)
    ensures n <= |todos|
    ensures n == |Todos.ActiveItems(todos)|
  {
    if todos == [] then 0
    else ActiveCount(todos[..|todos| - 1]) + (if todos[|todos| - 1].done then 0 else 1)
  }

  /** The count is zero exactly when every item is done, and the full
      length exactly when none is. */
  lemma {:induction false} ActiveCountExtremes(todos: seq<TodoItem>)
    ensures ActiveCount(todos) == 0 <==> forall i :: 0 <= i < |todos| ==> todos[i].done
    ensures ActiveCount(todos) == |todos| <==> forall i :: 0 <= i < |todos| ==> !todos[i].done
    decreases |todos|
  {
    if todos != [] {
      var init := todos[..|todos| - 1];
      ActiveCountExtremes(init);
      assert ActiveCount(todos) == ActiveCount(init) + (if todos[|todos| - 1].done then 0 else 1);
      assert forall i :: 0 <= i < |init| ==> init[i] == todos[i];
    }
  }

  /** The summary of the space `sid` at global position `position`. */
  function Summary(d: Store.PersistData, sid: int, position: nat): DesktopSummary {
    var count := if sid in d.notes then ActiveCount(d.notes[sid]) else 0;
    DesktopSummary(sid, position, DesktopName(position), Store.GetTitle(d, sid), ColorOf(d, sid, position), count)
  }

  /** `list_all_desktops`: one summary per enumerated space, numbered by
      global position. */
  function ListAllDesktops(d: Store.PersistData, spaces: seq<Space>): (r: seq<DesktopSummary>)
    ensures |r| == |spaces|
    ensures forall i :: 0 <= i < |spaces| ==> r[i] == Summary(d, spaces[i].id, i)
  {
    seq(|spaces|, i requires 0 <= i < |spaces| => Summary(d, spaces[i].id, i))
  }

  /** The active desktop of a display and its entry in the flat list agree
      on id, name and colour when the active space is enumerated. */
  lemma SummaryAgreesWithGetDesktop(d: Store.PersistData, snap: Snapshot, display: nat)
    requires SpaceInfoForDisplay(snap, display).0 in Ids(Enumerate(snap))
    ensures var info := GetDesktop(d, snap, display);
      info.position < |ListAllDesktops(d, Enumerate(snap))| &&
      var s := ListAllDesktops(d, Enumerate(snap))[info.position];
      s.spaceId == info.spaceId && s.name == info.name && s.color == info.color
  {
  }

  datatype SpaceInfo = SpaceInfo(spaceId: int, position: nat, name: string, title: string, color: string)

  /** `list_all_spaces`: the same list without the todo counts. */
  function ListAllSpaces(d: Store.PersistData, spaces: seq<Space>): (r: seq<SpaceInfo>)
    ensures |r| == |spaces|
    ensures forall i :: 0 <= i < |spaces| ==> var s := ListAllDesktops(d, spaces)[i];
      r[i] == SpaceInfo(s.spaceId, s.position, s.name, s.title, s.color)
  {
    seq(|spaces|, i requires 0 <= i < |spaces| =>
      SpaceInfo(spaces[i].id, i, DesktopName(i), Store.GetTitle(d, spaces[i].id), ColorOf(d, spaces[i].id, i)))
  }

  // ── The per-display desktop list ─────────────────────────────

  /** The desktops of one display. The grouping below is stated for any
      per-space item; the command groups the desktop summaries. */
  datatype DisplayGroup<T> = DisplayGroup(displayIndex: nat, desktops: seq<T>)

  /** The items of the spaces on display `k`, in order. */
  function ItemsOn<T>(spaces: seq<Space>, items: seq<T>, k: nat): seq<T>
    requires |items| == |spaces|
  {
    if spaces == [] then []
    else
      ItemsOn(spaces[..|spaces| - 1], items[..|items| - 1], k) +
        (if spaces[|spaces| - 1].display == k then [items[|items| - 1]] else [])
  }

  /** The items of the spaces on displays below `k`, in order. */
  function ItemsBelow<T>(spaces: seq<Space>, items: seq<T>, k: nat): seq<T>
    requires |items| == |spaces|
  {
    if spaces == [] then []
    else
      ItemsBelow(spaces[..|spaces| - 1], items[..|items| - 1], k) +
        (if spaces[|spaces| - 1].display < k then [items[|items| - 1]] else [])
  }

  /** The groups for displays 0 .. k-1 in ascending order; a display with
      no space has no group (a BTreeMap yields its keys in ascending order). */
  function GroupsBelow<T>(spaces: seq<Space>, items: seq<T>, k: nat): seq<DisplayGroup<T>>
    requires |items| == |spaces|
  {
    if k == 0 then []
    else
      var on := ItemsOn(spaces, items, k - 1);
      GroupsBelow(spaces, items, k - 1) + (if on != [] then [DisplayGroup(k - 1, on)] else [])
  }

  /** One more than the largest display index of an enumeration (0 for none). */
  function DisplayBound(spaces: seq<Space>): (n: nat)
    ensures forall i :: 0 <= i < |spaces| ==> spaces[i].display < n
    ensures spaces != [] ==> exists i :: 0 <= i < |spaces| && spaces[i].display == n - 1
    ensures spaces == [] ==> n == 0
  {
    if spaces == [] then 0
    else
      var b := DisplayBound(spaces[..|spaces| - 1]);
      var last := spaces[|spaces| - 1].display;
      if last + 1 > b then last + 1 else b
  }

  /** The grouped list: per display with spaces, in ascending display order. */
  function Grouped<T>(spaces: seq<Space>, items: seq<T>): seq<DisplayGroup<T>>
    requires |items| == |spaces|
  {
    GroupsBelow(spaces, items, DisplayBound(spaces))
  }

  /** `groups` maps each display with spaces in `spaces` to their items. */
  ghost predicate Filed<T>(spaces: seq<Space>, items: seq<T>, groups: map<nat, seq<T>>)
    requires |items| == |spaces|
  {
    (forall k :: k in groups <==> ItemsOn(spaces, items, k) != []) &&
    (forall k :: k in groups ==> groups[k] == ItemsOn(spaces, items, k))
  }

  /** Filing item i under its display keeps the map in step with the prefix. */
  lemma FiledStep<T>(spaces: seq<Space>, items: seq<T>, i: nat, groups: map<nat, seq<T>>, next: map<nat, seq<T>>)
    requires |items| == |spaces| && i < |spaces| && Filed(spaces[..i], items[..i], groups)
    requires var disp := spaces[i].display;
      next == groups[disp := (if disp in groups then groups[disp] else []) + [items[i]]]
    ensures Filed(spaces[..i + 1], items[..i + 1], next)
    ensures DisplayBound(spaces[..i + 1]) ==
      (if spaces[i].display + 1 > DisplayBound(spaces[..i]) then spaces[i].display + 1 else DisplayBound(spaces[..i]))
  {
    assert spaces[..i + 1][..i] == spaces[..i];
    assert items[..i + 1][..i] == items[..i];
  }

  /** The first half of `list_desktops_grouped`: one pass over the
      enumeration files each summary, numbered by global position, under its
      display in a BTreeMap, and tracks the largest display index seen. */
  method FileSummaries(d: Store.PersistData, spaces: seq<Space>) returns (groups: map<nat, seq<DesktopSummary>>, bound: nat)
    ensures Filed(spaces, ListAllDesktops(d, spaces), groups)
    ensures bound == DisplayBound(spaces)
  {
    ghost var all := ListAllDesktops(d, spaces);
    groups := map[];
    bound := 0;
    var globalPos := 0;
    while globalPos < |spaces|
      invariant 0 <= globalPos <= |spaces|
      invariant bound == DisplayBound(spaces[..globalPos])
      invariant Filed(spaces[..globalPos], all[..globalPos], groups)
    {
      var space := spaces[globalPos];
      var summary := Summary(d, space.id, globalPos);
      var bucket := if space.display in groups then groups[space.display] else [];
      FiledStep(spaces, all, globalPos, groups, groups[space.display := bucket + [summary]]);
      groups := groups[space.display := bucket + [summary]];
      if space.display + 1 > bound {
        bound := space.display + 1;
      }
      globalPos := globalPos + 1;
    }
    assert spaces[..globalPos] == spaces;
    assert all[..globalPos] == all;
  }

  lemma GroupsBelowStep<T>(spaces: seq<Space>, items: seq<T>, groups: map<nat, seq<T>>, k: nat)
    requires |items| == |spaces| && Filed(spaces, items, groups)
    ensures GroupsBelow(spaces, items, k + 1) ==
      GroupsBelow(spaces, items, k) + (if k in groups then [DisplayGroup(k, groups[k])] else [])
  {
  }

  /** The second half of `list_desktops_grouped`: the map read out in
      ascending key order, one group per display. */
  method ReadOutGroups<T>(groups: map<nat, seq<T>>, bound: nat, ghost spaces: seq<Space>, ghost items: seq<T>)
    returns (r: seq<DisplayGroup<T>>)
    requires |items| == |spaces| && Filed(spaces, items, groups)
    ensures r == GroupsBelow(spaces, items, bound)
  {
    r := [];
    for k := 0 to bound
      invariant r == GroupsBelow(spaces, items, k)
    {
      GroupsBelowStep(spaces, items, groups, k);
      if k in groups {
        r := r + [DisplayGroup(k, groups[k])];
      }
    }
  }

  /** `list_desktops_grouped`: the desktop summaries filed by display, then
      read out of the map in ascending display order. */
  method ListDesktopsGrouped(d: Store.PersistData, snap: Snapshot) returns (r: seq<DisplayGroup<DesktopSummary>>)
    ensures r == Grouped(Enumerate(snap), ListAllDesktops(d, Enumerate(snap)))
  {
    var spaces := EnumerateSpaces(snap);
    var groups, bound := FileSummaries(d, spaces);
    r := ReadOutGroups(groups, bound, spaces, ListAllDesktops(d, spaces));
  }

  lemma {:induction false} ItemsOnEmpty<T>(spaces: seq<Space>, items: seq<T>, k: nat)
    requires |items| == |spaces|
    requires forall i :: 0 <= i < |spaces| ==> spaces[i].display != k
    ensures ItemsOn(spaces, items, k) == []
    decreases |spaces|
  {
    if spaces != [] {
      ItemsOnEmpty(spaces[..|spaces| - 1], items[..|items| - 1], k);
    }
  }

  /** A display with items hosts one of the spaces. */
  lemma {:induction false} ItemsOnHosted<T>(spaces: seq<Space>, items: seq<T>, k: nat)
    requires |items| == |spaces|
    requires ItemsOn(spaces, items, k) != []
    ensures exists i :: 0 <= i < |spaces| && spaces[i].display == k
    decreases |spaces|
  {
    var last := |spaces| - 1;
    if spaces[last].display != k {
      ItemsOnHosted(spaces[..last], items[..last], k);
      var i :| 0 <= i < last && spaces[..last][i].display == k;
      assert spaces[i] == spaces[..last][i];
    }
  }

  /** The groups come out in strictly ascending display order, each one
      non-empty and holding exactly the items of its display. */
  lemma {:induction false} GroupsAscending<T>(spaces: seq<Space>, items: seq<T>, k: nat)
    requires |items| == |spaces|
    ensures forall i :: 0 <= i < |GroupsBelow(spaces, items, k)| ==> GroupsBelow(spaces, items, k)[i].displayIndex < k
    ensures forall i, j :: 0 <= i < j < |GroupsBelow(spaces, items, k)| ==>
      GroupsBelow(spaces, items, k)[i].displayIndex < GroupsBelow(spaces, items, k)[j].displayIndex
    ensures forall i :: 0 <= i < |GroupsBelow(spaces, items, k)| ==> GroupsBelow(spaces, items, k)[i].desktops != []
    ensures forall i :: 0 <= i < |GroupsBelow(spaces, items, k)| ==>
      GroupsBelow(spaces, items, k)[i].desktops == ItemsOn(spaces, items, GroupsBelow(spaces, items, k)[i].displayIndex)
    decreases k
  {
    if k > 0 {
      GroupsAscending(spaces, items, k - 1);
    }
  }

  /** Every display below k that hosts a space has a group of its own. */
  lemma {:induction false} GroupsCover<T>(spaces: seq<Space>, items: seq<T>, k: nat, disp: nat)
    requires |items| == |spaces|
    requires disp < k && ItemsOn(spaces, items, disp) != []
    ensures exists i :: 0 <= i < |GroupsBelow(spaces, items, k)| && GroupsBelow(spaces, items, k)[i].displayIndex == disp
    decreases k
  {
    if disp < k - 1 {
      GroupsCover(spaces, items, k - 1, disp);
      var i :| 0 <= i < |GroupsBelow(spaces, items, k - 1)| && GroupsBelow(spaces, items, k - 1)[i].displayIndex == disp;
      assert GroupsBelow(spaces, items, k)[i] == GroupsBelow(spaces, items, k - 1)[i];
    } else {
      var g := GroupsBelow(spaces, items, k);
      assert g[|g| - 1].displayIndex == disp;
    }
  }

  /** Concatenating the desktops of all groups. */
  function Flatten<T>(groups: seq<DisplayGroup<T>>): seq<T> {
    if groups == [] then [] else Flatten(groups[..|groups| - 1]) + groups[|groups| - 1].desktops
  }

  lemma FlattenSnoc<T>(groups: seq<DisplayGroup<T>>, g: DisplayGroup<T>)
    ensures Flatten(groups + [g]) == Flatten(groups) + g.desktops
  {
    assert (groups + [g])[..|groups|] == groups;
  }

  predicate DisplaysAscending(spaces: seq<Space>) {
    forall i, j :: 0 <= i <= j < |spaces| ==> spaces[i].display <= spaces[j].display
  }

  /** For displays in ascending order, the items below display k+1 are
      those below k followed by those on k. */
  lemma {:induction false} ItemsBelowStep<T>(spaces: seq<Space>, items: seq<T>, k: nat)
    requires |items| == |spaces| && DisplaysAscending(spaces)
    ensures ItemsBelow(spaces, items, k + 1) == ItemsBelow(spaces, items, k) + ItemsOn(spaces, items, k)
    decreases |spaces|
  {
    if spaces != [] {
      var init := spaces[..|spaces| - 1];
      var last := spaces[|spaces| - 1];
      assert DisplaysAscending(init);
      ItemsBelowStep(init, items[..|items| - 1], k);
      if last.display < k {
        ItemsOnEmpty(init, items[..|items| - 1], k);
      }
    }
  }

  lemma {:induction false} ItemsBelowAll<T>(spaces: seq<Space>, items: seq<T>, k: nat)
    requires |items| == |spaces|
    requires forall i :: 0 <= i < |spaces| ==> spaces[i].display < k
    ensures ItemsBelow(spaces, items, k) == items
    decreases |spaces|
  {
    if spaces != [] {
      ItemsBelowAll(spaces[..|spaces| - 1], items[..|items| - 1], k);
    }
  }

  lemma {:induction false} ItemsBelowNone<T>(spaces: seq<Space>, items: seq<T>)
    requires |items| == |spaces|
    ensures ItemsBelow(spaces, items, 0) == []
    decreases |spaces|
  {
    if spaces != [] {
      ItemsBelowNone(spaces[..|spaces| - 1], items[..|items| - 1]);
    }
  }

  /** One display more: its items, if any, follow those of the displays below. */
  lemma FlattenGroupsBelowStep<T>(spaces: seq<Space>, items: seq<T>, k: nat)
    requires |items| == |spaces|
    ensures Flatten(GroupsBelow(spaces, items, k + 1)) ==
      Flatten(GroupsBelow(spaces, items, k)) + ItemsOn(spaces, items, k)
  {
    var g := GroupsBelow(spaces, items, k);
    var on := ItemsOn(spaces, items, k);
    if on != [] {
      FlattenSnoc(g, DisplayGroup(k, on));
    } else {
      assert GroupsBelow(spaces, items, k + 1) == g;
    }
  }

  /** The induction step: agreement below display k carries over to k+1. */
  lemma FlattenGroupsBelowNext<T>(spaces: seq<Space>, items: seq<T>, k: nat)
    requires |items| == |spaces| && DisplaysAscending(spaces)
    requires Flatten(GroupsBelow(spaces, items, k)) == ItemsBelow(spaces, items, k)
    ensures Flatten(GroupsBelow(spaces, items, k + 1)) == ItemsBelow(spaces, items, k + 1)
  {
    FlattenGroupsBelowStep(spaces, items, k);
    ItemsBelowStep(spaces, items, k);
  }

  lemma {:induction false} FlattenGroupsBelow<T>(spaces: seq<Space>, items: seq<T>, k: nat)
    requires |items| == |spaces| && DisplaysAscending(spaces)
    ensures Flatten(GroupsBelow(spaces, items, k)) == ItemsBelow(spaces, items, k)
    decreases k
  {
    if k == 0 {
      ItemsBelowNone(spaces, items);
      assert GroupsBelow(spaces, items, 0) == [];
    } else {
      var j := k - 1;
      FlattenGroupsBelow(spaces, items, j);
      FlattenGroupsBelowNext(spaces, items, j);
      assert j + 1 == k;
    }
  }

  /** Reading the groups one after another gives the flat list, with the
      same global positions: grouping only splits the list by display. */
  lemma GroupedFlattensToList(d: Store.PersistData, snap: Snapshot)
    ensures Flatten(Grouped(Enumerate(snap), ListAllDesktops(d, Enumerate(snap)))) == ListAllDesktops(d, Enumerate(snap))
  {
    var spaces := Enumerate(snap);
    var items := ListAllDesktops(d, spaces);
    if snap.Some? {
      EnumerationOrdered(snap.value);
    }
    FlattenGroupsBelow(spaces, items, DisplayBound(spaces));
    ItemsBelowAll(spaces, items, DisplayBound(spaces));
  }

  /** Every display hosting an enumerated space has exactly the group of
      its desktops, in ascending display order. */
  lemma GroupedByDisplay<T>(spaces: seq<Space>, items: seq<T>, disp: nat)
    requires |items| == |spaces|
    requires ItemsOn(spaces, items, disp) != []
    ensures exists i :: 0 <= i < |Grouped(spaces, items)| && Grouped(spaces, items)[i] == DisplayGroup(disp, ItemsOn(spaces, items, disp))
  {
    var n := DisplayBound(spaces);
    ItemsOnHosted(spaces, items, disp);
    GroupsCover(spaces, items, n, disp);
    GroupsAscending(spaces, items, n);
    var g := GroupsBelow(spaces, items, n);
    assert g == Grouped(spaces, items);
    var i :| 0 <= i < |g| && g[i].displayIndex == disp;
    assert g[i] == DisplayGroup(disp, ItemsOn(spaces, items, disp));
  }

  // ── Desktop infos for every display ──────────────────────────

  /** The number of displays `build_desktop_infos` reports: one more than
      the largest display index enumerated, and 1 when nothing is. */
  function DisplayCount(spaces: seq<Space>): (n: nat)
    ensures n >= 1
    ensures forall i :: 0 <= i < |spaces| ==> spaces[i].display < n
    ensures spaces != [] ==> exists i :: 0 <= i < |spaces| && spaces[i].display == n - 1
  {
    if spaces == [] then 1 else DisplayBound(spaces)
  }

  /** `build_desktop_infos`: one info per display, by the same logic as
      `get_desktop`. */
  function BuildDesktopInfos(d: Store.PersistData, snap: Snapshot): (r: seq<DesktopInfo>)
    ensures |r| == DisplayCount(Enumerate(snap))
    ensures forall disp :: 0 <= disp < |r| ==> r[disp] == GetDesktop(d, snap, disp)
  {
    seq(DisplayCount(Enumerate(snap)), disp requires 0 <= disp => GetDesktop(d, snap, disp))
  }

  /** No display index `build_desktop_infos` asks about is past the last
      display, so none is redirected to display 0 — except the single
      index 0 asked when nothing is enumerated. */
  lemma InfosReadTheirOwnDisplay(d: Store.PersistData, ds: seq<RawDisplay>, disp: nat)
    requires Enumerate(Some(ds)) != [] && disp < DisplayCount(Enumerate(Some(ds)))
    ensures disp < |ds| && BuildDesktopInfos(d, Some(ds))[disp].spaceId == CurrentSpaceInfo(ds[disp]).0
  {
    EnumerationOrdered(ds);
    var spaces := Enumerate(Some(ds));
    var i :| 0 <= i < |spaces| && spaces[i].display == DisplayCount(spaces) - 1;
  }
}
