/** The space registry: which virtual desktops ("spaces") exist on which
    display, and which one is active on a display. The private window-server
    query is replaced by an explicit snapshot of its answer. */
module Spaces {
  import opened Common

  /** One dictionary of a display's "Spaces" array, or its "Current Space":
      the "type" and "id64" numbers, either of which may be missing. */
  datatype RawSpace = RawSpace(kind: Option<int>, id: Option<int>)

  /** One display dictionary: its "Spaces" array and its "Current Space"
      dictionary, either of which may be missing. */
  datatype RawDisplay = RawDisplay(spaces: Option<seq<RawSpace>>, current: Option<RawSpace>)

  /** The window server's answer: None when the connection id is 0 or the
      managed-display array is null, otherwise the displays in order. */
  type Snapshot = Option<seq<RawDisplay>>

  /** An enumerated space: its id, the display hosting it (0-based) and its
      1-based ordinal among the kept spaces of that display. */
  datatype Space = Space(id: int, display: nat, local: nat)

  /** Space type 0 is a normal desktop; other values (4) are full-screen apps. */
  const NORMAL_SPACE: int := 0

  /** The type enumeration reads for a space; a missing number reads as -1. */
  function EnumeratedType(s: RawSpace): int {
    s.kind.GetOr(-1)
  }

  /** The id enumeration reads for a space; a missing number reads as 0. */
  function EnumeratedId(s: RawSpace): int {
    s.id.GetOr(0)
  }

  predicate Kept(s: RawSpace) {
    EnumeratedType(s) == NORMAL_SPACE
  }

  function SpacesOf(d: RawDisplay): seq<RawSpace> {
    d.spaces.GetOr([])
  }

  /** The ids of the kept spaces of one display, in native order. */
  function KeptIds(ss: seq<RawSpace>): (ids: seq<int>)
    ensures |ids| <= |ss|
  {
    if ss == [] then []
    else KeptIds(ss[..|ss| - 1]) + (if Kept(ss[|ss| - 1]) then [EnumeratedId(ss[|ss| - 1])] else [])
  }

  /** What enumeration produces for display `d` whose space list is `ss`. */
  function DisplaySpaces(ss: seq<RawSpace>, d: nat): (r: seq<Space>)
    ensures |r| == |KeptIds(ss)|
    ensures forall k :: 0 <= k < |r| ==> r[k] == Space(KeptIds(ss)[k], d, k + 1)
  {
    if ss == [] then []
    else
      var before := DisplaySpaces(ss[..|ss| - 1], d);
      var last := ss[|ss| - 1];
      before + (if Kept(last) then [Space(EnumeratedId(last), d, |before| + 1)] else [])
  }

  /** The canonical enumeration: displays in ascending index order, the
      kept spaces of each in native order. */
  function EnumerateDisplays(ds: seq<RawDisplay>): seq<Space> {
    if ds == [] then []
    else EnumerateDisplays(ds[..|ds| - 1]) + DisplaySpaces(SpacesOf(ds[|ds| - 1]), |ds| - 1)
  }

  function Enumerate(snap: Snapshot): seq<Space> {
    match snap
    case None => []
    case Some(ds) => EnumerateDisplays(ds)
  }

  /** `enumerate_spaces`: walks the displays and their spaces, skipping
      every space whose type is not 0, and numbers the kept ones per display. */
  method EnumerateSpaces(snap: Snapshot) returns (result: seq<Space>)
    ensures result == Enumerate(snap)
  {
    result := [];
    if snap.None? {
      return;
    }
    var displays := snap.value;
    var d := 0;
    while d < |displays|
      invariant 0 <= d <= |displays|
      invariant result == EnumerateDisplays(displays[..d])
    {
      assert displays[..d + 1][..d] == displays[..d];
      var display := displays[d];
      if display.spaces.Some? {
        var spaces := display.spaces.value;
        ghost var before := result;
        var local := 1;
        var i := 0;
        while i < |spaces|
          invariant 0 <= i <= |spaces|
          invariant result == before + DisplaySpaces(spaces[..i], d)
          invariant local == |DisplaySpaces(spaces[..i], d)| + 1
        {
          assert spaces[..i + 1][..i] == spaces[..i];
          var stype := -1;
          if spaces[i].kind.Some? {
            stype := spaces[i].kind.value;
          }
          if stype != 0 {
            i := i + 1;
            continue;
          }
          var sid := 0;
          if spaces[i].id.Some? {
            sid := spaces[i].id.value;
          }
          result := result + [Space(sid, d, local)];
          local := local + 1;
          i := i + 1;
        }
        assert spaces[..i] == spaces;
      }
      d := d + 1;
    }
    assert displays[..d] == displays;
  }

  /** The ids of an enumeration, in order. */
  function Ids(spaces: seq<Space>): (r: seq<int>)
    ensures |r| == |spaces| && forall i :: 0 <= i < |spaces| ==> r[i] == spaces[i].id
  {
    seq(|spaces|, i requires 0 <= i < |spaces| => spaces[i].id)
  }

  // ── Properties of the enumeration ────────────────────────────

  /** The spaces of an enumeration that sit on display `k`, in order. */
  function OnDisplay(spaces: seq<Space>, k: nat): (r: seq<Space>)
    ensures |r| <= |spaces|
  {
    if spaces == [] then []
    else OnDisplay(spaces[..|spaces| - 1], k) + (if spaces[|spaces| - 1].display == k then [spaces[|spaces| - 1]] else [])
  }

  lemma {:induction false} OnDisplayAppend(a: seq<Space>, b: seq<Space>, k: nat)
    ensures OnDisplay(a + b, k) == OnDisplay(a, k) + OnDisplay(b, k)
    decreases |b|
  {
    if b == [] {
      assert a + b == a;
    } else {
      assert (a + b)[..|a + b| - 1] == a + b[..|b| - 1];
      OnDisplayAppend(a, b[..|b| - 1], k);
    }
  }

  lemma {:induction false} OnDisplayAll(spaces: seq<Space>, k: nat)
    requires forall i :: 0 <= i < |spaces| ==> spaces[i].display == k
    ensures OnDisplay(spaces, k) == spaces
    decreases |spaces|
  {
    if spaces != [] {
      OnDisplayAll(spaces[..|spaces| - 1], k);
    }
  }

  lemma {:induction false} OnDisplayNone(spaces: seq<Space>, k: nat)
    requires forall i :: 0 <= i < |spaces| ==> spaces[i].display != k
    ensures OnDisplay(spaces, k) == []
    decreases |spaces|
  {
    if spaces != [] {
      OnDisplayNone(spaces[..|spaces| - 1], k);
    }
  }

  /** Every enumerated space names an existing display, and the displays
      come out in ascending order. */
  lemma {:induction false} EnumerationOrdered(ds: seq<RawDisplay>)
    ensures forall i :: 0 <= i < |EnumerateDisplays(ds)| ==> EnumerateDisplays(ds)[i].display < |ds|
    ensures forall i, j :: 0 <= i <= j < |EnumerateDisplays(ds)| ==>
      EnumerateDisplays(ds)[i].display <= EnumerateDisplays(ds)[j].display
    decreases |ds|
  {
    if ds != [] {
      EnumerationOrdered(ds[..|ds| - 1]);
    }
  }

  /** Restricted to one display, the enumeration is exactly that display's
      kept spaces in native order, numbered 1, 2, ...; a display index past
      the end has none. */
  lemma {:induction false} EnumerationPerDisplay(ds: seq<RawDisplay>, k: nat)
    ensures k < |ds| ==> OnDisplay(EnumerateDisplays(ds), k) == DisplaySpaces(SpacesOf(ds[k]), k)
    ensures k >= |ds| ==> OnDisplay(EnumerateDisplays(ds), k) == []
    decreases |ds|
  {
    if ds != [] {
      var init := ds[..|ds| - 1];
      var last := DisplaySpaces(SpacesOf(ds[|ds| - 1]), |ds| - 1);
      EnumerationPerDisplay(init, k);
      OnDisplayAppend(EnumerateDisplays(init), last, k);
      if k == |ds| - 1 {
        OnDisplayAll(last, k);
        EnumerationOrdered(init);
        OnDisplayNone(EnumerateDisplays(init), k);
      } else {
        OnDisplayNone(last, k);
        assert k < |init| ==> init[k] == ds[k];
      }
    }
  }

  /** Only normal spaces are enumerated: the ids kept for a display are
      those of its spaces whose type reads as 0; a missing type reads -1. */
  lemma {:induction false} KeptIdsAreNormal(ss: seq<RawSpace>, id: int)
    ensures id in KeptIds(ss) <==> exists i :: 0 <= i < |ss| && Kept(ss[i]) && EnumeratedId(ss[i]) == id
    decreases |ss|
  {
    if ss != [] {
      var init := ss[..|ss| - 1];
      KeptIdsAreNormal(init, id);
      if id in KeptIds(ss) && id !in KeptIds(init) {
        assert Kept(ss[|ss| - 1]) && EnumeratedId(ss[|ss| - 1]) == id;
      }
      if exists i :: 0 <= i < |ss| && Kept(ss[i]) && EnumeratedId(ss[i]) == id {
        var i :| 0 <= i < |ss| && Kept(ss[i]) && EnumeratedId(ss[i]) == id;
        if i < |init| {
          assert init[i] == ss[i];
        }
      }
    }
  }

  /** A space whose type number is absent is never enumerated. */
  lemma {:induction false} UntypedSpacesSkipped(ss: seq<RawSpace>, d: nat)
    requires forall i :: 0 <= i < |ss| ==> ss[i].kind.None?
    ensures DisplaySpaces(ss, d) == []
    decreases |ss|
  {
    if ss != [] {
      UntypedSpacesSkipped(ss[..|ss| - 1], d);
    }
  }

  // ── Active space per display ─────────────────────────────────

  /** The (id, type) pair read from a display's "Current Space"; a missing
      number reads as 0 here, and a missing dictionary gives (0, 0). */
  function CurrentSpaceInfo(d: RawDisplay): (int, int) {
    match d.current
    case None => (0, 0)
    case Some(cur) => (cur.id.GetOr(0), cur.kind.GetOr(0))
  }

  /** `space_info_for_display`: the active space of a display. With no
      answer or no display it is (0, 0); an index past the last display
      reads display 0 instead. */
  function SpaceInfoForDisplay(snap: Snapshot, target: nat): (r: (int, int))
    ensures (snap.None? || snap.value == []) ==> r == (0, 0)
    ensures snap.Some? && target < |snap.value| ==> r == CurrentSpaceInfo(snap.value[target])
    ensures snap.Some? && snap.value != [] && target >= |snap.value| ==> r == CurrentSpaceInfo(snap.value[0])
  {
    match snap
    case None => (0, 0)
    case Some(ds) =>
      if |ds| == 0 then (0, 0)
      else
        var clamped := if target < |ds| then target else 0;
        CurrentSpaceInfo(ds[clamped])
  }
}
