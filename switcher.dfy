/** Switching the active desktop of a display by simulated Ctrl+Arrow key
    presses: left arrow (key code 123) moves one space to the left, right
    arrow (124) one space to the right. The key presses are returned
    instead of being sent. */
module Switcher {
  import opened Common
  import opened Spaces

  const LEFT_ARROW: int := 123
  const RIGHT_ARROW: int := 124

  /** The magnitude of a step count (Rust `unsigned_abs`). */
  function Abs(n: int): (r: nat)
    ensures r == n || r == -n
  {
    if n < 0 then -n else n
  }

  /** `simulate_desktop_switch`: |steps| presses of the right arrow when
      `steps` is positive, of the left arrow otherwise. */
  method SimulateDesktopSwitch(steps: int) returns (keys: seq<int>)
    ensures |keys| == Abs(steps)
    ensures forall i :: 0 <= i < |keys| ==> keys[i] == (if steps > 0 then RIGHT_ARROW else LEFT_ARROW)
  {
    var keycode := if steps > 0 then RIGHT_ARROW else LEFT_ARROW;
    keys := [];
    for n := 0 to Abs(steps)
      invariant |keys| == n
      invariant forall i :: 0 <= i < n ==> keys[i] == keycode
    {
      keys := keys + [keycode];
    }
  }

  /** Where a sequence of presses leads from position `pos` on a display:
      each right arrow adds one, each left arrow takes one away. */
  function Moved(pos: int, keys: seq<int>): int {
    if keys == [] then pos
    else Moved(pos, keys[..|keys| - 1]) + (if keys[|keys| - 1] == RIGHT_ARROW then 1 else -1)
  }

  /** Pressing one key code `n` times moves by exactly `n` in its
      direction, and every intermediate position lies between the start
      and the end, so the edge of the display is never pushed against. */
  lemma {:induction false} MovedUniform(pos: int, keys: seq<int>, code: int)
    requires code == LEFT_ARROW || code == RIGHT_ARROW
    requires forall i :: 0 <= i < |keys| ==> keys[i] == code
    ensures Moved(pos, keys) == if code == RIGHT_ARROW then pos + |keys| else pos - |keys|
    ensures forall n :: 0 <= n <= |keys| ==>
      (if code == RIGHT_ARROW then pos <= Moved(pos, keys[..n]) <= pos + |keys|
       else pos - |keys| <= Moved(pos, keys[..n]) <= pos)
    decreases |keys|
  {
    if keys != [] {
      var init := keys[..|keys| - 1];
      MovedUniform(pos, init, code);
      forall n | 0 <= n <= |keys|
        ensures if code == RIGHT_ARROW then pos <= Moved(pos, keys[..n]) <= pos + |keys|
                else pos - |keys| <= Moved(pos, keys[..n]) <= pos
      {
        if n < |keys| {
          assert keys[..n] == init[..n];
        } else {
          assert keys[..n] == keys;
        }
      }
    }
  }

  /** The ids of the enumerated spaces on one display, in order. */
  function DisplayIds(spaces: seq<Space>, display: nat): (r: seq<int>)
    ensures |r| == |OnDisplay(spaces, display)|
  {
    Ids(OnDisplay(spaces, display))
  }

  /** The signed number of steps `switch_desktop` takes: the target's
      position minus the current space's position among the spaces of the
      display; None when either is not on that display or they coincide. */
  function SwitchSteps(snap: Snapshot, display: nat, target: int): (r: Option<int>)
    ensures var ids := DisplayIds(Enumerate(snap), display);
      var current := SpaceInfoForDisplay(snap, display).0;
      r.Some? <==> (current in ids && target in ids && IndexOf(ids, current) != IndexOf(ids, target))
    ensures r.Some? ==> r.value != 0
    ensures r.Some? ==> var ids := DisplayIds(Enumerate(snap), display);
      exists cur, tgt :: 0 <= cur < |ids| && 0 <= tgt < |ids| &&
        ids[cur] == SpaceInfoForDisplay(snap, display).0 && ids[tgt] == target && r.value == tgt - cur
  {
    var current := SpaceInfoForDisplay(snap, display).0;
    var ids := DisplayIds(Enumerate(snap), display);
    match (IndexOf(ids, current), IndexOf(ids, target))
    case (Some(cur), Some(tgt)) =>
      if cur != tgt then Some(tgt as int - cur as int) else None
    case _ => None
  }

  /** `switch_desktop`: true, together with the presses sent, when the
      current and the target space are distinct spaces of the display;
      false and no presses otherwise. */
  method SwitchDesktop(snap: Snapshot, display: nat, target: int) returns (ok: bool, keys: seq<int>)
    ensures ok <==> SwitchSteps(snap, display, target).Some?
    ensures !ok ==> keys == []
    ensures ok ==> var steps := SwitchSteps(snap, display, target).value;
      |keys| == Abs(steps) && forall i :: 0 <= i < |keys| ==> keys[i] == (if steps > 0 then RIGHT_ARROW else LEFT_ARROW)
  {
    var current := SpaceInfoForDisplay(snap, display).0;
    var spaces := EnumerateSpaces(snap);
    var displaySpaces := DisplayIds(spaces, display);
    var currentPos := IndexOf(displaySpaces, current);
    var targetPos := IndexOf(displaySpaces, target);
    if currentPos.Some? && targetPos.Some? && currentPos.value != targetPos.value {
      var steps := targetPos.value as int - currentPos.value as int;
      keys := SimulateDesktopSwitch(steps);
      ok := true;
    } else {
      keys := [];
      ok := false;
    }
  }

  /** The presses of a successful switch lead from the current space's
      position on the display to exactly the target's position. */
  lemma SwitchLandsOnTarget(snap: Snapshot, display: nat, target: int, keys: seq<int>)
    requires SwitchSteps(snap, display, target).Some?
    requires var steps := SwitchSteps(snap, display, target).value;
      |keys| == Abs(steps) && forall i :: 0 <= i < |keys| ==> keys[i] == (if steps > 0 then RIGHT_ARROW else LEFT_ARROW)
    ensures var ids := DisplayIds(Enumerate(snap), display);
      var cur := IndexOf(ids, SpaceInfoForDisplay(snap, display).0).value;
      var tgt := IndexOf(ids, target).value;
      Moved(cur, keys) == tgt && ids[tgt] == target
  {
    var steps := SwitchSteps(snap, display, target).value;
    MovedUniform(IndexOf(DisplayIds(Enumerate(snap), display), SpaceInfoForDisplay(snap, display).0).value,
                 keys, if steps > 0 then RIGHT_ARROW else LEFT_ARROW);
  }

  /** Asking for the space that is already active does nothing. */
  lemma SwitchToCurrentRefused(snap: Snapshot, display: nat)
    ensures SwitchSteps(snap, display, SpaceInfoForDisplay(snap, display).0).None?
  {
  }
}
