/** The front end's countdown timers, one per desktop: the record of a
    timer, the patching helpers, and the store whose actions overwrite the
    timer map. Interval and timeout handles are supplied by the caller;
    the intervals currently scheduled are kept as a map from handle to the
    desktop they tick. */
module Timers {
  import opened Common

  datatype PerDesktopTimer = PerDesktopTimer(
    hours: int, minutes: int, seconds: int,
    running: bool, remaining: int, flashing: bool,
    timerRef: Option<int>)

  /** `defaultTimer`: all zero, stopped, not flashing, no interval. */
  const DEFAULT_TIMER: PerDesktopTimer := PerDesktopTimer(0, 0, 0, false, 0, false, None)

  /** A `Partial<PerDesktopTimer>`: the fields present overwrite. */
  datatype Patch = Patch(
    hours: Option<int>, minutes: Option<int>, seconds: Option<int>,
    running: Option<bool>, remaining: Option<int>, flashing: Option<bool>,
    timerRef: Option<Option<int>>)

  const EMPTY_PATCH: Patch := Patch(None, None, None, None, None, None, None)

  /** Object spread `{ ...t, ...patch }`. */
  function Patched(t: PerDesktopTimer, p: Patch): (r: PerDesktopTimer)
    ensures r.hours == p.hours.GetOr(t.hours) && r.minutes == p.minutes.GetOr(t.minutes)
    ensures r.seconds == p.seconds.GetOr(t.seconds) && r.running == p.running.GetOr(t.running)
    ensures r.remaining == p.remaining.GetOr(t.remaining) && r.flashing == p.flashing.GetOr(t.flashing)
    ensures r.timerRef == p.timerRef.GetOr(t.timerRef)
  {
    PerDesktopTimer(p.hours.GetOr(t.hours), p.minutes.GetOr(t.minutes), p.seconds.GetOr(t.seconds),
                    p.running.GetOr(t.running), p.remaining.GetOr(t.remaining),
                    p.flashing.GetOr(t.flashing), p.timerRef.GetOr(t.timerRef))
  }

  /** `getTimer`: the desktop's timer, the default one when it has none. */
  function GetTimer(timers: map<int, PerDesktopTimer>, id: int): (r: PerDesktopTimer)
    ensures id in timers ==> r == timers[id]
    ensures id !in timers ==> r == DEFAULT_TIMER
  {
    if id in timers then timers[id] else DEFAULT_TIMER
  }

  /** `updateTimer`: the desktop's timer, or the default one, patched; the
      other desktops' entries are kept. */
  function UpdateTimer(timers: map<int, PerDesktopTimer>, id: int, p: Patch): (r: map<int, PerDesktopTimer>)
    ensures r.Keys == timers.Keys + {id}
    ensures r[id] == Patched(GetTimer(timers, id), p)
    ensures forall k :: k in timers && k != id ==> r[k] == timers[k]
  {
    timers[id := Patched(GetTimer(timers, id), p)]
  }

  /** Reading after an update sees the patch on that desktop and nothing
      new elsewhere; an empty patch only materialises the default entry. */
  lemma UpdateThenGet(timers: map<int, PerDesktopTimer>, id: int, p: Patch, k: int)
    ensures GetTimer(UpdateTimer(timers, id, p), k) ==
      if k == id then Patched(GetTimer(timers, id), p) else GetTimer(timers, k)
    ensures GetTimer(UpdateTimer(timers, id, EMPTY_PATCH), k) == GetTimer(timers, k)
  {
  }

  /** Patches compose: the later one wins field by field. */
  lemma PatchesCompose(t: PerDesktopTimer, p: Patch, q: Patch)
    ensures Patched(Patched(t, p), q) == Patched(t, Patch(
      if q.hours.Some? then q.hours else p.hours,
      if q.minutes.Some? then q.minutes else p.minutes,
      if q.seconds.Some? then q.seconds else p.seconds,
      if q.running.Some? then q.running else p.running,
      if q.remaining.Some? then q.remaining else p.remaining,
      if q.flashing.Some? then q.flashing else p.flashing,
      if q.timerRef.Some? then q.timerRef else p.timerRef))
  {
  }

  /** The duration a timer's fields describe, in seconds. */
  function Total(t: PerDesktopTimer): int {
    t.hours * 3600 + t.minutes * 60 + t.seconds
  }

  /** The patch `populateFromPreset` applies for a preset of `seconds`. */
  function PresetPatch(seconds: int): Patch {
    Patch(Some(FloorDiv(seconds, 3600)), Some(FloorDiv(JsRem(seconds, 3600), 60)), Some(JsRem(seconds, 60)),
          None, None, None, None)
  }

  /** A preset of s >= 0 seconds is split into hours, minutes below 60
      and seconds below 60 that add back up to s. */
  lemma PresetDecomposition(t: PerDesktopTimer, s: int)
    requires s >= 0
    ensures var r := Patched(t, PresetPatch(s));
      0 <= r.minutes < 60 && 0 <= r.seconds < 60 && r.hours >= 0 && Total(r) == s
  {
    var h, rest := s / 3600, s % 3600;
    assert s == h * 3600 + rest;
    assert rest == rest / 60 * 60 + rest % 60;
    assert s % 60 == rest % 60 by {
      assert s == (h * 60) * 60 + rest;
    }
  }

  /** A negative preset does not decompose: -1 gives -1 h -1 min -1 s. */
  lemma NegativePresetExample(t: PerDesktopTimer)
    ensures var r := Patched(t, PresetPatch(-1));
      r.hours == -1 && r.minutes == -1 && r.seconds == -1 && Total(r) != -1
  {
  }

  /** The timer one tick later: a final tick (remaining at most 1) stops
      the timer at 0 and drops its interval, any other takes one second
      off. Flashing is handled separately. */
  function Ticked(t: PerDesktopTimer): (r: PerDesktopTimer)
    ensures t.remaining <= 1 ==> !r.running && r.remaining == 0 && r.timerRef.None?
    ensures t.remaining > 1 ==> r == t.(remaining := t.remaining - 1)
    ensures r.hours == t.hours && r.minutes == t.minutes && r.seconds == t.seconds && r.flashing == t.flashing
  {
    if t.remaining <= 1 then Patched(t, EMPTY_PATCH.(running := Some(false), remaining := Some(0), timerRef := Some(None)))
    else Patched(t, EMPTY_PATCH.(remaining := Some(t.remaining - 1)))
  }

  function TickedTimes(t: PerDesktopTimer, n: nat): PerDesktopTimer {
    if n == 0 then t else Ticked(TickedTimes(t, n - 1))
  }

  /** A timer started with `remaining` = n >= 1 counts down one second per
      tick for n - 1 ticks, and the n-th tick stops it at 0. */
  lemma {:induction false} Countdown(t: PerDesktopTimer, k: nat)
    requires t.remaining >= 1 && k <= t.remaining
    ensures k < t.remaining ==> TickedTimes(t, k) == t.(remaining := t.remaining - k)
    ensures k == t.remaining ==> !TickedTimes(t, k).running && TickedTimes(t, k).remaining == 0
    decreases k
  {
    if k > 0 {
      Countdown(t, k - 1);
    }
  }

  /** A notification the tick sends when the countdown ends. */
  datatype Notification = TimerDone

  /** The zustand store: the per-desktop timers, the desktop shown, the
      scheduled intervals (handle to desktop) and the notifications sent. */
  class TimerStore {
    var timers: map<int, PerDesktopTimer>
    var activeDesktop: int
    var intervals: map<int, int>
    var notifications: seq<Notification>

    constructor ()
      ensures timers == map[] && activeDesktop == 0 && intervals == map[] && notifications == []
    {
      timers := map[];
      activeDesktop := 0;
      intervals := map[];
      notifications := [];
    }

    method SetActiveDesktop(id: int)
      modifies this
      ensures activeDesktop == id
      ensures timers == old(timers) && intervals == old(intervals) && notifications == old(notifications)
    {
      activeDesktop := id;
    }

    /** `getActiveTimer`. */
    method GetActiveTimer() returns (t: PerDesktopTimer)
      ensures t == GetTimer(timers, activeDesktop)
      ensures activeDesktop in timers ==> t == timers[activeDesktop]
    {
      t := GetTimer(timers, activeDesktop);
    }

    /** Replaces the timer map, keeping everything else. */
    method Update(id: int, p: Patch)
      modifies this
      ensures timers == UpdateTimer(old(timers), id, p)
      ensures activeDesktop == old(activeDesktop) && intervals == old(intervals) && notifications == old(notifications)
    {
      timers := UpdateTimer(timers, id, p);
    }

    method SetHours(h: int)
      modifies this
      ensures timers == UpdateTimer(old(timers), activeDesktop, EMPTY_PATCH.(hours := Some(h)))
      ensures activeDesktop == old(activeDesktop) && intervals == old(intervals) && notifications == old(notifications)
    {
      Update(activeDesktop, EMPTY_PATCH.(hours := Some(h)));
    }

    method SetMinutes(m: int)
      modifies this
      ensures timers == UpdateTimer(old(timers), activeDesktop, EMPTY_PATCH.(minutes := Some(m)))
      ensures activeDesktop == old(activeDesktop) && intervals == old(intervals) && notifications == old(notifications)
    {
      Update(activeDesktop, EMPTY_PATCH.(minutes := Some(m)));
    }

    method SetSeconds(s: int)
      modifies this
      ensures timers == UpdateTimer(old(timers), activeDesktop, EMPTY_PATCH.(seconds := Some(s)))
      ensures activeDesktop == old(activeDesktop) && intervals == old(intervals) && notifications == old(notifications)
    {
      Update(activeDesktop, EMPTY_PATCH.(seconds := Some(s)));
    }

    method SetFlashing(f: bool)
      modifies this
      ensures timers == UpdateTimer(old(timers), activeDesktop, EMPTY_PATCH.(flashing := Some(f)))
      ensures activeDesktop == old(activeDesktop) && intervals == old(intervals) && notifications == old(notifications)
    {
      Update(activeDesktop, EMPTY_PATCH.(flashing := Some(f)));
    }

    /** `startTimer`: a duration of zero or less does nothing; otherwise
        the active desktop's timer runs from that many seconds, ticked by
        the new interval `handle`. An interval of an earlier start is not
        cleared. */
    method StartTimer(handle: int)
      modifies this
      ensures Total(GetTimer(old(timers), activeDesktop)) <= 0 ==>
        timers == old(timers) && intervals == old(intervals)
      ensures Total(GetTimer(old(timers), activeDesktop)) > 0 ==>
        timers == UpdateTimer(old(timers), activeDesktop, EMPTY_PATCH.(
          remaining := Some(Total(GetTimer(old(timers), activeDesktop))), running := Some(true),
          timerRef := Some(Some(handle)))) &&
        intervals == old(intervals)[handle := activeDesktop]
      ensures activeDesktop == old(activeDesktop) && notifications == old(notifications)
    {
      var timer := GetTimer(timers, activeDesktop);
      var total := timer.hours * 3600 + timer.minutes * 60 + timer.seconds;
      if total <= 0 {
        return;
      }
      intervals := intervals[handle := activeDesktop];
      Update(activeDesktop, EMPTY_PATCH.(remaining := Some(total), running := Some(true), timerRef := Some(Some(handle))));
    }

    /** `cancelTimer`: the active desktop's timer stops at 0 and its interval
        is cleared; the hours, minutes and seconds stay as they were. */
    method CancelTimer()
      modifies this
      ensures timers == UpdateTimer(old(timers), activeDesktop, EMPTY_PATCH.(
        running := Some(false), remaining := Some(0), timerRef := Some(None)))
      ensures var ref := GetTimer(old(timers), activeDesktop).timerRef;
        intervals == if ref.Some? then old(intervals) - {ref.value} else old(intervals)
      ensures activeDesktop == old(activeDesktop) && notifications == old(notifications)
    {
      var timer := GetTimer(timers, activeDesktop);
      if timer.timerRef.Some? {
        intervals := intervals - {timer.timerRef.value};
      }
      Update(activeDesktop, EMPTY_PATCH.(running := Some(false), remaining := Some(0), timerRef := Some(None)));
    }

    /** `populateFromPreset`: the preset's seconds split into the fields. */
    method PopulateFromPreset(seconds: int)
      modifies this
      ensures timers == UpdateTimer(old(timers), activeDesktop, PresetPatch(seconds))
      ensures activeDesktop == old(activeDesktop) && intervals == old(intervals) && notifications == old(notifications)
    {
      Update(activeDesktop, Patch(Some(FloorDiv(seconds, 3600)), Some(FloorDiv(JsRem(seconds, 3600), 60)),
                                 Some(JsRem(seconds, 60)), None, None, None, None));
    }

    /** `tick`: one second of the desktop's countdown. The final tick clears
        the interval, notifies when system notifications are on and granted,
        and starts the flash when flashing is on. */
    method Tick(desktopId: int, notifySystem: bool, notifyFlash: bool, granted: bool)
      modifies this
      ensures GetTimer(old(timers), desktopId).remaining > 1 ==>
        timers == old(timers)[desktopId := Ticked(GetTimer(old(timers), desktopId))] &&
        intervals == old(intervals) && notifications == old(notifications)
      ensures GetTimer(old(timers), desktopId).remaining <= 1 ==>
        var ended := Ticked(GetTimer(old(timers), desktopId));
        timers == old(timers)[desktopId := if notifyFlash then ended.(flashing := true) else ended] &&
        notifications == old(notifications) + (if notifySystem && granted then [TimerDone] else []) &&
        var ref := GetTimer(old(timers), desktopId).timerRef;
        intervals == if ref.Some? then old(intervals) - {ref.value} else old(intervals)
      ensures activeDesktop == old(activeDesktop)
    {
      var timer := GetTimer(timers, desktopId);
      if timer.remaining <= 1 {
        if timer.timerRef.Some? {
          intervals := intervals - {timer.timerRef.value};
        }
        Update(desktopId, EMPTY_PATCH.(running := Some(false), remaining := Some(0), timerRef := Some(None)));
        if notifySystem && granted {
          notifications := notifications + [TimerDone];
        }
        if notifyFlash {
          Update(desktopId, EMPTY_PATCH.(flashing := Some(true)));
        }
      } else {
        Update(desktopId, EMPTY_PATCH.(remaining := Some(timer.remaining - 1)));
      }
    }

    /** The flash timeout set by the final tick: flashing ends. */
    method EndFlash(desktopId: int)
      modifies this
      ensures timers == UpdateTimer(old(timers), desktopId, EMPTY_PATCH.(flashing := Some(false)))
      ensures activeDesktop == old(activeDesktop) && intervals == old(intervals) && notifications == old(notifications)
    {
      Update(desktopId, EMPTY_PATCH.(flashing := Some(false)));
    }
  }

  /** Ticking one desktop leaves every other desktop's timer as it was. */
  lemma TickIsLocal(timers: map<int, PerDesktopTimer>, desktopId: int, t: PerDesktopTimer, k: int)
    requires k != desktopId
    ensures GetTimer(timers[desktopId := t], k) == GetTimer(timers, k)
  {
  }
}
