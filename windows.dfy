/** One note window per monitor: the window labels, the label-to-display
    mapping, the choice between two monitor enumerations, and the
    reconciliation of the live windows with the connected monitors after a
    display reconfiguration. Windows are represented by their labels. */
module Windows {
  import opened Common

  const MAIN: string := "main"
  const MONITOR_PREFIX: string := "monitor-"

  // ── Labels ───────────────────────────────────────────────────

  /** The label of the window for monitor `i`: "main" for the first,
      "monitor-i" for the others. */
  function MonitorLabel(i: nat): (l: string)
    ensures i == 0 <==> l == MAIN
  {
    if i == 0 then MAIN
    else
      var l := MONITOR_PREFIX + NatToString(i);
      assert l[1] != MAIN[1];
      l
  }

  /** The labels expected for `n` monitors, in monitor order. */
  function ExpectedLabels(n: nat): (r: seq<string>)
    ensures |r| == n && forall i :: 0 <= i < n ==> r[i] == MonitorLabel(i)
  {
    seq(n, i requires 0 <= i => MonitorLabel(i))
  }

  /** Distinct monitors get distinct labels. */
  lemma MonitorLabelInjective(i: nat, j: nat)
    requires MonitorLabel(i) == MonitorLabel(j)
    ensures i == j
  {
    if i != 0 && j != 0 {
      var n := |MONITOR_PREFIX|;
      assert NatToString(i) == MonitorLabel(i)[n..];
      assert NatToString(j) == MonitorLabel(j)[n..];
      NatToStringInjective(i, j);
    }
  }

  /** Rust `usize::from_str`: an optional '+', then one or more decimal
      digits (leading zeros allowed) denoting a value below 2^64; anything
      else, the empty string and a lone "+" included, is an error. */
  function ParseUsize(s: string): (r: Option<nat>)
    ensures r.Some? ==> r.value < USIZE_LIMIT
    ensures AllDigits(s) && s != [] && DecimalValue(s) < USIZE_LIMIT ==> r == Some(DecimalValue(s))
    ensures s == [] || s == "+" ==> r.None?
    ensures var t := if |s| > 0 && s[0] == '+' then s[1..] else s;
      && (r.Some? <==> t != [] && AllDigits(t) && DecimalValue(t) < USIZE_LIMIT)
      && (r.Some? ==> r.value == DecimalValue(t))
  {
    var digits := if |s| > 0 && s[0] == '+' then s[1..] else s;
    if digits == [] || !AllDigits(digits) then None
    else
      var v := DecimalValue(digits);
      if v < USIZE_LIMIT then Some(v) else None
  }

  /** `window_label_to_display_index`: "main" is display 0, "monitor-N"
      is display N when N parses as a `usize`, and every other label
      is display 0. */
  function WindowLabelToDisplayIndex(windowLabel: string): (r: nat)
    ensures r < USIZE_LIMIT
    ensures !HasPrefix(windowLabel, MONITOR_PREFIX) ==> r == 0
    ensures r != 0 ==> HasPrefix(windowLabel, MONITOR_PREFIX) && ParseUsize(windowLabel[|MONITOR_PREFIX|..]) == Some(r)
    ensures HasPrefix(windowLabel, MONITOR_PREFIX) && ParseUsize(windowLabel[|MONITOR_PREFIX|..]).None? ==> r == 0
  {
    if windowLabel == MAIN then 0
    else if HasPrefix(windowLabel, MONITOR_PREFIX) then ParseUsize(windowLabel[|MONITOR_PREFIX|..]).GetOr(0)
    else 0
  }

  /** The mapping inverts the labelling for every monitor a `usize` can
      count. */
  lemma LabelRoundTrip(i: nat)
    requires i < USIZE_LIMIT
    ensures WindowLabelToDisplayIndex(MonitorLabel(i)) == i
  {
    if i != 0 {
      var l := MonitorLabel(i);
      assert l[|MONITOR_PREFIX|..] == NatToString(i);
      DecimalValueOfNatToString(i);
    }
  }

  /** Labels outside the scheme read as display 0; a '+' sign and leading
      zeros are accepted by the number parsing. */
  lemma LabelEdgeCases()
    ensures WindowLabelToDisplayIndex("settings") == 0
    ensures WindowLabelToDisplayIndex("monitor-") == 0
    ensures WindowLabelToDisplayIndex("monitor-+") == 0
    ensures WindowLabelToDisplayIndex("monitor-x1") == 0
    ensures WindowLabelToDisplayIndex("monitor-+2") == 2
    ensures WindowLabelToDisplayIndex("monitor-02") == 2
  {
    assert "monitor-+2"[|MONITOR_PREFIX|..] == "+2";
    assert "+2"[1..] == "2";
    assert "monitor-02"[|MONITOR_PREFIX|..] == "02";
    assert "02"[..1] == "0";
    assert "monitor-x1"[|MONITOR_PREFIX|..] == "x1";
    assert "monitor-+"[|MONITOR_PREFIX|..] == "+";
    assert "monitor-"[|MONITOR_PREFIX|..] == "";
  }

  // ── Choosing a monitor enumeration ───────────────────────────

  /** `get_cg_display_count`: the CoreGraphics count, 0 when the query
      reports an error. */
  function CgDisplayCount(err: int, count: u32): (r: u32)
    ensures err != 0 ==> r == 0
    ensures err == 0 ==> r == count
  {
    if err != 0 then 0 else count
  }

  /** `get_monitors_with_fallback`: the first enumeration is used when it
      has at least as many monitors as CoreGraphics reports, or when that
      count is 0; otherwise the retry is used unless it found fewer than the
      first. None stands for an enumeration that failed. */
  function MonitorsWithFallback<M>(cgCount: u32, first: Option<seq<M>>, retry: Option<seq<M>>): (r: Option<seq<M>>)
    ensures first.None? ==> r.None?
    ensures first.Some? && (|first.value| >= cgCount || cgCount == 0) ==> r == first
    ensures first.Some? && |first.value| < cgCount && retry.None? ==> r.None?
    ensures r.Some? ==> first.Some? && |r.value| >= |first.value|
    ensures r.Some? ==> r == first || r == retry
    ensures first.Some? && |first.value| < cgCount && retry.Some? ==>
      r.Some? && |r.value| == if |retry.value| >= |first.value| then |retry.value| else |first.value|
  {
    match first
    case None => None
    case Some(monitors) =>
      if |monitors| >= cgCount || cgCount == 0 then first
      else
        match retry
        case None => None
        case Some(again) => if |again| >= |monitors| then retry else first
  }

  // ── Reconciling windows with monitors ────────────────────────

  /** The windows among the labels of monitors below `k` that are created:
      those not already open whose build does not fail. */
  function CreatedBelow(existing: set<string>, k: nat, failed: set<string>): set<string> {
    set i | 0 <= i < k && MonitorLabel(i) !in existing && MonitorLabel(i) !in failed :: MonitorLabel(i)
  }

  /** The open windows that are closed: every one but "main" whose label
      is not expected. */
  function Closed(existing: set<string>, n: nat): (r: set<string>)
    ensures r <= existing && MAIN !in r
    ensures forall l :: l in existing && l != MAIN && l !in ExpectedLabels(n) ==> l in r
  {
    set l | l in existing && l != MAIN && l !in ExpectedLabels(n)
  }

  /** The open windows after reconciling with `n` monitors, where the
      windows labelled in `failed` cannot be built and those labelled in
      `closeFailed` report an error when closed, which is ignored, so they
      stay open. */
  function Reconciled(existing: set<string>, n: nat, failed: set<string>, closeFailed: set<string>): set<string> {
    (existing - (Closed(existing, n) - closeFailed)) + CreatedBelow(existing, n, failed)
  }

  /** A window whose close fails is still open afterwards, and every other
      window that is closed is gone. */
  lemma FailedCloseStaysOpen(existing: set<string>, n: nat, failed: set<string>, closeFailed: set<string>, l: string)
    requires l in Closed(existing, n)
    ensures l in Reconciled(existing, n, failed, closeFailed) <==> l in closeFailed
  {
    if l in CreatedBelow(existing, n, failed) {
      CreatedAreExpected(existing, n, failed, l);
    }
  }

  lemma CreatedBelowStep(existing: set<string>, k: nat, failed: set<string>)
    ensures CreatedBelow(existing, k + 1, failed) ==
      CreatedBelow(existing, k, failed) +
        (if MonitorLabel(k) !in existing && MonitorLabel(k) !in failed then {MonitorLabel(k)} else {})
  {
    var l := MonitorLabel(k);
    if l !in existing && l !in failed {
      assert l in CreatedBelow(existing, k + 1, failed);
    }
    forall x | x in CreatedBelow(existing, k + 1, failed)
      ensures x in CreatedBelow(existing, k, failed) || x == l
    {
      var i :| 0 <= i < k + 1 && MonitorLabel(i) !in existing && MonitorLabel(i) !in failed && x == MonitorLabel(i);
    }
  }

  /** A created label is always an expected one. */
  lemma CreatedAreExpected(existing: set<string>, n: nat, failed: set<string>, l: string)
    requires l in CreatedBelow(existing, n, failed)
    ensures l in ExpectedLabels(n) && l !in existing
  {
    var i :| 0 <= i < n && MonitorLabel(i) !in existing && MonitorLabel(i) !in failed && l == MonitorLabel(i);
    assert ExpectedLabels(n)[i] == l;
  }

  /** When every build succeeds, the open windows afterwards are exactly
      the expected ones plus "main" if it was open. */
  lemma ReconciledExactly(existing: set<string>, n: nat)
    ensures Reconciled(existing, n, {}, {}) == (set i | 0 <= i < n :: MonitorLabel(i)) + ({MAIN} * existing)
  {
    var r := Reconciled(existing, n, {}, {});
    var expected := set i | 0 <= i < n :: MonitorLabel(i);
    forall l | l in r
      ensures l in expected || l == MAIN
    {
      if l in CreatedBelow(existing, n, {}) {
        var i :| 0 <= i < n && MonitorLabel(i) !in existing && l == MonitorLabel(i);
      } else if l != MAIN {
        var i :| 0 <= i < n && ExpectedLabels(n)[i] == l;
      }
    }
    forall l | l in expected
      ensures l in r
    {
      var i :| 0 <= i < n && l == MonitorLabel(i);
      assert ExpectedLabels(n)[i] == l;
      if l !in existing {
        assert l in CreatedBelow(existing, n, {});
      }
    }
  }

  /** "main" is never closed, and no expected window is closed. */
  lemma ReconcileKeepsExpected(existing: set<string>, n: nat, failed: set<string>, closeFailed: set<string>)
    ensures MAIN in existing ==> MAIN in Reconciled(existing, n, failed, closeFailed)
    ensures forall i :: 0 <= i < n && MonitorLabel(i) in existing ==> MonitorLabel(i) in Reconciled(existing, n, failed, closeFailed)
  {
    forall i | 0 <= i < n && MonitorLabel(i) in existing
      ensures MonitorLabel(i) in Reconciled(existing, n, failed, closeFailed)
    {
      assert ExpectedLabels(n)[i] == MonitorLabel(i);
    }
  }

  /** Reconciling again with the same monitors changes nothing. */
  lemma ReconcileIdempotent(existing: set<string>, n: nat)
    ensures Reconciled(Reconciled(existing, n, {}, {}), n, {}, {}) == Reconciled(existing, n, {}, {})
  {
    var once := Reconciled(existing, n, {}, {});
    ReconciledExactly(existing, n);
    ReconciledExactly(once, n);
    assert {MAIN} * once == {MAIN} * existing || 0 < n;
    if n > 0 {
      assert MAIN == MonitorLabel(0);
    }
  }

  /** The sign of a CoreGraphics display-change notification that a
      reconfiguration is about to begin. */
  const BEGIN_CONFIGURATION_FLAG: bv32 := 1

  /** The begin notification is recognised by its lowest bit alone. */
  predicate IsBeginConfiguration(flags: bv32) {
    flags & BEGIN_CONFIGURATION_FLAG != 0
  }

  lemma BeginFlagIsLowestBit(flags: bv32)
    ensures IsBeginConfiguration(flags | BEGIN_CONFIGURATION_FLAG)
    ensures !IsBeginConfiguration(flags & !BEGIN_CONFIGURATION_FLAG)
  {
  }

  /** The application's windows, by label, and the monitor counts sent to
      the front end in "monitors-changed" events. */
  class WindowManager {
    var live: set<string>
    var events: seq<nat>

    constructor (live0: set<string>)
      ensures live == live0 && events == []
    {
      live := live0;
      events := [];
    }

    /** `sync_windows_to_monitors`: with the connected monitor count (None
        when enumeration fails, which leaves everything as it was), open a
        window for each monitor lacking one, close every window but "main"
        whose monitor is gone, and announce the monitor count. The windows
        in `failed` cannot be built, and closing those in `closeFailed`
        reports an error that is ignored. */
    method SyncWindowsToMonitors(monitors: Option<nat>, failed: set<string>, closeFailed: set<string>)
      modifies this
      ensures monitors.None? ==> live == old(live) && events == old(events)
      ensures monitors.Some? ==>
        live == Reconciled(old(live), monitors.value, failed, closeFailed) && events == old(events) + [monitors.value]
    {
      if monitors.None? {
        return;
      }
      var monitorCount := monitors.value;
      var existing := live;
      CreateMissing(monitorCount, failed);
      CloseRemoved(existing, monitorCount, failed, closeFailed);
      events := events + [monitorCount];
    }

    /** The creation loop: a window for every expected label not already
        live, except those whose creation fails. */
    method CreateMissing(monitorCount: nat, failed: set<string>)
      modifies this
      ensures live == old(live) + CreatedBelow(old(live), monitorCount, failed)
      ensures events == old(events)
    {
      var existing := live;
      var expectedLabels := ExpectedLabels(monitorCount);
      for i := 0 to monitorCount
        invariant live == existing + CreatedBelow(existing, i, failed)
        invariant events == old(events)
      {
        CreatedBelowStep(existing, i, failed);
        var windowLabel := expectedLabels[i];
        if windowLabel in existing {
          continue;
        }
        if windowLabel !in failed {
          live := live + {windowLabel};
        }
      }
    }

    /** The closing loop over the windows that were live before the
        creation loop: every one but "main" whose label is not expected is
        closed, and one whose close fails stays open. */
    method CloseRemoved(existing: set<string>, monitorCount: nat, failed: set<string>, closeFailed: set<string>)
      requires live == existing + CreatedBelow(existing, monitorCount, failed)
      modifies this
      ensures live == Reconciled(existing, monitorCount, failed, closeFailed)
      ensures events == old(events)
    {
      var expectedLabels := ExpectedLabels(monitorCount);
      var created := CreatedBelow(existing, monitorCount, failed);
      var todo := existing;
      while todo != {}
        invariant todo <= existing
        invariant live == (existing - (Closed(existing, monitorCount) - todo - closeFailed)) + created
        invariant events == old(events)
        decreases todo
      {
        var windowLabel := Pick(todo);
        todo := todo - {windowLabel};
        if windowLabel == MAIN {
          continue;
        }
        if windowLabel !in expectedLabels && windowLabel !in closeFailed {
          assert windowLabel !in created by {
            if windowLabel in created {
              CreatedAreExpected(existing, monitorCount, failed, windowLabel);
            }
          }
          live := live - {windowLabel};
        }
      }
    }

    /** `display_reconfiguration_callback`: the begin notification is
        ignored; any other one reconciles the windows. */
    method OnDisplayReconfiguration(flags: bv32, monitors: Option<nat>, failed: set<string>, closeFailed: set<string>)
      modifies this
      ensures IsBeginConfiguration(flags) ==> live == old(live) && events == old(events)
      ensures !IsBeginConfiguration(flags) && monitors.Some? ==>
        live == Reconciled(old(live), monitors.value, failed, closeFailed) && events == old(events) + [monitors.value]
      ensures !IsBeginConfiguration(flags) && monitors.None? ==> live == old(live) && events == old(events)
    {
      if flags & BEGIN_CONFIGURATION_FLAG != 0 {
        return;
      }
      SyncWindowsToMonitors(monitors, failed, closeFailed);
    }
  }
}
