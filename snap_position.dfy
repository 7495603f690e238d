/** Where a note window snaps to on a monitor: one of nine anchors, a
    padding from the edges and room for the menu bar, then a clamp that
    keeps the window on the monitor. All quantities are whole physical
    pixels; the padding and the menu-bar height, scaled and rounded from
    16 and 25 logical pixels by the caller, are parameters. */
module SnapPosition {
  import opened Common

  datatype MonitorBounds = MonitorBounds(x: int, y: int, width: int, height: int)
  datatype WindowSize = WindowSize(width: int, height: int)
  datatype Point = Point(x: int, y: int)

  /** `Math.round(n / 2)` for an integer n: halves round up. */
  function RoundHalf(n: int): (r: int)
    ensures 2 * r == n || 2 * r == n + 1
  {
    FloorDiv(n + 1, 2)
  }

  /** `Math.max(lo, Math.min(v, hi))`: v pulled below hi, then above lo,
      lo winning when the two bounds cross. */
  function Clamp(v: int, lo: int, hi: int): (r: int)
    ensures r >= lo
    ensures lo <= hi ==> r <= hi
    ensures lo <= v <= hi ==> r == v
  {
    var below := if v < hi then v else hi;
    if lo > below then lo else below
  }

  /** Where the horizontal and the vertical position come from. */
  datatype Horizontal = Left | HCenter | Right
  datatype Vertical = Top | Middle | Bottom

  /** "left" anywhere in the anchor wins, then "center"; anything else is
      the right edge. */
  function HorizontalOf(anchor: string): (h: Horizontal)
    ensures h == Left <==> Contains(anchor, "left")
    ensures h == HCenter <==> !Contains(anchor, "left") && Contains(anchor, "center")
  {
    if Contains(anchor, "left") then Left else if Contains(anchor, "center") then HCenter else Right
  }

  /** A "top" prefix, then a "middle" prefix; anything else is the bottom. */
  function VerticalOf(anchor: string): (v: Vertical)
    ensures v == Top <==> HasPrefix(anchor, "top")
    ensures v == Middle <==> !HasPrefix(anchor, "top") && HasPrefix(anchor, "middle")
  {
    if HasPrefix(anchor, "top") then Top else if HasPrefix(anchor, "middle") then Middle else Bottom
  }

  /** `calculateSnapPosition`. */
  function CalculateSnapPosition(anchor: string, monitor: MonitorBounds, win: WindowSize, padding: int, menuBar: int): (p: Point)
    ensures p.x >= monitor.x
    ensures win.width <= monitor.width ==> p.x + win.width <= monitor.x + monitor.width
    ensures p.y >= monitor.y + menuBar
    ensures menuBar + win.height <= monitor.height ==> p.y + win.height <= monitor.y + monitor.height
  {
    var x := match HorizontalOf(anchor)
      case Left => monitor.x + padding
      case HCenter => monitor.x + RoundHalf(monitor.width - win.width)
      case Right => monitor.x + monitor.width - win.width - padding;
    var y := match VerticalOf(anchor)
      case Top => monitor.y + menuBar
      case Middle => monitor.y + RoundHalf(monitor.height - win.height)
      case Bottom => monitor.y + monitor.height - win.height - padding;
    Point(Clamp(x, monitor.x, monitor.x + monitor.width - win.width),
          Clamp(y, monitor.y + menuBar, monitor.y + monitor.height - win.height))
  }

  /** The position depends on the anchor only through its two choices. */
  lemma AnchorChoicesDecide(a: string, b: string, monitor: MonitorBounds, win: WindowSize, padding: int, menuBar: int)
    requires HorizontalOf(a) == HorizontalOf(b) && VerticalOf(a) == VerticalOf(b)
    ensures CalculateSnapPosition(a, monitor, win, padding, menuBar) == CalculateSnapPosition(b, monitor, win, padding, menuBar)
  {
  }

  /** Top right on a monitor with room to spare: inset by the padding from
      the right edge, just below the menu bar. */
  lemma TopRightRoomy(anchor: string, monitor: MonitorBounds, win: WindowSize, padding: int, menuBar: int)
    requires HorizontalOf(anchor) == Right && VerticalOf(anchor) == Top
    requires 0 <= padding <= monitor.width - win.width && menuBar + win.height <= monitor.height
    ensures CalculateSnapPosition(anchor, monitor, win, padding, menuBar) ==
      Point(monitor.x + monitor.width - win.width - padding, monitor.y + menuBar)
  {
  }

  /** Bottom left with room to spare: inset by the padding from the left
      and the bottom edge. */
  lemma BottomLeftRoomy(anchor: string, monitor: MonitorBounds, win: WindowSize, padding: int, menuBar: int)
    requires HorizontalOf(anchor) == Left && VerticalOf(anchor) == Bottom
    requires 0 <= padding <= monitor.width - win.width && menuBar <= monitor.height - win.height - padding
    ensures CalculateSnapPosition(anchor, monitor, win, padding, menuBar) ==
      Point(monitor.x + padding, monitor.y + monitor.height - win.height - padding)
  {
  }

  /** Middle centre, when the window fits below the menu bar. */
  lemma MiddleCenterRoomy(anchor: string, monitor: MonitorBounds, win: WindowSize, padding: int, menuBar: int)
    requires HorizontalOf(anchor) == HCenter && VerticalOf(anchor) == Middle
    requires win.width <= monitor.width && win.height <= monitor.height
    requires menuBar <= RoundHalf(monitor.height - win.height)
    ensures CalculateSnapPosition(anchor, monitor, win, padding, menuBar) ==
      Point(monitor.x + RoundHalf(monitor.width - win.width), monitor.y + RoundHalf(monitor.height - win.height))
  {
  }

  /** How the three anchors used in the examples below are read. */
  lemma TopRightAnchor()
    ensures HorizontalOf("top-right") == Right && VerticalOf("top-right") == Top
  {
    MissingCharNotContained("top-right", "left", 'l');
    MissingCharNotContained("top-right", "center", 'c');
    assert "top-right"[..3] == "top";
  }

  lemma BottomLeftAnchor()
    ensures HorizontalOf("bottom-left") == Left && VerticalOf("bottom-left") == Bottom
  {
    assert "bottom-left"[7..][..4] == "left";
    assert "bottom-left"[..3][0] != "top"[0];
    assert "bottom-left"[..6][0] != "middle"[0];
  }

  lemma MiddleCenterAnchor()
    ensures HorizontalOf("middle-center") == HCenter && VerticalOf("middle-center") == Middle
  {
    MissingCharNotContained("middle-center", "left", 'f');
    assert "middle-center"[7..][..6] == "center";
    assert "middle-center"[..3][0] != "top"[0];
    assert "middle-center"[..6] == "middle";
  }

  /** The cases of the accompanying test file: a Retina monitor (scale 2,
      padding 32, menu bar 50), an external monitor at x = 3024 (scale 1,
      padding 16, menu bar 25), and a monitor too small for the padding. */
  lemma TestCases()
    ensures CalculateSnapPosition("top-right", MonitorBounds(0, 0, 3024, 1964), WindowSize(580, 440), 32, 50) ==
      Point(3024 - 580 - 32, 50)
    ensures CalculateSnapPosition("bottom-left", MonitorBounds(3024, 0, 1920, 1080), WindowSize(290, 220), 16, 25) ==
      Point(3024 + 16, 1080 - 220 - 16)
    ensures CalculateSnapPosition("middle-center", MonitorBounds(0, 0, 3024, 1964), WindowSize(580, 440), 32, 50) ==
      Point(1222, 762)
    ensures var p := CalculateSnapPosition("top-right", MonitorBounds(100, 100, 300, 250), WindowSize(290, 220), 16, 25);
      p.x >= 100 && p.x + 290 <= 400 && p.y + 220 <= 350
  {
    TopRightAnchor();
    BottomLeftAnchor();
    MiddleCenterAnchor();
  }
}
