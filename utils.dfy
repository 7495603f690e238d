/** The front end's string formatters: the countdown clock, the name shown
    for a monitor and the label of a timer preset. Numbers are the
    integers JavaScript renders with `String(n)`. */
module Utils {
  import opened Common

  // ── formatCountdown ──────────────────────────────────────────

  /** `String(n).padStart(2, "0")`. */
  function Pad2(n: int): (s: string)
    ensures |s| == if |IntToString(n)| < 2 then 2 else |IntToString(n)|
    ensures 0 <= n < 10 ==> s == ['0'] + NatToString(n)
    ensures n < 0 || n >= 10 ==> s == IntToString(n)
  {
    var t := IntToString(n);
    if |t| < 2 then ['0'] + t else t
  }

  /** `formatCountdown`: hours, minutes and seconds of `total`, each
      padded to two digits, joined by ':'. */
  function FormatCountdown(total: int): string {
    var h := FloorDiv(total, 3600);
    var m := FloorDiv(JsRem(total, 3600), 60);
    var s := JsRem(total, 60);
    Pad2(h) + ":" + Pad2(m) + ":" + Pad2(s)
  }

  /** A padded number below 100 is exactly two digits and reads back. */
  lemma Pad2Digits(n: nat)
    requires n < 100
    ensures |Pad2(n)| == 2 && AllDigits(Pad2(n)) && DecimalValue(Pad2(n)) == n
  {
    DecimalValueOfNatToString(n);
    if n < 10 {
      var s := Pad2(n);
      assert s[..1] == "0" && s[..1][..0] == [];
    } else {
      NatToStringTwoDigits(n);
    }
  }

  /** Reading a clock "hh:mm:ss" back as seconds. */
  function ParseCountdown(s: string): int
    requires |s| == 8 && AllDigits(s[0..2]) && AllDigits(s[3..5]) && AllDigits(s[6..8])
  {
    DecimalValue(s[0..2]) * 3600 + DecimalValue(s[3..5]) * 60 + DecimalValue(s[6..8])
  }

  /** Three two-character fields joined by ':' sit at fixed offsets. */
  lemma ClockLayout(a: string, b: string, c: string)
    requires |a| == 2 && |b| == 2 && |c| == 2
    ensures var s := a + ":" + b + ":" + c;
      |s| == 8 && s[2] == ':' && s[5] == ':' && s[0..2] == a && s[3..5] == b && s[6..8] == c
  {
  }

  /** The three fields of a total below 100 hours, as the clock computes
      them, are its hours, minutes and seconds. */
  lemma CountdownFields(total: int)
    requires 0 <= total < 360000
    ensures var h, m, s := FloorDiv(total, 3600), FloorDiv(JsRem(total, 3600), 60), JsRem(total, 60);
      0 <= h < 100 && 0 <= m < 60 && 0 <= s < 60 && h * 3600 + m * 60 + s == total
  {
    var h, rest := total / 3600, total % 3600;
    assert total == h * 3600 + rest;
    assert rest == rest / 60 * 60 + rest % 60;
    assert total % 60 == rest % 60 by {
      assert total == (h * 60) * 60 + rest;
    }
  }

  /** Below 100 hours the clock has exactly 8 characters, its fields are
      digits with ':' between them, and it reads back as `total`. */
  lemma FormatCountdownRoundTrip(total: int)
    requires 0 <= total < 360000
    ensures var s := FormatCountdown(total);
      |s| == 8 && s[2] == ':' && s[5] == ':' &&
      AllDigits(s[0..2]) && AllDigits(s[3..5]) && AllDigits(s[6..8]) &&
      ParseCountdown(s) == total
  {
    CountdownFields(total);
    var h, m, sec := FloorDiv(total, 3600), FloorDiv(JsRem(total, 3600), 60), JsRem(total, 60);
    Pad2Digits(h);
    Pad2Digits(m);
    Pad2Digits(sec);
    ClockLayout(Pad2(h), Pad2(m), Pad2(sec));
  }

  /** From 100 hours on the hour field outgrows two digits. */
  lemma FormatCountdownLong(total: int)
    requires total >= 360000
    ensures |FormatCountdown(total)| > 8
  {
    var h := total / 3600;
    assert h >= 100;
    assert |NatToString(h)| >= 3 by {
      assert NatToString(h) == NatToString(h / 10) + [DigitChar(h % 10)];
      assert h / 10 >= 10;
    }
  }

  /** A negative total renders each field negative: -1 s is "-1:-1:-1". */
  lemma FormatCountdownNegative()
    ensures FormatCountdown(-1) == "-1:-1:-1"
  {
    assert NatToString(1) == "1";
  }

  // ── friendlyMonitorName ──────────────────────────────────────

  /** The characters of the machine-generated monitor names: '#', hex
      digits and '-'. */
  predicate IsIdChar(c: char) {
    c == '#' || c == '-' || ('0' <= c <= '9') || ('a' <= c <= 'f') || ('A' <= c <= 'F')
  }

  /** `/^[#0-9a-fA-F-]+$/.test(s)`. */
  predicate LooksLikeId(s: string) {
    s != [] && forall i :: 0 <= i < |s| ==> IsIdChar(s[i])
  }

  /** "Screen N", counting monitors from 1. */
  function ScreenName(index: int): string {
    "Screen " + IntToString(index + 1)
  }

  /** The names of the second and third monitor. */
  lemma ScreenNames()
    ensures ScreenName(1) == "Screen 2" && ScreenName(2) == "Screen 3"
  {
    assert IntToString(2) == "2";
    assert IntToString(3) == "3";
  }

  /** `friendlyMonitorName`: a missing or empty name, or one that looks
      like an identifier once trimmed, becomes "Screen N" (N = index + 1);
      any other name is shown as it is, untrimmed. */
  function FriendlyMonitorName(raw: Option<string>, index: int): (r: string)
    ensures raw.None? || raw == Some("") ==> r == ScreenName(index)
    ensures raw.Some? && raw.value != "" && LooksLikeId(Trim(raw.value)) ==> r == ScreenName(index)
    ensures raw.Some? && raw.value != "" && !LooksLikeId(Trim(raw.value)) ==> r == raw.value
  {
    if raw.None? || raw.value == "" then ScreenName(index)
    else if LooksLikeId(Trim(raw.value)) then ScreenName(index)
    else raw.value
  }

  /** The name shown is never empty, and a name passed through is one
      with a character outside the identifier alphabet. */
  lemma FriendlyNameShape(raw: Option<string>, index: int)
    ensures FriendlyMonitorName(raw, index) != []
    ensures raw.Some? && FriendlyMonitorName(raw, index) == raw.value && raw.value != ScreenName(index) ==>
      Trim(raw.value) == [] || exists i :: 0 <= i < |Trim(raw.value)| && !IsIdChar(Trim(raw.value)[i])
  {
  }

  /** A name of blanks is not an identifier and is shown unchanged. */
  lemma BlankNameShown()
    ensures FriendlyMonitorName(Some("  "), 0) == "  "
  {
    TrimEmptyIffBlank("  ");
  }

  /** A hex name padded with blanks is replaced. */
  lemma PaddedHexNameReplaced()
    ensures FriendlyMonitorName(Some(" 1E-4A "), 1) == "Screen 2"
  {
    var raw := " 1E-4A ";
    TrimPadded(raw);
    var id := raw[1..|raw| - 1];
    assert id == "1E-4A";
    assert IsIdChar(id[0]) && IsIdChar(id[1]) && IsIdChar(id[2]) && IsIdChar(id[3]) && IsIdChar(id[4]);
    ScreenNames();
  }

  /** A name without surrounding white space that has a character outside
      the identifier alphabet is shown as it is. */
  lemma UnpaddedNameShown(raw: string, index: int, k: nat)
    requires raw != [] && !IsJsWhitespace(raw[0]) && !IsJsWhitespace(raw[|raw| - 1])
    requires k < |raw| && !IsIdChar(raw[k])
    ensures FriendlyMonitorName(Some(raw), index) == raw
  {
    TrimUnpadded(raw);
  }

  /** A product name is shown as it is; no name at all gives "Screen N". */
  lemma ProductNameShown()
    ensures FriendlyMonitorName(Some("DELL U2720Q"), 1) == "DELL U2720Q"
    ensures FriendlyMonitorName(None, 2) == "Screen 3"
  {
    UnpaddedNameShown("DELL U2720Q", 1, 2);
    ScreenNames();
  }

  // ── formatPreset ─────────────────────────────────────────────

  /** `formatPreset` for a preset of `seconds`: the largest of hours,
      minutes and seconds the preset reaches, with its unit letter. The
      quotient shown is a JavaScript number; only presets that divide
      evenly render as an integer, and the others give None here. */
  function FormatPreset(seconds: int): (r: Option<string>)
    ensures seconds < 60 ==> r == Some(IntToString(seconds) + "s")
    ensures 60 <= seconds < 3600 && seconds % 60 == 0 ==> r == Some(NatToString(seconds / 60) + "m")
    ensures seconds >= 3600 && seconds % 3600 == 0 ==> r == Some(NatToString(seconds / 3600) + "h")
    ensures r.None? <==> (seconds >= 3600 && seconds % 3600 != 0) || (60 <= seconds < 3600 && seconds % 60 != 0)
  {
    if seconds >= 3600 then
      if seconds % 3600 == 0 then Some(NatToString(seconds / 3600) + "h") else None
    else if seconds >= 60 then
      if seconds % 60 == 0 then Some(NatToString(seconds / 60) + "m") else None
    else Some(IntToString(seconds) + "s")
  }

  /** The seconds a preset label denotes. */
  function ParsePreset(text: string): int
    requires |text| >= 2 && AllDigits(text[..|text| - 1])
  {
    var n := DecimalValue(text[..|text| - 1]);
    var unit := text[|text| - 1];
    if unit == 'h' then n * 3600 else if unit == 'm' then n * 60 else n
  }

  /** Every preset that renders as an integer reads back as itself. */
  lemma FormatPresetRoundTrip(seconds: nat)
    requires FormatPreset(seconds).Some?
    ensures var text := FormatPreset(seconds).value;
      |text| >= 2 && AllDigits(text[..|text| - 1]) && ParsePreset(text) == seconds
  {
    var q := if seconds >= 3600 then seconds / 3600 else if seconds >= 60 then seconds / 60 else seconds;
    var text := FormatPreset(seconds).value;
    assert text[..|text| - 1] == NatToString(q);
    DecimalValueOfNatToString(q);
  }

  /** The default presets 60, 300 and 600 seconds read "1m", "5m", "10m". */
  lemma DefaultPresetLabels()
    ensures FormatPreset(60) == Some("1m") && FormatPreset(300) == Some("5m") && FormatPreset(600) == Some("10m")
  {
    assert FormatPreset(60) == Some(NatToString(1) + "m");
    assert NatToString(1) + "m" == "1m";
    assert FormatPreset(300) == Some(NatToString(5) + "m");
    assert NatToString(5) + "m" == "5m";
    assert FormatPreset(600) == Some(NatToString(10) + "m");
    assert NatToString(10) == NatToString(1) + [DigitChar(0)];
    assert NatToString(10) + "m" == "10m";
  }
}
