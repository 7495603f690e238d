/** Shared vocabulary: optional values, the todo record both halves of the
    application exchange, decimal rendering and parsing of numbers, and the
    JavaScript notion of white space used by `String.prototype.trim`. */
module Common {

  /** An optional value: an absent dictionary entry, a failed OS query. */
  datatype Option<+T> = None | Some(value: T) {
    /** The value, or `default` when absent (Rust `unwrap_or`, JS `??`). */
    function GetOr(default: T): T {
      match this
      case Some(v) => v
      case None => default
    }
  }

  /** Unsigned 32-bit integers (`u32` in the Rust back end). */
  type u32 = x: int | 0 <= x < 0x1_0000_0000

  /** The largest value a Rust `usize` holds on a 64-bit target, plus one. */
  const USIZE_LIMIT: int := 0x1_0000_0000_0000_0000

  /** A todo entry; the Rust struct `TodoItem` and the TypeScript interface
      of the same name have this shape. */
  datatype TodoItem = TodoItem(id: string, text: string, done: bool)

  // ── Decimal digits ───────────────────────────────────────────

  predicate IsDigit(c: char) {
    '0' <= c <= '9'
  }

  predicate AllDigits(s: string) {
    forall i :: 0 <= i < |s| ==> IsDigit(s[i])
  }

  function DigitChar(d: nat): (c: char)
    requires d < 10
    ensures IsDigit(c) && c as int - '0' as int == d
  {
    ('0' as int + d) as char
  }

  function DigitValue(c: char): (d: nat)
    requires IsDigit(c)
    ensures d < 10
  {
    c as int - '0' as int
  }

  /** Decimal rendering of a natural number, without leading zeros
      (Rust `format!("{}")`, JavaScript `String(n)` for integers). */
  function NatToString(n: nat): (s: string)
    ensures 1 <= |s| && AllDigits(s)
    ensures |s| == 1 <==> n < 10
    ensures s[0] == '0' ==> n == 0
    decreases n
  {
    if n < 10 then [DigitChar(n)] else NatToString(n / 10) + [DigitChar(n % 10)]
  }

  /** Decimal rendering of an integer, with a leading '-' when negative. */
  function IntToString(n: int): (s: string)
    ensures 1 <= |s|
    ensures n >= 0 ==> s == NatToString(n)
    ensures n < 0 ==> s == "-" + NatToString(-n)
  {
    if n < 0 then "-" + NatToString(-n) else NatToString(n)
  }

  /** The number a string of decimal digits denotes (leading zeros allowed). */
  function DecimalValue(s: string): nat
    requires AllDigits(s)
  {
    if s == [] then 0 else DecimalValue(s[..|s| - 1]) * 10 + DigitValue(s[|s| - 1])
  }

  /** Parsing the decimal rendering gives the number back. */
  lemma {:induction false} DecimalValueOfNatToString(n: nat)
    ensures DecimalValue(NatToString(n)) == n
    decreases n
  {
    if n >= 10 {
      var s := NatToString(n);
      assert s[..|s| - 1] == NatToString(n / 10);
      DecimalValueOfNatToString(n / 10);
    }
  }

  /** Two numbers with the same decimal rendering are equal. */
  lemma NatToStringInjective(a: nat, b: nat)
    requires NatToString(a) == NatToString(b)
    ensures a == b
  {
    DecimalValueOfNatToString(a);
    DecimalValueOfNatToString(b);
  }

  /** Below 100 the rendering has at most two digits, exactly two from 10 on. */
  lemma NatToStringTwoDigits(n: nat)
    requires 10 <= n < 100
    ensures |NatToString(n)| == 2
  {
    assert NatToString(n) == NatToString(n / 10) + [DigitChar(n % 10)];
  }

  /** The first index holding `x` (Rust `iter().position`), None when
      `x` does not occur. */
  function IndexOf(xs: seq<int>, x: int): (r: Option<nat>)
    ensures r.Some? ==> r.value < |xs| && xs[r.value] == x && forall j :: 0 <= j < r.value ==> xs[j] != x
    ensures r.None? <==> x !in xs
  {
    if xs == [] then None
    else if xs[0] == x then Some(0)
    else
      match IndexOf(xs[1..], x)
      case None => None
      case Some(i) => Some(i + 1)
  }

  /** Some element of a non-empty set: the next one a hash-order
      iteration visits, which the model leaves unspecified. */
  method Pick<T>(s: set<T>) returns (x: T)
    requires s != {}
    ensures x in s
  {
    x :| x in s;
  }

  // ── Arithmetic as JavaScript does it ─────────────────────────

  /** JavaScript `%` on integers: the remainder takes the sign of the
      dividend. */
  function JsRem(a: int, b: int): (r: int)
    requires b > 0
    ensures -b < r < b
    ensures a >= 0 ==> r == a % b
    ensures a < 0 ==> r <= 0 && -r == (-a) % b
  {
    if a >= 0 then a % b else -((-a) % b)
  }

  /** `Math.floor(a / b)` for a positive divisor. */
  function FloorDiv(a: int, b: int): (r: int)
    requires b > 0
    ensures r * b <= a < r * b + b
  {
    a / b
  }

  // ── Substrings ───────────────────────────────────────────────

  /** `s` starts with `prefix` (Rust `starts_with`, JS `startsWith`). */
  predicate HasPrefix(s: string, prefix: string) {
    |prefix| <= |s| && s[..|prefix|] == prefix
  }

  /** `s` contains `sub` somewhere (JS `includes`). */
  predicate Contains(s: string, sub: string) {
    exists i :: 0 <= i <= |s| && HasPrefix(s[i..], sub)
  }

  /** A string lacking one of the characters of `sub` does not contain it. */
  lemma MissingCharNotContained(s: string, sub: string, c: char)
    requires c in sub && c !in s
    ensures !Contains(s, sub)
  {
    forall i | 0 <= i <= |s| && HasPrefix(s[i..], sub)
      ensures false
    {
    }
  }

  // ── JavaScript white space and trim ──────────────────────────

  /** The characters `String.prototype.trim` removes: ECMAScript WhiteSpace
      (tab, vertical tab, form feed, space, no-break space, BOM and the
      space separators) and LineTerminator (LF, CR, LS, PS). */
  predicate IsJsWhitespace(c: char) {
    var n := c as int;
    n == 0x09 || n == 0x0A || n == 0x0B || n == 0x0C || n == 0x0D || n == 0x20 ||
    n == 0xA0 || n == 0x1680 || (0x2000 <= n <= 0x200A) || n == 0x2028 || n == 0x2029 ||
    n == 0x202F || n == 0x205F || n == 0x3000 || n == 0xFEFF
  }

  function TrimStart(s: string): (r: string)
    ensures |r| <= |s| && r == s[|s| - |r|..]
    ensures r == [] || !IsJsWhitespace(r[0])
    ensures forall i :: 0 <= i < |s| - |r| ==> IsJsWhitespace(s[i])
  {
    if s != [] && IsJsWhitespace(s[0]) then TrimStart(s[1..]) else s
  }

  function TrimEnd(s: string): (r: string)
    ensures |r| <= |s| && r == s[..|r|]
    ensures r == [] || !IsJsWhitespace(r[|r| - 1])
    ensures forall i :: |r| <= i < |s| ==> IsJsWhitespace(s[i])
  {
    if s != [] && IsJsWhitespace(s[|s| - 1]) then TrimEnd(s[..|s| - 1]) else s
  }

  /** `r` is `s` with white space cut from both ends: a slice of `s` with
      only white space around it, starting and ending with a character
      that is not white space. */
  predicate TrimmedSlice(s: string, r: string) {
    && (exists i, j ::
      (0 <= i <= j <= |s| && r == s[i..j] &&
       (forall k :: 0 <= k < i ==> IsJsWhitespace(s[k])) &&
       (forall k :: j <= k < |s| ==> IsJsWhitespace(s[k]))))
    && (r != [] ==> !IsJsWhitespace(r[0]) && !IsJsWhitespace(r[|r| - 1]))
  }

  /** JavaScript `s.trim()`: the input without its leading and trailing
      white space. */
  function Trim(s: string): (r: string)
    ensures TrimmedSlice(s, r)
  {
    TrimComposes(s);
    TrimEnd(TrimStart(s))
  }

  /** The end trim of the start trim is what `trim` promises. */
  lemma TrimComposes(s: string)
    ensures TrimmedSlice(s, TrimEnd(TrimStart(s)))
  {
    var a := TrimStart(s);
    var r := TrimEnd(a);
    TrimSlice(s, a, r, |s| - |a|);
    assert r != [] ==> r[0] == a[0];
  }

  /** The two halves of `Trim` compose: what the end trim keeps of the
      start trim's result is a slice of `s` with white space on both sides. */
  lemma TrimSlice(s: string, a: string, r: string, i: nat)
    requires i <= |s| && a == s[i..] && (forall k :: 0 <= k < i ==> IsJsWhitespace(s[k]))
    requires |r| <= |a| && r == a[..|r|] && (forall k :: |r| <= k < |a| ==> IsJsWhitespace(a[k]))
    ensures exists i, j ::
      (0 <= i <= j <= |s| && r == s[i..j] &&
       (forall k :: 0 <= k < i ==> IsJsWhitespace(s[k])) &&
       (forall k :: j <= k < |s| ==> IsJsWhitespace(s[k])))
  {
    var j := i + |r|;
    assert r == s[i..j];
    forall k | j <= k < |s|
      ensures IsJsWhitespace(s[k])
    {
      assert s[k] == a[k - i];
    }
  }

  /** A string that starts and ends with a non-white-space character is
      its own trim. */
  lemma TrimUnpadded(s: string)
    requires s != [] && !IsJsWhitespace(s[0]) && !IsJsWhitespace(s[|s| - 1])
    ensures Trim(s) == s
  {
    assert TrimStart(s) == s;
  }

  /** Trimming removes one space from each end of an otherwise unpadded
      string. */
  lemma TrimPadded(s: string)
    requires |s| >= 3 && s[0] == ' ' && s[|s| - 1] == ' '
    requires !IsJsWhitespace(s[1]) && !IsJsWhitespace(s[|s| - 2])
    ensures Trim(s) == s[1..|s| - 1]
  {
    assert TrimStart(s) == TrimStart(s[1..]) == s[1..];
    var a := s[1..];
    assert TrimEnd(a) == TrimEnd(a[..|a| - 1]) == a[..|a| - 1];
    assert a[..|a| - 1] == s[1..|s| - 1];
  }

  /** A string is empty after trimming exactly when it is all white space. */
  lemma TrimEmptyIffBlank(s: string)
    ensures Trim(s) == [] <==> forall k :: 0 <= k < |s| ==> IsJsWhitespace(s[k])
  {
  }
}
