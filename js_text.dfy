/**
 * Character classes and string operations with the meaning the browser scripts
 * rely on: the `\s` and `.` classes of JavaScript regular expressions,
 * `String.prototype.trim`, ASCII case folding, `parseInt(_, 10)` on a run of
 * decimal digits, and the UTF-16 `length` of a string.
 */
module JsText {

  /** `\s` in a JavaScript regular expression, which is also the set of characters
      `trim()` removes: the WhiteSpace and LineTerminator code points of ECMAScript
      (the space separators of Unicode category Zs included). */
  predicate IsJsSpace(c: char) {
    || c == '\t' || c == '\n' || c == '\U{B}' || c == '\U{C}' || c == '\r' || c == ' '
    || c == '\U{A0}' || c == '\U{1680}' || ('\U{2000}' <= c <= '\U{200A}')
    || c == '\U{2028}' || c == '\U{2029}' || c == '\U{202F}' || c == '\U{205F}'
    || c == '\U{3000}' || c == '\U{FEFF}'
  }

  /** The characters `.` in a JavaScript regular expression does not match. */
  predicate IsLineTerminator(c: char) {
    c == '\n' || c == '\r' || c == '\U{2028}' || c == '\U{2029}'
  }

  /** ASCII whitespace: what separates the tokens of an HTML `class` attribute. */
  predicate IsAsciiWhitespace(c: char) {
    c == '\t' || c == '\n' || c == '\U{C}' || c == '\r' || c == ' '
  }

  predicate IsDigit(c: char) { '0' <= c <= '9' }

  predicate IsAsciiUpper(c: char) { 'A' <= c <= 'Z' }

  predicate IsAsciiLower(c: char) { 'a' <= c <= 'z' }

  predicate AllDigits(s: string) { forall k :: 0 <= k < |s| ==> IsDigit(s[k]) }

  /** ASCII lower-casing of one character. */
  function LowerChar(c: char): char {
    if IsAsciiUpper(c) then (c as int + 32) as char else c
  }

  /** `toLowerCase()`, restricted to the ASCII letters. */
  function ToLower(s: string): (r: string)
    ensures |r| == |s|
    ensures forall k :: 0 <= k < |s| ==> r[k] == LowerChar(s[k])
  {
    seq(|s|, k requires 0 <= k < |s| => LowerChar(s[k]))
  }

  /** Length of the longest run of characters of a class starting at index `i`:
      what a greedy `[…]*` consumes there. */
  function RunLength(s: string, i: nat, inClass: char -> bool): (n: nat)
    requires i <= |s|
    decreases |s| - i
    ensures i + n <= |s|
    ensures forall k :: i <= k < i + n ==> inClass(s[k])
    ensures i + n == |s| || !inClass(s[i + n])
  {
    if i < |s| && inClass(s[i]) then 1 + RunLength(s, i + 1, inClass) else 0
  }

  /** A run of `m` characters of the class followed by one outside it (or the end) is the greedy run. */
  lemma {:induction false} RunLengthExact(s: string, i: nat, m: nat, inClass: char -> bool)
    requires i + m <= |s|
    requires forall k :: i <= k < i + m ==> inClass(s[k])
    requires i + m == |s| || !inClass(s[i + m])
    ensures RunLength(s, i, inClass) == m
    decreases m
  {
    if m > 0 {
      RunLengthExact(s, i + 1, m - 1, inClass);
    }
  }

  /** Length of the longest run of characters of a class that ends the string. */
  function TrailingRun(s: string, inClass: char -> bool): (n: nat)
    ensures n <= |s|
    ensures forall k :: |s| - n <= k < |s| ==> inClass(s[k])
    ensures n == |s| || !inClass(s[|s| - n - 1])
  {
    if s != [] && inClass(s[|s| - 1]) then 1 + TrailingRun(s[..|s| - 1], inClass) else 0
  }

  function TrimStart(s: string): string {
    s[RunLength(s, 0, IsJsSpace)..]
  }

  function TrimEnd(s: string): string {
    s[..|s| - TrailingRun(s, IsJsSpace)]
  }

  /** `String.prototype.trim`. */
  function Trim(s: string): (r: string)
    ensures |r| <= |s|
    ensures r != [] ==> !IsJsSpace(r[0]) && !IsJsSpace(r[|r| - 1])
    ensures r == [] <==> forall k :: 0 <= k < |s| ==> IsJsSpace(s[k])
    ensures s != [] && !IsJsSpace(s[0]) && !IsJsSpace(s[|s| - 1]) ==> r == s
  {
    TrimEnd(TrimStart(s))
  }

  /** `trim()` keeps one slice of the string and drops only whitespace around it. */
  lemma TrimSlice(s: string) returns (a: nat, b: nat)
    ensures a <= b <= |s| && Trim(s) == s[a..b]
    ensures forall k :: 0 <= k < a || b <= k < |s| ==> IsJsSpace(s[k])
  {
    a := RunLength(s, 0, IsJsSpace);
    var t := s[a..];
    b := a + |t| - TrailingRun(t, IsJsSpace);
    assert Trim(s) == t[..|t| - TrailingRun(t, IsJsSpace)];
    forall k | b <= k < |s|
      ensures IsJsSpace(s[k])
    {
      assert s[k] == t[k - a];
    }
  }

  predicate StartsWith(s: string, prefix: string) {
    |prefix| <= |s| && s[..|prefix|] == prefix
  }

  predicate OccursAt(s: string, part: string, i: nat) {
    i + |part| <= |s| && s[i..i + |part|] == part
  }

  /** `String.prototype.includes`. */
  predicate Contains(s: string, part: string) {
    exists i | 0 <= i <= |s| :: OccursAt(s, part, i)
  }

  function DigitValue(c: char): nat
    requires IsDigit(c)
  {
    c as int - '0' as int
  }

  function DigitChar(d: nat): char
    requires d < 10
  {
    ('0' as int + d) as char
  }

  /** `parseInt(ds, 10)` for a string of decimal digits, in unbounded arithmetic. */
  function DecimalValue(ds: string): nat
    requires AllDigits(ds)
  {
    if ds == [] then 0 else 10 * DecimalValue(ds[..|ds| - 1]) + DigitValue(ds[|ds| - 1])
  }

  /** The decimal text JavaScript gives a non-negative integer (`String(n)`). */
  function DecimalString(n: nat): (s: string)
    ensures s != [] && AllDigits(s)
    ensures s[0] == '0' ==> n == 0 && s == "0"
  {
    if n < 10 then [DigitChar(n)] else DecimalString(n / 10) + [DigitChar(n % 10)]
  }

  /** Reading back the decimal text of a number gives the number. */
  lemma {:induction false} DecimalRoundTrip(n: nat)
    ensures DecimalValue(DecimalString(n)) == n
  {
    if n >= 10 {
      var s := DecimalString(n);
      assert s[..|s| - 1] == DecimalString(n / 10);
      DecimalRoundTrip(n / 10);
    }
  }

  /** The `length` of a JavaScript string: code points above U+FFFF take two UTF-16 units. */
  function Utf16Length(s: string): (n: nat)
    ensures |s| <= n <= 2 * |s|
  {
    if s == [] then 0 else (if s[0] as int > 0xFFFF then 2 else 1) + Utf16Length(s[1..])
  }
}
