/**
 * The chapter-number heuristic of the story pages: the number a heading's text
 * announces, found by trying four regular expressions in turn and falling back
 * to a table of the Roman numerals one to ten. Each expression is written out
 * as a predicate saying where it matches, and the leftmost match is the one a
 * JavaScript search reports.
 */
module ChapterNumber {
  import opened Wrappers
  import opened JsText

  const Keyword: string := "chapter"

  /** `chapter` in any letter case (the `i` flag) starting at index `p`. */
  predicate KeywordAt(t: string, p: nat) {
    p + |Keyword| <= |t| && ToLower(t[p..p + |Keyword|]) == Keyword
  }

  /** Length of the `\s+` / `\s*` run at `i`. */
  function Spaces(t: string, i: nat): nat
    requires i <= |t|
  {
    RunLength(t, i, IsJsSpace)
  }

  /** Length of the `\d+` run at `i`. */
  function Digits(t: string, i: nat): nat
    requires i <= |t|
  {
    RunLength(t, i, IsDigit)
  }

  predicate IsRomanLetter(c: char) {
    c == 'i' || c == 'v' || c == 'x' || c == 'I' || c == 'V' || c == 'X'
  }

  /** The class `[-–—:]` that may follow a chapter number. */
  predicate IsChapterDash(c: char) {
    c == '-' || c == '\U{2013}' || c == '\U{2014}' || c == ':'
  }

  /** Index just after `chapter\s+` when the keyword is at `p`. */
  function AfterKeyword(t: string, p: nat): nat
    requires p + |Keyword| <= |t|
  {
    p + |Keyword| + Spaces(t, p + |Keyword|)
  }

  /** The value `parseInt` gives the digit run at `i`. */
  function DigitsValueAt(t: string, i: nat): nat
    requires i <= |t|
  {
    var n := Digits(t, i);
    DecimalValue(t[i..i + n])
  }

  /** Pattern 1, `/chapter\s+(\d+)/i`, matches at `p`. */
  predicate ChapterDigitsAt(t: string, p: nat) {
    && KeywordAt(t, p)
    && Spaces(t, p + |Keyword|) > 0
    && Digits(t, AfterKeyword(t, p)) > 0
  }

  /** Pattern 2, `/chapter\s+(\d+)\s*[-–—:]/i`, matches at `p`. */
  predicate ChapterDigitsDashAt(t: string, p: nat) {
    && KeywordAt(t, p)
    && Spaces(t, p + |Keyword|) > 0
    && var d := Digits(t, AfterKeyword(t, p));
    && d > 0
    && var e := AfterKeyword(t, p) + d;
    && e + Spaces(t, e) < |t|
    && IsChapterDash(t[e + Spaces(t, e)])
  }

  /** Pattern 3, `/^(\d+)\s*[-–—:]/`, matches (it is anchored at the start). */
  predicate LeadingNumberDash(t: string) {
    var d := Digits(t, 0);
    d > 0 && d + Spaces(t, d) < |t| && IsChapterDash(t[d + Spaces(t, d)])
  }

  /** Pattern 4, `/chapter\s+([ivx]+)/i`, matches at `p`. */
  predicate ChapterRomanAt(t: string, p: nat) {
    && KeywordAt(t, p)
    && Spaces(t, p + |Keyword|) > 0
    && RunLength(t, AfterKeyword(t, p), IsRomanLetter) > 0
  }

  /** The lower-cased text of pattern 4's group at `p`: the longest i/v/x run. */
  function RomanRunAt(t: string, p: nat): string
    requires p + |Keyword| <= |t|
  {
    var i := AfterKeyword(t, p);
    ToLower(t[i..i + RunLength(t, i, IsRomanLetter)])
  }

  /** The lookup table `romanPatterns`. */
  const RomanTable: map<string, nat> := map[
    "i" := 1, "ii" := 2, "iii" := 3, "iv" := 4, "v" := 5,
    "vi" := 6, "vii" := 7, "viii" := 8, "ix" := 9, "x" := 10]

  /** `romanPatterns[key]`, where a missing key (`undefined`) is `None`. */
  function RomanValue(s: string): Option<nat> {
    if s in RomanTable then Some(RomanTable[s]) else None
  }

  /** The three unanchored patterns of the chain. */
  datatype Pattern = ChapterDigits | ChapterDigitsDash | ChapterRoman

  predicate MatchesAt(pattern: Pattern, t: string, p: nat) {
    match pattern
    case ChapterDigits => ChapterDigitsAt(t, p)
    case ChapterDigitsDash => ChapterDigitsDashAt(t, p)
    case ChapterRoman => ChapterRomanAt(t, p)
  }

  /** The leftmost index from `from` on at which `pattern` matches: where
      `String.prototype.match` reports a match of an unanchored expression. */
  function Leftmost(pattern: Pattern, t: string, from: nat): (r: Option<nat>)
    decreases |t| + 1 - from
    ensures r.Some? ==> from <= r.value <= |t| && MatchesAt(pattern, t, r.value)
    ensures forall q :: from <= q <= |t| && (r.None? || q < r.value) ==> !MatchesAt(pattern, t, q)
  {
    if from > |t| then None
    else if MatchesAt(pattern, t, from) then Some(from)
    else Leftmost(pattern, t, from + 1)
  }

  function FirstChapterDigits(t: string): Option<nat> {
    Leftmost(ChapterDigits, t, 0)
  }

  function FirstChapterDigitsDash(t: string): Option<nat> {
    Leftmost(ChapterDigitsDash, t, 0)
  }

  function FirstChapterRoman(t: string): Option<nat> {
    Leftmost(ChapterRoman, t, 0)
  }

  /** `extractChapterNumber`: the four patterns in the source's order, each
      returning at its first success; `null` is `None`. */
  function ExtractChapterNumber(text: string): (r: Option<nat>)
    ensures text == [] ==> r == None
  {
    if text == [] then None
    else match FirstChapterDigits(text)
      case Some(p) => Some(DigitsValueAt(text, AfterKeyword(text, p)))
      case None =>
        match FirstChapterDigitsDash(text)
        case Some(p) => Some(DigitsValueAt(text, AfterKeyword(text, p)))
        case None =>
          if LeadingNumberDash(text) then Some(DigitsValueAt(text, 0))
          else match FirstChapterRoman(text)
            case Some(p) => RomanValue(RomanRunAt(text, p))
            case None => None
  }

  /** Standard reading of a Roman numeral over i, v and x: a letter counts
      negatively when a larger one follows it. */
  function RomanNumeralValue(s: string): int {
    if s == [] then 0
    else
      var v := LetterValue(s[0]);
      var rest := RomanNumeralValue(s[1..]);
      if |s| > 1 && v < LetterValue(s[1]) then rest - v else rest + v
  }

  function LetterValue(c: char): nat {
    if c == 'i' then 1 else if c == 'v' then 5 else if c == 'x' then 10 else 0
  }

  /** Every entry of the table is the value of its key read as a Roman numeral,
      and every value lies in 1..10. */
  lemma RomanTableIsRomanNumerals(s: string)
    ensures RomanValue(s).Some? ==> 1 <= RomanValue(s).value <= 10
    ensures RomanValue(s).Some? ==> RomanNumeralValue(s) == RomanValue(s).value
  {
    if s in RomanTable {
      RomanKeyValue(s);
    }
  }

  /** The keys of the table read as Roman numerals, one reading step at a time. */
  lemma RomanKeyValue(s: string)
    requires s in RomanTable
    ensures RomanNumeralValue(s) == RomanTable[s]
  {
    assert RomanNumeralValue("i") == 1;
    assert RomanNumeralValue("v") == 5;
    assert RomanNumeralValue("x") == 10;
    assert RomanNumeralValue("ii") == 1 + RomanNumeralValue("i");
    assert RomanNumeralValue("iii") == 1 + RomanNumeralValue("ii");
    assert RomanNumeralValue("iv") == RomanNumeralValue("v") - 1;
    assert RomanNumeralValue("vi") == 5 + RomanNumeralValue("i");
    assert RomanNumeralValue("vii") == 5 + RomanNumeralValue("ii");
    assert RomanNumeralValue("viii") == 5 + RomanNumeralValue("iii");
    assert RomanNumeralValue("ix") == RomanNumeralValue("x") - 1;
  }

  /** Pattern 2 can never decide the result: wherever it matches, pattern 1,
      tried before it, matches too. */
  lemma Pattern2Unreachable(t: string)
    ensures forall p :: ChapterDigitsDashAt(t, p) ==> ChapterDigitsAt(t, p)
    ensures FirstChapterDigits(t) == None ==> FirstChapterDigitsDash(t) == None
  {
    var r := FirstChapterDigitsDash(t);
    if r.Some? {
      assert MatchesAt(ChapterDigits, t, r.value);
    }
  }

  /** "chapter", whitespace and digits anywhere decide the result: the value of
      the leftmost such digit run, whatever else the text holds. */
  lemma ChapterDigitsWin(t: string, p: nat)
    requires ChapterDigitsAt(t, p)
    requires forall q :: 0 <= q < p ==> !ChapterDigitsAt(t, q)
    ensures ExtractChapterNumber(t) == Some(DigitsValueAt(t, AfterKeyword(t, p)))
  {
    assert MatchesAt(ChapterDigits, t, p);
  }

  /** Without "chapter N", a text that starts with digits, optional whitespace
      and one of `-`, `–`, `—`, `:` gives the value of those digits. */
  lemma LeadingNumberWins(t: string)
    requires forall q :: 0 <= q <= |t| ==> !ChapterDigitsAt(t, q)
    requires LeadingNumberDash(t)
    ensures ExtractChapterNumber(t) == Some(DigitsValueAt(t, 0))
  {
    Pattern2Unreachable(t);
  }

  /** The Roman fallback: with no digit pattern matching, the result is the
      table entry for the lower-cased i/v/x run after the leftmost
      "chapter" and whitespace, so it is `None` or a number in 1..10. */
  lemma RomanFallback(t: string, p: nat)
    requires forall q :: 0 <= q <= |t| ==> !ChapterDigitsAt(t, q)
    requires !LeadingNumberDash(t)
    requires ChapterRomanAt(t, p)
    requires forall q :: 0 <= q < p ==> !ChapterRomanAt(t, q)
    ensures ExtractChapterNumber(t) == RomanValue(RomanRunAt(t, p))
    ensures ExtractChapterNumber(t).Some? ==> 1 <= ExtractChapterNumber(t).value <= 10
  {
    Pattern2Unreachable(t);
    assert MatchesAt(ChapterRoman, t, p);
    assert FirstChapterRoman(t) == Some(p);
    RomanTableIsRomanNumerals(RomanRunAt(t, p));
  }

  /** When no pattern matches anywhere, the final `return null` is reached. */
  lemma NothingMatches(t: string)
    requires forall q :: 0 <= q <= |t| ==> !ChapterDigitsAt(t, q) && !ChapterRomanAt(t, q)
    requires !LeadingNumberDash(t)
    ensures ExtractChapterNumber(t) == None
  {
    Pattern2Unreachable(t);
  }

  /** Whatever the text, a result that comes from the Roman table is in 1..10,
      and no text yields a negative number. */
  lemma ResultBounds(t: string)
    ensures (ExtractChapterNumber(t).Some? && FirstChapterDigits(t).None? && !LeadingNumberDash(t))
      ==> 1 <= ExtractChapterNumber(t).value <= 10
  {
    Pattern2Unreachable(t);
    if FirstChapterRoman(t).Some? {
      RomanTableIsRomanNumerals(RomanRunAt(t, FirstChapterRoman(t).value));
    }
  }

  /** "chapter" can start only where a `c` or `C` stands. */
  lemma KeywordOnlyAtStart(t: string)
    requires forall q :: 1 <= q < |t| ==> LowerChar(t[q]) != 'c'
    ensures forall q :: 1 <= q <= |t| ==> !KeywordAt(t, q)
  {
    forall q | 1 <= q <= |t|
      ensures !KeywordAt(t, q)
    {
      if q + 7 <= |t| {
        assert ToLower(t[q..q + 7])[0] == LowerChar(t[q]);
      }
    }
  }

  /** "Chapter " followed by two Roman letters and then a character that is not
      a Roman letter, with no other `c` in the text: only pattern 4 matches, at 0,
      and the result is the table entry for the two letters. */
  lemma ChapterThenTwoLetters(t: string)
    requires |t| >= 11 && t[..8] == "Chapter "
    requires IsRomanLetter(t[8]) && IsRomanLetter(t[9]) && !IsRomanLetter(t[10])
    requires forall q :: 1 <= q < |t| ==> LowerChar(t[q]) != 'c'
    ensures ExtractChapterNumber(t) == RomanValue(ToLower(t[8..10]))
  {
    TwoLettersKeyword(t);
    TwoLettersNoDigits(t);
    TwoLettersRoman(t);
    RomanFallback(t, 0);
  }

  lemma TwoLettersKeyword(t: string)
    requires ChapterTwoLetterShape(t)
    ensures KeywordAt(t, 0) && Spaces(t, 7) == 1
  {
    assert t[0..7] == "Chapter";
    assert IsJsSpace(t[7]) && !IsJsSpace(t[8]);
  }

  lemma TwoLettersNoDigits(t: string)
    requires ChapterTwoLetterShape(t) && KeywordAt(t, 0) && Spaces(t, 7) == 1
    ensures forall q :: 0 <= q <= |t| ==> !ChapterDigitsAt(t, q)
    ensures !LeadingNumberDash(t)
  {
    assert Digits(t, 8) == 0 && Digits(t, 0) == 0;
    KeywordOnlyAtStart(t);
  }

  lemma TwoLettersRoman(t: string)
    requires ChapterTwoLetterShape(t) && KeywordAt(t, 0) && Spaces(t, 7) == 1
    ensures ChapterRomanAt(t, 0) && RomanRunAt(t, 0) == ToLower(t[8..10])
  {
    RunLengthExact(t, 8, 2, IsRomanLetter);
  }

  /** "Chapter " followed by two Roman letters, then a non-Roman letter, with
      no other `c`: the shape `ChapterThenTwoLetters` reads. */
  predicate ChapterTwoLetterShape(t: string) {
    && |t| >= 11 && t[..8] == "Chapter "
    && IsRomanLetter(t[8]) && IsRomanLetter(t[9]) && !IsRomanLetter(t[10])
    && (forall q :: 1 <= q < |t| ==> LowerChar(t[q]) != 'c')
  }

  lemma VisionShape(t: string)
    requires t == "Chapter Vision"
    ensures ChapterTwoLetterShape(t) && RomanValue(ToLower(t[8..10])) == Some(6)
  {
    assert t[..8] == "Chapter ";
    assert t[8..10] == "Vi";
    assert ToLower("Vi") == "vi";
  }

  /** The Roman run is the longest run of i/v/x letters, so "Chapter Vision"
      reads as chapter "vi", that is 6. */
  lemma ChapterVisionIsSix(t: string)
    requires t == "Chapter Vision"
    ensures ExtractChapterNumber(t) == Some(6)
  {
    VisionShape(t);
    ChapterThenTwoLetters(t);
  }

  lemma ElevenShape(t: string)
    requires t == "Chapter XI."
    ensures ChapterTwoLetterShape(t) && RomanValue(ToLower(t[8..10])) == None
  {
    assert t[..8] == "Chapter ";
    assert t[8..10] == "XI";
    assert ToLower("XI") == "xi";
    assert "xi" !in RomanTable;
  }

  /** Runs such as "xi" are not in the table: "Chapter XI." has no number. */
  lemma ChapterElevenIsNull(t: string)
    requires t == "Chapter XI."
    ensures ExtractChapterNumber(t) == None
  {
    ElevenShape(t);
    ChapterThenTwoLetters(t);
  }
}
