/**
 * The text tests `structureStoryContent` applies to the trimmed `textContent`
 * of headings and paragraphs. Each regular expression is written out as a
 * predicate or a parser that follows the expression's own matching order
 * (greedy runs, a lazy label, backtracking over the whitespace after a colon).
 */
module StoryText {
  import opened Wrappers
  import opened JsText

  predicate IsPersonaDash(c: char) {
    c == '–' || c == '—' || c == '-'
  }

  /** `/^[A-Z][a-z]+\s*[–—\-]/`: a capitalised name, optional whitespace, a dash. */
  predicate IsPersonaTitle(t: string) {
    && |t| >= 2 && IsAsciiUpper(t[0])
    && var letters := RunLength(t, 1, IsAsciiLower);
    && letters >= 1
    && var p := 1 + letters + RunLength(t, 1 + letters, IsJsSpace);
    && p < |t| && IsPersonaDash(t[p])
  }

  /** The regular expression read as "some split of the text matches it". */
  predicate PersonaSplit(t: string, n: nat, s: nat) {
    && 2 <= n && n + s < |t|
    && IsAsciiUpper(t[0])
    && (forall k :: 1 <= k < n ==> IsAsciiLower(t[k]))
    && (forall k :: n <= k < n + s ==> IsJsSpace(t[k]))
    && IsPersonaDash(t[n + s])
  }

  /** The greedy test accepts exactly the texts some split of the expression matches. */
  lemma PersonaTitleIff(t: string)
    ensures IsPersonaTitle(t) <==> exists n: nat, s: nat :: PersonaSplit(t, n, s)
  {
    if IsPersonaTitle(t) {
      var n, s := PersonaTitleSplit(t);
    }
    if exists n: nat, s: nat :: PersonaSplit(t, n, s) {
      var n: nat, s: nat :| PersonaSplit(t, n, s);
      PersonaSplitIsTitle(t, n, s);
    }
  }

  /** The greedy runs themselves are a split the expression matches. */
  lemma PersonaTitleSplit(t: string) returns (n: nat, s: nat)
    requires IsPersonaTitle(t)
    ensures PersonaSplit(t, n, s)
  {
    n := 1 + RunLength(t, 1, IsAsciiLower);
    s := RunLength(t, n, IsJsSpace);
  }

  /** Any matching split is the greedy one: a letter run cannot end early
      before whitespace or a dash, and neither can a whitespace run. */
  lemma PersonaSplitIsTitle(t: string, n: nat, s: nat)
    requires PersonaSplit(t, n, s)
    ensures IsPersonaTitle(t)
  {
    SplitLetters(t, n, s);
    SplitSpaces(t, n, s);
    var p := 1 + RunLength(t, 1, IsAsciiLower) + RunLength(t, n, IsJsSpace);
    assert p == n + s && IsPersonaDash(t[p]);
  }

  lemma SplitLetters(t: string, n: nat, s: nat)
    requires PersonaSplit(t, n, s)
    ensures RunLength(t, 1, IsAsciiLower) == n - 1
  {
    assert !IsAsciiLower(t[n]) by {
      if s > 0 { assert IsJsSpace(t[n]); } else { assert IsPersonaDash(t[n]); }
    }
    RunLengthExact(t, 1, n - 1, IsAsciiLower);
  }

  lemma SplitSpaces(t: string, n: nat, s: nat)
    requires PersonaSplit(t, n, s)
    ensures RunLength(t, n, IsJsSpace) == s
  {
    assert !IsJsSpace(t[n + s]);
    RunLengthExact(t, n, s, IsJsSpace);
  }

  predicate NotQuoteMark(c: char) { c != '"' }

  /** `/^Quote:\s*\/i`. */
  predicate HasQuoteLabel(t: string) {
    |t| >= 6 && ToLower(t[..6]) == "quote:"
  }

  /** `/^"[^"]+"/`: a quote mark, at least one other character, and a closing mark. */
  predicate StartsQuoted(t: string) {
    |t| >= 3 && t[0] == '"' && t[1] != '"' && exists j | 2 <= j < |t| :: t[j] == '"'
  }

  /** The outer test: a `Quote:` label, a quoted opening, or a long text starting with a quote mark. */
  predicate IsQuoteCandidate(t: string) {
    HasQuoteLabel(t) || StartsQuoted(t) || (StartsWith(t, "\"") && Utf16Length(t) > 20)
  }

  /** Where the text after `Quote:` and its whitespace starts. */
  function QuoteBodyStart(t: string): (p: nat)
    requires HasQuoteLabel(t)
    ensures 6 <= p <= |t|
  {
    6 + RunLength(t, 6, IsJsSpace)
  }

  /** `/^Quote:\s*"([^"]+)"?/i` and its first group. */
  function LabelledQuote(t: string): (r: Option<string>)
    ensures r.Some? ==> HasQuoteLabel(t) && r.value != []
    ensures r.Some? ==> forall k :: 0 <= k < |r.value| ==> r.value[k] != '"'
  {
    if !HasQuoteLabel(t) then None
    else
      var p := QuoteBodyStart(t);
      if p < |t| && t[p] == '"' && RunLength(t, p + 1, NotQuoteMark) >= 1
      then Some(t[p + 1..p + 1 + RunLength(t, p + 1, NotQuoteMark)])
      else None
  }

  /** `/^"[^"]+"$/`: the whole text is one quotation. */
  predicate WhollyQuoted(t: string) {
    |t| >= 3 && t[0] == '"' && t[|t| - 1] == '"' && forall k :: 1 <= k < |t| - 1 ==> t[k] != '"'
  }

  /** The second branch: a whole quotation, or any text under 200 units that starts with a quote mark. */
  predicate IsBareQuote(t: string) {
    WhollyQuoted(t) || (StartsWith(t, "\"") && Utf16Length(t) < 200)
  }

  /** A labelled quote gives back the text between its quote marks. */
  lemma LabelledQuoteOf(opening: string, space: string, x: string, tail: string)
    requires |opening| == 6 && ToLower(opening) == "quote:"
    requires forall k :: 0 <= k < |space| ==> IsJsSpace(space[k])
    requires x != [] && forall k :: 0 <= k < |x| ==> x[k] != '"'
    requires tail == [] || tail[0] == '"'
    ensures LabelledQuote(opening + space + "\"" + x + tail) == Some(x)
  {
    var t := opening + space + "\"" + x + tail;
    assert t[..6] == opening;
    var p := 6 + |space|;
    assert t[p] == '"';
    RunLengthExact(t, 6, |space|, IsJsSpace);
    assert t[p + 1..p + 1 + |x|] == x;
    RunLengthExact(t, p + 1, |x|, NotQuoteMark);
  }

  /** `Quote:` followed by anything but a quote mark is no labelled quote. */
  lemma UnquotedLabel(t: string)
    requires HasQuoteLabel(t)
    requires QuoteBodyStart(t) == |t| || t[QuoteBodyStart(t)] != '"'
    ensures LabelledQuote(t) == None
    ensures !IsBareQuote(t)
  {
    assert t[0] != '"' by {
      assert ToLower(t[..6])[0] == LowerChar(t[0]);
    }
  }

  /** `/^Pain\s+Points?:?\s*$/i`. */
  predicate IsPainLabel(t: string) {
    && |t| >= 4 && ToLower(t[..4]) == "pain"
    && var gap := RunLength(t, 4, IsJsSpace);
    && gap >= 1
    && var p := 4 + gap;
    && p + 5 <= |t| && ToLower(t[p..p + 5]) == "point"
    && var q := p + 5 + (if p + 5 < |t| && LowerChar(t[p + 5]) == 's' then 1 else 0);
    && var r := q + (if q < |t| && t[q] == ':' then 1 else 0);
    && forall k :: r <= k < |t| ==> IsJsSpace(t[k])
  }

  /** After `Pain`, a run of whitespace and `Points:`, the text is the label
      exactly when all that follows is whitespace. */
  lemma PainLabelFollowedBy(gap: string, s: string)
    requires gap != [] && forall k :: 0 <= k < |gap| ==> IsJsSpace(gap[k])
    ensures IsPainLabel("Pain" + gap + "Points:" + s) <==> forall k :: 0 <= k < |s| ==> IsJsSpace(s[k])
  {
    var t := "Pain" + gap + "Points:" + s;
    var p := 4 + |gap|;
    assert t[..4] == "Pain";
    assert ToLower(t[..4]) == "pain";
    RunLengthExact(t, 4, |gap|, IsJsSpace);
    assert t[p..p + 5] == "Point";
    assert ToLower(t[p..p + 5]) == "point";
    assert t[p + 5] == 's' && t[p + 6] == ':';
    forall k | 0 <= k < |s|
      ensures t[p + 7 + k] == s[k]
    {
    }
    if forall k :: 0 <= k < |s| ==> IsJsSpace(s[k]) {
      forall k | p + 7 <= k < |t|
        ensures IsJsSpace(t[k])
      {
        assert t[k] == s[k - (p + 7)];
      }
    }
  }

  const Arrow: char := '→'

  /** `/→|%/`. */
  predicate HasArrowOrPercent(t: string) {
    exists k | 0 <= k < |t| :: t[k] == Arrow || t[k] == '%'
  }

  /** `/\d+%/`. */
  predicate HasPercentFigure(t: string) {
    exists k | 0 <= k < |t| - 1 :: IsDigit(t[k]) && t[k + 1] == '%'
  }

  /** Position after a digit at `k` and the whitespace that follows it. */
  function AfterFigure(t: string, k: nat): nat
    requires k < |t|
  {
    k + 1 + RunLength(t, k + 1, IsJsSpace)
  }

  /** `/\d+\s*[→]/`. */
  predicate HasArrowFigure(t: string) {
    exists k | 0 <= k < |t| :: IsDigit(t[k]) && AfterFigure(t, k) < |t| && t[AfterFigure(t, k)] == Arrow
  }

  /** The first test of the metric pass: an arrow or a percent sign, next to a figure. */
  predicate IsMetricText(t: string) {
    HasArrowOrPercent(t) && (HasPercentFigure(t) || HasArrowFigure(t))
  }

  /** A colon on the first line followed by optional whitespace and a digit. */
  predicate ColonBeforeFigure(t: string, p: nat) {
    && p < |t| && t[p] == ':'
    && (forall k :: 0 <= k < p ==> !IsLineTerminator(t[k]))
    && var q := p + 1 + RunLength(t, p + 1, IsJsSpace);
    && q < |t| && IsDigit(t[q])
  }

  /** `/^(.*?):\s*(\d+.*)/`. */
  predicate HasMetricColon(t: string) {
    exists p | 0 <= p < |t| :: ColonBeforeFigure(t, p)
  }

  predicate NotLineTerminator(c: char) { !IsLineTerminator(c) }

  /** `\s*(.+)` from `pos`, with the whitespace run backed off to `m` characters:
      the value starts at the first position `.` accepts and runs to the end of the line. */
  function ValueFrom(t: string, pos: nat, m: nat): (r: Option<string>)
    requires pos + m <= |t|
    decreases m
    ensures r.Some? ==> r.value != [] && forall k :: 0 <= k < |r.value| ==> !IsLineTerminator(r.value[k])
  {
    if pos + m < |t| && !IsLineTerminator(t[pos + m])
    then Some(t[pos + m..pos + m + RunLength(t, pos + m, NotLineTerminator)])
    else if m == 0 then None
    else ValueFrom(t, pos, m - 1)
  }

  /** `:\s*(.+)` once the colon is consumed: the greedy whitespace run first. */
  function ValueAfterColon(t: string, pos: nat): Option<string>
    requires pos <= |t|
  {
    ValueFrom(t, pos, RunLength(t, pos, IsJsSpace))
  }

  /** `([^*]+?)(\*\*)?:\s*(.+)` with the lazy label ending at `end`, then at `end + 1`, …:
      the label and the value of the first split that matches. */
  function LabelFrom(t: string, start: nat, end: nat): (r: Option<(string, string)>)
    requires start < end <= |t|
    requires forall k :: start <= k < end ==> t[k] != '*'
    decreases |t| - end
    ensures r.Some? ==> r.value.0 != [] && r.value.1 != []
  {
    var closed := if OccursAt(t, "**", end) && end + 2 < |t| && t[end + 2] == ':' then ValueAfterColon(t, end + 3) else None;
    if closed.Some? then Some((t[start..end], closed.value))
    else
      var plain := if end < |t| && t[end] == ':' then ValueAfterColon(t, end + 1) else None;
      if plain.Some? then Some((t[start..end], plain.value))
      else if end < |t| && t[end] != '*' then LabelFrom(t, start, end + 1)
      else None
  }

  function LabelAt(t: string, start: nat): (r: Option<(string, string)>)
    requires start <= |t|
    ensures r.Some? ==> r.value.0 != [] && r.value.1 != []
  {
    if start < |t| && t[start] != '*' then LabelFrom(t, start, start + 1) else None
  }

  /** `/^(\*\*)?([^*]+?)(\*\*)?:\s*(.+)/`: groups 2 and 4; the optional opening `**` is tried first. */
  function MetricSplit(t: string): Option<(string, string)> {
    var bold := if StartsWith(t, "**") then LabelAt(t, 2) else None;
    if bold.Some? then bold else LabelAt(t, 0)
  }

  /** A label without `*` or `:`, a colon, one space and a one-line value that does not
      start with whitespace split back into that label and that value. */
  lemma MetricSplitOf(name: string, value: string)
    requires name != [] && forall k :: 0 <= k < |name| ==> name[k] != '*' && name[k] != ':'
    requires value != [] && !IsJsSpace(value[0])
    requires forall k :: 0 <= k < |value| ==> !IsLineTerminator(value[k])
    ensures MetricSplit(name + ": " + value) == Some((name, value))
  {
    var t := name + ": " + value;
    var n := |name|;
    assert !StartsWith(t, "**") by {
      assert t[0] == name[0];
    }
    ColonValue(name, value);
    LabelFromOf(t, 0, 1, n, value);
    assert t[0..n] == name;
    assert LabelAt(t, 0) == Some((name, value));
  }

  /** After the colon and its one space, the value is the rest of the line. */
  lemma ColonValue(name: string, value: string)
    requires value != [] && !IsJsSpace(value[0])
    requires forall k :: 0 <= k < |value| ==> !IsLineTerminator(value[k])
    ensures var t := name + ": " + value;
      |name| < |t| && t[|name|] == ':' && ValueAfterColon(t, |name| + 1) == Some(value)
  {
    var t := name + ": " + value;
    var n := |name|;
    assert t[n] == ':' && t[n + 1] == ' ';
    RunLengthExact(t, n + 1, 1, IsJsSpace);
    assert t[n + 2..] == value;
    assert t[n + 2] == value[0];
    RunLengthExact(t, n + 2, |value|, NotLineTerminator);
    assert RunLength(t, n + 2, NotLineTerminator) == |value|;
    assert n + 2 + |value| == |t|;
    assert !IsLineTerminator(t[n + 2]);
    assert t[n + 2..n + 2 + |value|] == value;
    assert ValueFrom(t, n + 1, 1) == Some(value);
    assert ValueAfterColon(t, n + 1) == Some(value);
  }

  /** The lazy label stops at the first colon when a value follows it. */
  lemma {:induction false} LabelFromOf(t: string, start: nat, end: nat, colon: nat, value: string)
    requires start < end <= colon < |t|
    requires forall k :: start <= k < colon ==> t[k] != '*' && t[k] != ':'
    requires t[colon] == ':' && ValueAfterColon(t, colon + 1) == Some(value)
    ensures LabelFrom(t, start, end) == Some((t[start..colon], value))
    decreases colon - end
  {
    if end < colon {
      assert !OccursAt(t, "**", end) by {
        assert t[end] != '*';
      }
      LabelFromOf(t, start, end + 1, colon, value);
    } else {
      assert !OccursAt(t, "**", end);
    }
  }

  /** The metric pass's label and value: groups 2 and 4, trimmed. */
  function MetricParts(t: string): Option<(string, string)> {
    match MetricSplit(t)
    case Some((name, value)) => Some((Trim(name), Trim(value)))
    case None => None
  }

  /** The whole test the metric pass applies to a paragraph's trimmed text. */
  function MetricOf(t: string): (r: Option<(string, string)>)
    ensures r.Some? ==> IsMetricText(t) && HasMetricColon(t)
  {
    if IsMetricText(t) && HasMetricColon(t) then MetricParts(t) else None
  }
}
