/**
 * The class passes of `structureStoryContent` after persona grouping: quotes,
 * pain points, metrics and body text. Each pass visits the paragraphs (and, for
 * metrics, the h3 and h4 headings) in document order and tests the trimmed
 * `textContent` of each one as it stands when the pass reaches it. Each pass is
 * stated here as a function of the tree it starts from.
 */
module StoryStructure {
  import opened Wrappers
  import opened JsText
  import opened Dom
  import opened StoryText
  import opened Grouping

  const QuoteClass := "cs-quote"
  const PainLabelClass := "cs-pain-points-label"
  const PainListClass := "cs-pain-points-list"
  const MetricClass := "cs-metric-item"
  const BodyClass := "cs-body-text"
  const CardClass := "cs-persona-card"

  /** The classes the passes add are single class names. */
  lemma ClassNamesValid()
    ensures IsClassName(QuoteClass) && IsClassName(PainLabelClass) && IsClassName(PainListClass)
    ensures IsClassName(MetricClass) && IsClassName(BodyClass)
  {
    PlainClassName(QuoteClass);
    PlainClassName(PainLabelClass);
    PlainClassName(PainListClass);
    PlainClassName(MetricClass);
    PlainClassName(BodyClass);
  }

  /** Lower-case letters and hyphens make a class name. */
  lemma PlainClassName(name: string)
    requires name != [] && forall k :: 0 <= k < |name| ==> 'a' <= name[k] <= 'z' || name[k] == '-'
    ensures IsClassName(name)
  {
  }

  function TrimmedText(n: Node): string {
    Trim(TextContent(n))
  }

  /** The siblings with every class removed: what a pass that only edits classes keeps. */
  function Unclassed(ns: seq<Node>): (r: seq<Node>)
    ensures |r| == |ns|
  {
    seq(|ns|, i requires 0 <= i < |ns| => UnclassedNode(ns[i]))
  }

  function UnclassedNode(n: Node): Node {
    match n
    case Text(_) => n
    case Element(tag, _, attrs, cs) => Element(tag, "", attrs, Unclassed(cs))
  }

  // ---------------------------------------------------------------- quotes

  /** The quote pass over a sibling sequence. */
  function Quoted(ns: seq<Node>): (r: seq<Node>)
    ensures |r| == |ns|
  {
    seq(|ns|, i requires 0 <= i < |ns| => QuotedNode(ns[i]))
  }

  /** A paragraph that passes the outer quote test either has its text replaced by
      the quotation of a `Quote: "…"` label and gains the quote class, or, when it
      reads as a bare quotation, only gains the class; every other node keeps its
      class and the pass goes on below it. */
  function QuotedNode(n: Node): Node {
    match n
    case Text(_) => n
    case Element(tag, cls, attrs, cs) =>
      var t := TrimmedText(n);
      if tag != P || !IsQuoteCandidate(t) then Element(tag, cls, attrs, Quoted(cs))
      else match LabelledQuote(t)
        case Some(x) => Element(tag, AppendClass(cls, QuoteClass), attrs, [Text(x)])
        case None => Element(tag, if IsBareQuote(t) then AppendClass(cls, QuoteClass) else cls, attrs, Quoted(cs))
  }

  /** A tree without paragraphs passes through the quote pass unchanged. */
  lemma {:induction false} QuotedNoParagraph(ns: seq<Node>)
    requires !ContainsTag(ns, P)
    ensures Quoted(ns) == ns
    decreases ns
  {
    forall i | 0 <= i < |ns|
      ensures Quoted(ns)[i] == ns[i]
    {
      NoTagAt(ns, P, i);
      if ns[i].Element? {
        QuotedNoParagraph(ns[i].children);
      }
    }
  }

  /** A paragraph reading `Quote:`, whitespace and a quotation is left holding just
      the quoted text, and carries the quote class. */
  lemma QuoteParagraphOf(cls: string, attrs: map<string, string>, cs: seq<Node>,
                         opening: string, space: string, x: string, tail: string)
    requires Trim(TextOfAll(cs)) == opening + space + "\"" + x + tail
    requires |opening| == 6 && ToLower(opening) == "quote:"
    requires forall k :: 0 <= k < |space| ==> IsJsSpace(space[k])
    requires x != [] && forall k :: 0 <= k < |x| ==> x[k] != '"'
    requires tail == [] || tail[0] == '"'
    ensures TextContent(QuotedNode(Element(P, cls, attrs, cs))) == x
    ensures HasClass(QuotedNode(Element(P, cls, attrs, cs)).className, QuoteClass)
    ensures QuotedNode(Element(P, cls, attrs, cs)).attributes == attrs
  {
    LabelledQuoteOf(opening, space, x, tail);
    LabelledQuoteParagraph(Element(P, cls, attrs, cs), x);
  }

  /** A paragraph whose trimmed text is a labelled quote holds just the quotation afterwards. */
  lemma LabelledQuoteParagraph(n: Node, x: string)
    requires HasTag(n, P) && LabelledQuote(TrimmedText(n)) == Some(x)
    ensures TextContent(QuotedNode(n)) == x
    ensures HasClass(QuotedNode(n).className, QuoteClass)
    ensures QuotedNode(n).attributes == n.attributes
  {
    ClassNamesValid();
    AppendClassAdds(n.className, QuoteClass);
    assert TextOfAll([Text(x)]) == x + TextOfAll([]);
  }

  /** A paragraph with a `Quote:` label that no quotation mark follows is left as
      it is (paragraphs do not nest in parsed HTML). */
  lemma UnquotedLabelParagraph(cls: string, attrs: map<string, string>, cs: seq<Node>)
    requires !ContainsTag(cs, P)
    requires HasQuoteLabel(Trim(TextOfAll(cs)))
    requires var t := Trim(TextOfAll(cs)); QuoteBodyStart(t) == |t| || t[QuoteBodyStart(t)] != '"'
    ensures QuotedNode(Element(P, cls, attrs, cs)) == Element(P, cls, attrs, cs)
  {
    UnquotedLabel(Trim(TextOfAll(cs)));
    QuotedNoParagraph(cs);
  }

  /** A candidate paragraph that reads as a bare quotation, and carries no
      `Quote:` quotation, keeps its text and attributes and gains the quote class. */
  lemma BareQuoteParagraph(n: Node)
    requires HasTag(n, P)
    requires var t := TrimmedText(n); IsQuoteCandidate(t) && LabelledQuote(t).None? && IsBareQuote(t)
    ensures HasClass(QuotedNode(n).className, QuoteClass)
    ensures QuotedNode(n).attributes == n.attributes
    ensures QuotedNode(n).children == Quoted(n.children)
  {
    ClassNamesValid();
    AppendClassAdds(n.className, QuoteClass);
  }

  /** Any element other than a paragraph the quote test accepts keeps its class and
      attributes: only quotations gain the quote class. */
  lemma NotQuoteKeepsClass(n: Node)
    requires n.Element?
    requires var t := TrimmedText(n);
      !(HasTag(n, P) && IsQuoteCandidate(t) && (LabelledQuote(t).Some? || IsBareQuote(t)))
    ensures QuotedNode(n).className == n.className
    ensures QuotedNode(n).attributes == n.attributes
  {
  }

  // ----------------------------------------------------------- pain points

  predicate IsPainLabelParagraph(n: Node) {
    HasTag(n, P) && IsPainLabel(TrimmedText(n))
  }

  /** The last element among `ns` passes `isLabel`: read from the following
      node's side, its previous element sibling passes the test. */
  predicate AfterElement(ns: seq<Node>, isLabel: Node -> bool)
    decreases |ns|
  {
    ns != [] && (if ns[|ns| - 1].Element? then isLabel(ns[|ns| - 1]) else AfterElement(ns[..|ns| - 1], isLabel))
  }

  /** The pain-point pass over a sibling sequence. */
  function Pained(ns: seq<Node>): (r: seq<Node>)
    ensures |r| == |ns|
    ensures forall i :: 0 <= i < |ns| ==> r[i].Element? == ns[i].Element?
  {
    seq(|ns|, i requires 0 <= i < |ns| => PainedNode(ns[i], IsPainLabelParagraph(ns[i]), AfterElement(ns[..i], IsPainLabelParagraph)))
  }

  /** The node at index `k` after the pain-point pass. */
  function PainedAt(ns: seq<Node>, k: nat): Node
    requires k < |ns|
  {
    PainedNode(ns[k], IsPainLabelParagraph(ns[k]), AfterElement(ns[..k], IsPainLabelParagraph))
  }

  /** A sibling list holding each node as the pass leaves it is the pass's result. */
  lemma PainedIsPainedAt(ns: seq<Node>, out: seq<Node>)
    requires |out| == |ns|
    requires forall k :: 0 <= k < |ns| ==> out[k] == PainedAt(ns, k)
    ensures out == Pained(ns)
  {
  }

  /** A label paragraph gains the label class; a list whose previous element
      sibling is a label paragraph gains the list class. */
  function PainedNode(n: Node, isLabel: bool, afterLabel: bool): (r: Node)
    ensures r.Element? == n.Element?
  {
    match n
    case Text(_) => n
    case Element(tag, cls, attrs, cs) =>
      var marked :=
        if isLabel then AppendClass(cls, PainLabelClass)
        else if (tag == Ul || tag == Ol) && afterLabel then AppendClass(cls, PainListClass)
        else cls;
      Element(tag, marked, attrs, Pained(cs))
  }

  /** Extending the siblings by one node: an element decides the flag, a text node keeps it. */
  lemma AfterElementStep(ns: seq<Node>, i: nat, isLabel: Node -> bool)
    requires i < |ns|
    ensures AfterElement(ns[..i + 1], isLabel) == if ns[i].Element? then isLabel(ns[i]) else AfterElement(ns[..i], isLabel)
  {
    assert ns[..i + 1][..i] == ns[..i];
  }

  /** `AfterElement` holds exactly when some node that passes the test is followed,
      up to the end of `ns`, by text nodes only (the test passes elements only). */
  lemma {:induction false} AfterElementIff(ns: seq<Node>, isLabel: Node -> bool)
    requires forall n :: isLabel(n) ==> n.Element?
    ensures AfterElement(ns, isLabel) <==>
      exists i | 0 <= i < |ns| :: isLabel(ns[i]) && forall k :: i < k < |ns| ==> ns[k].Text?
    decreases |ns|
  {
    if ns != [] {
      var last := |ns| - 1;
      if ns[last].Element? {
        if !AfterElement(ns, isLabel) {
          forall i | 0 <= i < |ns| && isLabel(ns[i])
            ensures exists k :: i < k < |ns| && !ns[k].Text?
          {
            assert i != last;
            assert !ns[last].Text?;
          }
        }
      } else {
        var front := ns[..last];
        AfterElementIff(front, isLabel);
        if AfterElement(ns, isLabel) {
          var i :| 0 <= i < |front| && isLabel(front[i]) && forall k :: i < k < |front| ==> front[k].Text?;
          assert isLabel(ns[i]) && forall k :: i < k < |ns| ==> ns[k].Text?;
        } else {
          forall i | 0 <= i < |ns| && isLabel(ns[i])
            ensures exists k :: i < k < |ns| && !ns[k].Text?
          {
            assert i < last;
            assert front[i] == ns[i];
            var k :| i < k < |front| && !front[k].Text?;
            assert ns[k] == front[k];
          }
        }
      }
    }
  }

  /** A label paragraph is marked as a label. */
  lemma PainLabelMarked(ns: seq<Node>, i: nat)
    requires i < |ns| && IsPainLabelParagraph(ns[i])
    ensures HasClass(Pained(ns)[i].className, PainLabelClass)
  {
    var after := AfterElement(ns[..i], IsPainLabelParagraph);
    assert Pained(ns)[i] == PainedNode(ns[i], true, after);
    PainedLabelClass(ns[i], after);
  }

  lemma PainedLabelClass(n: Node, after: bool)
    requires n.Element?
    ensures HasClass(PainedNode(n, true, after).className, PainLabelClass)
  {
    ClassNamesValid();
    AppendClassAdds(n.className, PainLabelClass);
  }

  /** The list that is the next element sibling of a label paragraph is marked as a
      pain-point list; any other list keeps its class. */
  lemma PainListMarked(ns: seq<Node>, j: nat)
    requires j < |ns| && (HasTag(ns[j], Ul) || HasTag(ns[j], Ol))
    ensures (exists i | 0 <= i < j :: IsPainLabelParagraph(ns[i]) && forall k :: i < k < j ==> ns[k].Text?)
      ==> HasClass(Pained(ns)[j].className, PainListClass)
    ensures !(exists i | 0 <= i < j :: IsPainLabelParagraph(ns[i]) && forall k :: i < k < j ==> ns[k].Text?)
      ==> Pained(ns)[j].className == ns[j].className
  {
    var after := AfterElement(ns[..j], IsPainLabelParagraph);
    assert Pained(ns)[j] == PainedNode(ns[j], false, after);
    PainedListClass(ns[j], after);
    AfterElementAt(ns, j, IsPainLabelParagraph);
  }

  /** An element that is neither a label paragraph nor a list keeps its class. */
  lemma OtherElementKeepsClass(ns: seq<Node>, i: nat)
    requires i < |ns| && ns[i].Element?
    requires !IsPainLabelParagraph(ns[i]) && !HasTag(ns[i], Ul) && !HasTag(ns[i], Ol)
    ensures Pained(ns)[i].className == ns[i].className
  {
    assert Pained(ns)[i] == PainedNode(ns[i], false, AfterElement(ns[..i], IsPainLabelParagraph));
  }

  /** `AfterElementIff` for the siblings before index `j`. */
  lemma AfterElementAt(ns: seq<Node>, j: nat, isLabel: Node -> bool)
    requires j <= |ns|
    requires forall n :: isLabel(n) ==> n.Element?
    ensures AfterElement(ns[..j], isLabel) <==>
      exists i | 0 <= i < j :: isLabel(ns[i]) && forall k :: i < k < j ==> ns[k].Text?
  {
    var front := ns[..j];
    AfterElementIff(front, isLabel);
    if exists i | 0 <= i < j :: isLabel(ns[i]) && forall k :: i < k < j ==> ns[k].Text? {
      var i :| 0 <= i < j && isLabel(ns[i]) && forall k :: i < k < j ==> ns[k].Text?;
      assert isLabel(front[i]) && forall k :: i < k < |front| ==> front[k].Text?;
    } else {
      forall i | 0 <= i < |front| && isLabel(front[i])
        ensures exists k :: i < k < |front| && !front[k].Text?
      {
        assert ns[i] == front[i];
        var k :| i < k < j && !ns[k].Text?;
        assert front[k] == ns[k];
      }
    }
  }

  lemma PainedListClass(n: Node, after: bool)
    requires HasTag(n, Ul) || HasTag(n, Ol)
    ensures after ==> HasClass(PainedNode(n, false, after).className, PainListClass)
    ensures !after ==> PainedNode(n, false, after).className == n.className
  {
    ClassNamesValid();
    AppendClassAdds(n.className, PainListClass);
  }

  /** The pain-point pass changes classes only. */
  lemma {:induction false} PainedOnlyClasses(ns: seq<Node>)
    ensures Unclassed(Pained(ns)) == Unclassed(ns)
    decreases ns
  {
    forall i | 0 <= i < |ns|
      ensures Unclassed(Pained(ns))[i] == Unclassed(ns)[i]
    {
      if ns[i].Element? {
        PainedOnlyClasses(ns[i].children);
      }
    }
  }

  // --------------------------------------------------------------- metrics

  /** The markup a rewritten metric paragraph holds: the label with its colon in a
      strong element, a space, and the value in a span. */
  function MetricChildren(name: string, value: string): seq<Node> {
    [ Element(Strong, "cs-metric-label-inline", map[], [Text(name + ":")]),
      Text(" "),
      Element(Span, "cs-metric-value-inline", map[], [Text(value)]) ]
  }

  /** The metric pass over a sibling sequence. */
  function Metrics(ns: seq<Node>): (r: seq<Node>)
    ensures |r| == |ns|
  {
    seq(|ns|, i requires 0 <= i < |ns| => MetricNode(ns[i]))
  }

  /** A paragraph whose trimmed text reads as a metric, and that is not yet a
      metric item, becomes one and holds the label and the value; every other
      node is kept and the pass goes on below it. */
  function MetricNode(n: Node): Node {
    match n
    case Text(_) => n
    case Element(tag, cls, attrs, cs) =>
      var parts := if tag == P then MetricOf(TrimmedText(n)) else None;
      if parts.Some? && !HasClass(cls, MetricClass)
      then Element(tag, AppendClass(cls, MetricClass), attrs, MetricChildren(parts.value.0, parts.value.1))
      else Element(tag, cls, attrs, Metrics(cs))
  }

  lemma {:induction false} MetricsNoParagraph(ns: seq<Node>)
    requires !ContainsTag(ns, P)
    ensures Metrics(ns) == ns
    decreases ns
  {
    forall i | 0 <= i < |ns|
      ensures Metrics(ns)[i] == ns[i]
    {
      NoTagAt(ns, P, i);
      if ns[i].Element? {
        MetricsNoParagraph(ns[i].children);
      }
    }
  }

  /** A rewritten metric paragraph is a metric item whose text is the label, a
      colon, a space and the value. */
  lemma MetricRewritten(n: Node, name: string, value: string)
    requires HasTag(n, P) && !HasClass(n.className, MetricClass)
    requires MetricOf(TrimmedText(n)) == Some((name, value))
    ensures HasClass(MetricNode(n).className, MetricClass)
    ensures TextContent(MetricNode(n)) == name + ": " + value
    ensures MetricNode(n).attributes == n.attributes
  {
    ClassNamesValid();
    AppendClassAdds(n.className, MetricClass);
    MetricChildrenText(name, value);
  }

  lemma MetricChildrenText(name: string, value: string)
    ensures TextOfAll(MetricChildren(name, value)) == name + ": " + value
  {
    var ms := MetricChildren(name, value);
    assert TextContent(ms[0]) == name + ":" by {
      assert TextOfAll([Text(name + ":")]) == name + ":" + TextOfAll([]);
    }
    assert TextContent(ms[2]) == value by {
      assert TextOfAll([Text(value)]) == value + TextOfAll([]);
    }
    var a := ms[1..];
    var b := a[1..];
    assert a[0] == Text(" ") && b[0] == ms[2] && b[1..] == [];
    assert TextOfAll(b) == value + TextOfAll([]);
    assert TextOfAll(a) == " " + TextOfAll(b);
  }

  /** A paragraph written `label: value` comes out as that label and value, trimmed. */
  lemma MetricParagraphOf(n: Node, name: string, value: string)
    requires HasTag(n, P) && !HasClass(n.className, MetricClass)
    requires TrimmedText(n) == name + ": " + value
    requires name != [] && forall k :: 0 <= k < |name| ==> name[k] != '*' && name[k] != ':'
    requires value != [] && !IsJsSpace(value[0])
    requires forall k :: 0 <= k < |value| ==> !IsLineTerminator(value[k])
    requires IsMetricText(name + ": " + value) && HasMetricColon(name + ": " + value)
    ensures TextContent(MetricNode(n)) == Trim(name) + ": " + Trim(value)
  {
    MetricSplitOf(name, value);
    MetricRewritten(n, Trim(name), Trim(value));
  }

  /** An element that already carries the metric class is never rewritten again. */
  lemma MetricGuarded(cls: string, attrs: map<string, string>, cs: seq<Node>)
    requires HasClass(cls, MetricClass) && !ContainsTag(cs, P)
    ensures MetricNode(Element(P, cls, attrs, cs)) == Element(P, cls, attrs, cs)
  {
    MetricsNoParagraph(cs);
  }

  /** Running the metric pass twice is running it once, where paragraphs do not nest. */
  lemma {:induction false} MetricsIdempotent(ns: seq<Node>)
    requires TagUnnested(ns, P)
    ensures Metrics(Metrics(ns)) == Metrics(ns)
    decreases ns, 1
  {
    forall i | 0 <= i < |ns|
      ensures Metrics(Metrics(ns))[i] == Metrics(ns)[i]
    {
      UnnestedAt(ns, P, i);
      MetricNodeIdempotent(ns[i]);
    }
  }

  lemma {:induction false} MetricNodeIdempotent(n: Node)
    requires TagUnnestedNode(n, P)
    ensures MetricNode(MetricNode(n)) == MetricNode(n)
    decreases n, 0
  {
    match n
    case Text(_) =>
    case Element(tag, cls, attrs, cs) =>
      var parts := if tag == P then MetricOf(TrimmedText(n)) else None;
      if parts.Some? && !HasClass(cls, MetricClass) {
        ClassNamesValid();
        AppendClassAdds(cls, MetricClass);
        MetricChildrenUnchanged(parts.value.0, parts.value.1);
      } else if tag == P {
        MetricsNoParagraph(cs);
      } else {
        MetricsIdempotent(cs);
      }
  }

  lemma MetricChildrenUnchanged(name: string, value: string)
    ensures Metrics(MetricChildren(name, value)) == MetricChildren(name, value)
  {
    var ms := MetricChildren(name, value);
    MetricsOfText(name + ":");
    MetricsOfText(value);
    OtherTagKept(ms[0]);
    OtherTagKept(ms[2]);
    var r := Metrics(ms);
    assert r[0] == ms[0] && r[1] == ms[1] && r[2] == ms[2];
  }

  lemma MetricsOfText(t: string)
    ensures Metrics([Text(t)]) == [Text(t)]
  {
    assert Metrics([Text(t)])[0] == Text(t);
  }

  /** An element other than a paragraph keeps its class; the pass only goes on below it. */
  lemma OtherTagKept(n: Node)
    requires n.Element? && n.tag != P && Metrics(n.children) == n.children
    ensures MetricNode(n) == n
  {
  }

  // ------------------------------------------------------------- body text

  /** The body-text test for a paragraph: none of the three classes other passes
      set, not inside (or itself) a persona card, and no `cs-body-text` anywhere in
      its class string. */
  predicate TakesBodyText(cls: string, inCard: bool) {
    && !HasClass(cls, QuoteClass)
    && !HasClass(cls, PainLabelClass)
    && !HasClass(cls, MetricClass)
    && !inCard
    && !Contains(cls, BodyClass)
  }

  /** The body-text pass over a sibling sequence; `inCard` records a persona-card ancestor. */
  function BodyText(ns: seq<Node>, inCard: bool): (r: seq<Node>)
    ensures |r| == |ns|
  {
    seq(|ns|, i requires 0 <= i < |ns| => BodyNode(ns[i], inCard))
  }

  function BodyNode(n: Node, inCard: bool): Node {
    match n
    case Text(_) => n
    case Element(tag, cls, attrs, cs) =>
      var card := inCard || HasClass(cls, CardClass);
      Element(tag, if tag == P && TakesBodyText(cls, card) then AppendClass(cls, BodyClass) else cls, attrs, BodyText(cs, card))
  }

  /** A paragraph that passes the test ends up with the body-text class; one that
      fails it keeps its class string exactly. */
  lemma BodyTextRule(cls: string, attrs: map<string, string>, cs: seq<Node>, inCard: bool)
    ensures var card := inCard || HasClass(cls, CardClass);
      TakesBodyText(cls, card) ==> HasClass(BodyNode(Element(P, cls, attrs, cs), inCard).className, BodyClass)
    ensures var card := inCard || HasClass(cls, CardClass);
      !TakesBodyText(cls, card) ==> BodyNode(Element(P, cls, attrs, cs), inCard).className == cls
  {
    ClassNamesValid();
    AppendClassAdds(cls, BodyClass);
  }

  lemma {:induction false} BodyNoParagraph(ns: seq<Node>, inCard: bool)
    requires !ContainsTag(ns, P)
    ensures BodyText(ns, inCard) == ns
    decreases ns
  {
    forall i | 0 <= i < |ns|
      ensures BodyText(ns, inCard)[i] == ns[i]
    {
      NoTagAt(ns, P, i);
      if ns[i].Element? {
        BodyNoParagraph(ns[i].children, inCard || HasClass(ns[i].className, CardClass));
      }
    }
  }

  /** Running the body-text pass twice is running it once, where paragraphs do not nest. */
  lemma {:induction false} BodyTextIdempotent(ns: seq<Node>, inCard: bool)
    requires TagUnnested(ns, P)
    ensures BodyText(BodyText(ns, inCard), inCard) == BodyText(ns, inCard)
    decreases ns, 1
  {
    forall i | 0 <= i < |ns|
      ensures BodyText(BodyText(ns, inCard), inCard)[i] == BodyText(ns, inCard)[i]
    {
      UnnestedAt(ns, P, i);
      BodyNodeIdempotent(ns[i], inCard);
    }
  }

  lemma {:induction false} BodyNodeIdempotent(n: Node, inCard: bool)
    requires TagUnnestedNode(n, P)
    ensures BodyNode(BodyNode(n, inCard), inCard) == BodyNode(n, inCard)
    decreases n, 0
  {
    match n
    case Text(_) =>
    case Element(tag, cls, attrs, cs) =>
      var card := inCard || HasClass(cls, CardClass);
      if tag == P {
        BodyNoParagraph(cs, card);
        ClassNamesValid();
        AppendClassAdds(cls, BodyClass);
        if TakesBodyText(cls, card) {
          BodyNoParagraph(cs, inCard || HasClass(AppendClass(cls, BodyClass), CardClass));
        }
      } else {
        BodyTextIdempotent(cs, card);
      }
  }

  /** The body-text pass changes classes only. */
  lemma {:induction false} BodyTextOnlyClasses(ns: seq<Node>, inCard: bool)
    ensures Unclassed(BodyText(ns, inCard)) == Unclassed(ns)
    decreases ns
  {
    forall i | 0 <= i < |ns|
      ensures Unclassed(BodyText(ns, inCard))[i] == Unclassed(ns)[i]
    {
      if ns[i].Element? {
        BodyTextOnlyClasses(ns[i].children, inCard || HasClass(ns[i].className, CardClass));
      }
    }
  }

  // ------------------------------------------------------------ all passes

  /** `structureStoryContent` on the container's children: persona cards, then
      the quote, pain-point, metric and body-text passes, each over the result of
      the one before. */
  function Structured(ns: seq<Node>): seq<Node> {
    BodyText(Metrics(Pained(Quoted(Grouped(PersonaRule, ns, false)))), false)
  }
}
