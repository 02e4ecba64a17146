/**
 * The story scripts as they run on the content container: each pass walks a
 * sibling list with a loop, rebuilds the nodes it changes and goes on into the
 * children of the ones it keeps. Every walk is proved to leave exactly the tree
 * its specification function describes.
 */
module StoryPage {
  import opened Wrappers
  import opened JsText
  import opened Dom
  import opened StoryText
  import opened Grouping
  import opened StoryStructure

  /** Wraps every heading the pass selects among or below `ns`, one sibling at a time. */
  method WrapGroups(rule: Rule, ns: seq<Node>, inside: bool) returns (out: seq<Node>)
    ensures out == Grouped(rule, ns, inside)
    decreases ns
  {
    out := [];
    var i := 0;
    while i < |ns|
      invariant 0 <= i <= |ns|
      invariant |out| == i
      invariant forall k :: 0 <= k < i ==> out[k] == Grouped(rule, ns, inside)[k]
    {
      var node := WrapGroupsAt(rule, ns[i], inside);
      out := out + [node];
      i := i + 1;
    }
  }

  /** One sibling: a heading the pass takes is wrapped where it stands; any other
      node is kept and the walk goes on below it. */
  method WrapGroupsAt(rule: Rule, n: Node, inside: bool) returns (r: Node)
    ensures r == GroupedAt(rule, n, inside)
    decreases n, 1
  {
    var leader := LeaderOf(rule, n, inside);
    if leader.Some? {
      r := WrapHeading(rule, n, leader.value);
    } else {
      r := WrapGroupsNode(rule, n, inside);
    }
  }

  /** The wrapper built around a heading: the number heading (for a chapter) and a
      content block into which the heading is moved first. The walk over the
      heading's following siblings then starts from its new place, where it is the
      block's only child, so it moves nothing into the block. */
  method WrapHeading(rule: Rule, heading: Node, number: nat) returns (w: Node)
    ensures w == Wrapper(rule, number, heading, [])
  {
    var block := [heading];
    // The walk starts after the heading inside the block, so it finds no sibling
    // to move (see "## Findings" in the README).
    var j, moved, stay := CollectSection(rule, block, 0);
    assert j == 1 && moved == [] && stay == [];
    var content := Element(Div, ContentClass(rule), map[], block + moved);
    w :=
      if rule.ChapterRule? then Element(Div, WrapperClass(rule), map[], [NumberHeading(number), content])
      else Element(Div, WrapperClass(rule), map[], [content]);
  }

  /** The `nextSibling` walk after the node at index `i`: it stops at the first
      sibling that ends the section, and collects the elements it moves and the
      text nodes it leaves. */
  method CollectSection(rule: Rule, ns: seq<Node>, i: nat) returns (j: nat, moved: seq<Node>, stay: seq<Node>)
    requires i < |ns|
    ensures i < j <= |ns|
    ensures forall k :: i < k < j ==> !Stops(rule, ns[k])
    ensures j == |ns| || Stops(rule, ns[j])
    ensures moved == ElementsOf(ns[i + 1..j]) && stay == TextNodesOf(ns[i + 1..j])
  {
    moved, stay := [], [];
    j := i + 1;
    while j < |ns| && !Stops(rule, ns[j])
      invariant i + 1 <= j <= |ns|
      invariant NoStopIn(rule, ns, i + 1, j)
      invariant moved == ElementsOf(ns[i + 1..j]) && stay == TextNodesOf(ns[i + 1..j])
    {
      moved, stay := CollectSibling(ns, i + 1, j, moved, stay);
      j := j + 1;
    }
  }

  /** No sibling from index `a` up to `b` ends a section. */
  predicate NoStopIn(rule: Rule, ns: seq<Node>, a: nat, b: nat)
    requires a <= b <= |ns|
  {
    forall k :: a <= k < b ==> !Stops(rule, ns[k])
  }

  /** One sibling of the walk: an element is moved, a text node stays. */
  method CollectSibling(ns: seq<Node>, a: nat, j: nat, moved: seq<Node>, stay: seq<Node>) returns (moved': seq<Node>, stay': seq<Node>)
    requires a <= j < |ns|
    requires moved == ElementsOf(ns[a..j]) && stay == TextNodesOf(ns[a..j])
    ensures moved' == ElementsOf(ns[a..j + 1]) && stay' == TextNodesOf(ns[a..j + 1])
  {
    SplitSliceSnoc(ns, a, j);
    if ns[j].Element? {
      moved', stay' := moved + [ns[j]], stay;
    } else {
      moved', stay' := moved, stay + [ns[j]];
    }
  }

  method WrapGroupsNode(rule: Rule, n: Node, inside: bool) returns (r: Node)
    ensures r == GroupedNode(rule, n, inside)
    decreases n, 0
  {
    match n
    case Text(_) =>
      r := n;
    case Element(tag, cls, attrs, cs) =>
      var kids := WrapGroups(rule, cs, inside || HasClass(cls, MarkerClass(rule)));
      r := Element(tag, cls, attrs, kids);
  }

  /** The quote pass over a sibling list. */
  method StyleQuotes(ns: seq<Node>) returns (out: seq<Node>)
    ensures out == Quoted(ns)
    decreases ns
  {
    out := [];
    var i := 0;
    while i < |ns|
      invariant 0 <= i <= |ns|
      invariant |out| == i
      invariant forall k :: 0 <= k < i ==> out[k] == Quoted(ns)[k]
    {
      var node := StyleQuote(ns[i]);
      out := out + [node];
      i := i + 1;
    }
  }

  method StyleQuote(n: Node) returns (r: Node)
    ensures r == QuotedNode(n)
    decreases n
  {
    match n
    case Text(_) =>
      r := n;
    case Element(tag, cls, attrs, cs) =>
      var text := Trim(TextContent(n));
      if tag == P && IsQuoteCandidate(text) {
        var quote := LabelledQuote(text);
        if quote.Some? {
          r := Element(tag, AppendClass(cls, QuoteClass), attrs, [Text(quote.value)]);
        } else {
          var marked := if IsBareQuote(text) then AppendClass(cls, QuoteClass) else cls;
          var kids := StyleQuotes(cs);
          r := Element(tag, marked, attrs, kids);
        }
      } else {
        var kids := StyleQuotes(cs);
        r := Element(tag, cls, attrs, kids);
      }
  }

  /** The pain-point pass over a sibling list; `afterLabel` remembers whether the
      last element passed is a label paragraph, so the element after it is that
      paragraph's next element sibling. */
  method MarkPainPoints(ns: seq<Node>) returns (out: seq<Node>)
    ensures out == Pained(ns)
    decreases ns, 1
  {
    out := [];
    var afterLabel := false;
    var i := 0;
    while i < |ns|
      invariant 0 <= i <= |ns|
      invariant |out| == i
      invariant forall k :: 0 <= k < i ==> out[k] == PainedAt(ns, k)
      invariant afterLabel == AfterElement(ns[..i], IsPainLabelParagraph)
    {
      var node;
      node, afterLabel := PainStep(ns, i, afterLabel);
      out := out + [node];
      i := i + 1;
    }
    PainedIsPainedAt(ns, out);
  }

  /** The sibling at index `i`: marked, and the flag moved past it when it is an element. */
  method PainStep(ns: seq<Node>, i: nat, afterLabel: bool) returns (node: Node, next: bool)
    requires i < |ns| && afterLabel == AfterElement(ns[..i], IsPainLabelParagraph)
    ensures node == PainedAt(ns, i)
    ensures next == AfterElement(ns[..i + 1], IsPainLabelParagraph)
    decreases ns, 0
  {
    var isLabel := IsPainLabelParagraph(ns[i]);
    node := MarkPainNode(ns[i], isLabel, afterLabel);
    AfterElementStep(ns, i, IsPainLabelParagraph);
    next := if ns[i].Element? then isLabel else afterLabel;
  }

  method MarkPainNode(n: Node, isLabel: bool, afterLabel: bool) returns (r: Node)
    ensures r == PainedNode(n, isLabel, afterLabel)
    decreases n
  {
    match n
    case Text(_) =>
      r := n;
    case Element(tag, cls, attrs, cs) =>
      var marked := cls;
      if isLabel {
        marked := AppendClass(cls, PainLabelClass);
      } else if (tag == Ul || tag == Ol) && afterLabel {
        marked := AppendClass(cls, PainListClass);
      }
      var kids := MarkPainPoints(cs);
      r := Element(tag, marked, attrs, kids);
  }

  /** The metric pass over a sibling list. */
  method RewriteMetrics(ns: seq<Node>) returns (out: seq<Node>)
    ensures out == Metrics(ns)
    decreases ns
  {
    out := [];
    var i := 0;
    while i < |ns|
      invariant 0 <= i <= |ns|
      invariant |out| == i
      invariant forall k :: 0 <= k < i ==> out[k] == Metrics(ns)[k]
    {
      var node := RewriteMetric(ns[i]);
      out := out + [node];
      i := i + 1;
    }
  }

  method RewriteMetric(n: Node) returns (r: Node)
    ensures r == MetricNode(n)
    decreases n
  {
    match n
    case Text(_) =>
      r := n;
    case Element(tag, cls, attrs, cs) =>
      var parts := if tag == P then MetricOf(Trim(TextContent(n))) else None;
      if parts.Some? && !HasClass(cls, MetricClass) {
        var (name, value) := parts.value;
        r := Element(tag, AppendClass(cls, MetricClass), attrs, MetricChildren(name, value));
      } else {
        var kids := RewriteMetrics(cs);
        r := Element(tag, cls, attrs, kids);
      }
  }

  /** The body-text pass over a sibling list below a persona card or not. */
  method MarkBodyText(ns: seq<Node>, inCard: bool) returns (out: seq<Node>)
    ensures out == BodyText(ns, inCard)
    decreases ns
  {
    out := [];
    var i := 0;
    while i < |ns|
      invariant 0 <= i <= |ns|
      invariant |out| == i
      invariant forall k :: 0 <= k < i ==> out[k] == BodyText(ns, inCard)[k]
    {
      var node := MarkBodyNode(ns[i], inCard);
      out := out + [node];
      i := i + 1;
    }
  }

  method MarkBodyNode(n: Node, inCard: bool) returns (r: Node)
    ensures r == BodyNode(n, inCard)
    decreases n
  {
    match n
    case Text(_) =>
      r := n;
    case Element(tag, cls, attrs, cs) =>
      var card := inCard || HasClass(cls, CardClass);
      var marked := cls;
      if tag == P && TakesBodyText(cls, card) {
        marked := AppendClass(cls, BodyClass);
      }
      var kids := MarkBodyText(cs, card);
      r := Element(tag, marked, attrs, kids);
  }

  /** The page guard of `addChapterNumbers`: the body carries one of the story classes. */
  predicate OnStoryPage(bodyClass: string) {
    HasClass(bodyClass, "single-story") || HasClass(bodyClass, "post-type-story")
  }

  /** The content container of a story page, `.cs-story-content .wp-block-post-content`. */
  class StoryContent {
    var children: seq<Node>

    constructor(children: seq<Node>)
      ensures this.children == children
    {
      this.children := children;
    }

    /** On a story page, every numbered h2 not yet inside a chapter becomes a
        chapter; elsewhere nothing changes. The early return when no heading is
        collected is the same as the full pass. */
    method AddChapterNumbers(bodyClass: string)
      modifies this
      ensures OnStoryPage(bodyClass) ==> children == Grouped(ChapterRule, old(children), false)
      ensures !OnStoryPage(bodyClass) ==> children == old(children)
    {
      if !HasClass(bodyClass, "single-story") && !HasClass(bodyClass, "post-type-story") {
        return;
      }
      if !AnyCandidate(ChapterRule, children, false) {
        NoCandidateUnchanged(ChapterRule, children, false);
        return;
      }
      children := WrapGroups(ChapterRule, children, false);
    }

    /** Persona cards, then quotes, pain points, metrics and body text. */
    method StructureStoryContent()
      modifies this
      ensures children == Structured(old(children))
    {
      var grouped := WrapGroups(PersonaRule, children, false);
      var quoted := StyleQuotes(grouped);
      var pained := MarkPainPoints(quoted);
      var metrics := RewriteMetrics(pained);
      children := MarkBodyText(metrics, false);
    }

    /** `runAllStructure`: chapters first, then the structure passes. */
    method RunAllStructure(bodyClass: string)
      modifies this
      ensures OnStoryPage(bodyClass) ==> children == Structured(Grouped(ChapterRule, old(children), false))
      ensures !OnStoryPage(bodyClass) ==> children == Structured(old(children))
    {
      AddChapterNumbers(bodyClass);
      StructureStoryContent();
    }
  }
}
