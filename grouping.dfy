/**
 * The two wrapping passes of the story scripts. `addChapterNumbers` wraps each
 * numbered h2 in a chapter, and the persona step of `structureStoryContent`
 * wraps each persona h3 in a card. Each pass collects its headings in document
 * order, skips the ones already inside (or themselves carrying) its marker
 * class, inserts a wrapper where the heading stood and moves the heading into
 * the wrapper's content block. The walk over the heading's following siblings
 * that comes next starts from the heading's new place, the end of the block, so
 * it finds no sibling: every other node stays where it was.
 *
 * `Grouped` states the tree such a pass leaves behind: it descends into every
 * element it does not wrap, with a flag recording whether an ancestor (or the
 * element itself) carries the marker class, as `closest` would find.
 */
module Grouping {
  import opened Wrappers
  import opened JsText
  import opened Dom
  import opened ChapterNumber
  import opened StoryText

  /** Which of the two passes: chapters around h2 headings, persona cards around h3 headings. */
  datatype Rule = ChapterRule | PersonaRule

  const NumberClass := "cs-chapter-number"

  function LeaderTag(rule: Rule): Tag {
    match rule
    case ChapterRule => H2
    case PersonaRule => H3
  }

  /** The class `closest` looks for to decide a heading is already grouped. */
  function MarkerClass(rule: Rule): string {
    match rule
    case ChapterRule => "cs-chapter"
    case PersonaRule => "cs-persona-card"
  }

  function WrapperClass(rule: Rule): string {
    match rule
    case ChapterRule => "cs-chapter cs-chapter-auto"
    case PersonaRule => "cs-persona-card cs-card-plain"
  }

  function ContentClass(rule: Rule): string {
    match rule
    case ChapterRule => "cs-chapter-content"
    case PersonaRule => "cs-persona-content"
  }

  /** A heading the pass collects and does not skip: for chapters an h2 that is
      not the background number; for personas an h3 whose trimmed text is a
      persona title; in both cases not inside, and not itself, a grouped block. */
  predicate IsCandidate(rule: Rule, n: Node, inside: bool) {
    && HasTag(n, LeaderTag(rule))
    && !inside && !HasClass(n.className, MarkerClass(rule))
    && match rule
       case ChapterRule => !HasClass(n.className, NumberClass)
       case PersonaRule => IsPersonaTitle(Trim(TextContent(n)))
  }

  /** Whether the pass wraps a node, and under which number: the chapter number
      extracted from the heading's trimmed text, or 0 for a persona card. */
  function LeaderOf(rule: Rule, n: Node, inside: bool): (r: Option<nat>)
    ensures r.Some? ==> IsCandidate(rule, n, inside)
    ensures IsCandidate(rule, n, inside) && rule.ChapterRule? ==> r == ExtractChapterNumber(Trim(TextContent(n)))
    ensures IsCandidate(rule, n, inside) && rule.PersonaRule? ==> r == Some(0)
  {
    if !IsCandidate(rule, n, inside) then None
    else match rule
      case ChapterRule => ExtractChapterNumber(Trim(TextContent(n)))
      case PersonaRule => Some(0)
  }

  /** A sibling that ends a section: any h2 for chapters; any h2 or h3 for personas. */
  predicate Stops(rule: Rule, n: Node) {
    HasTag(n, H2) || (rule.PersonaRule? && HasTag(n, H3))
  }

  /** The decorative heading that shows a chapter number and is hidden from assistive technology. */
  function NumberHeading(number: nat): Node {
    Element(H2, NumberClass, map["aria-hidden" := "true"], [Text(DecimalString(number))])
  }

  /** The content block: the heading, then the elements the sibling walk moved after it. */
  function ContentBlock(rule: Rule, heading: Node, section: seq<Node>): Node {
    Element(Div, ContentClass(rule), map[], [heading] + ElementsOf(section))
  }

  /** The wrapper the pass inserts where the heading stood. */
  function Wrapper(rule: Rule, number: nat, heading: Node, section: seq<Node>): Node {
    match rule
    case ChapterRule => Element(Div, WrapperClass(rule), map[], [NumberHeading(number), ContentBlock(rule, heading, section)])
    case PersonaRule => Element(Div, WrapperClass(rule), map[], [ContentBlock(rule, heading, section)])
  }

  /** The siblings `ns` once the pass has run over them: a heading the pass takes
      is replaced, where it stands, by a wrapper holding it; every other sibling
      stays where it is, with the headings below it handled. */
  function Grouped(rule: Rule, ns: seq<Node>, inside: bool): (r: seq<Node>)
    ensures |r| == |ns|
    decreases ns
  {
    seq(|ns|, i requires 0 <= i < |ns| => GroupedAt(rule, ns[i], inside))
  }

  /** One sibling after the pass. The walk that was to move the following
      siblings into the content block starts from the heading's `nextSibling`
      only after the heading has become the last child of the empty block, so
      the block holds the heading alone. */
  function GroupedAt(rule: Rule, n: Node, inside: bool): Node
    decreases n, 1
  {
    match LeaderOf(rule, n, inside)
    case Some(number) => Wrapper(rule, number, n, [])
    case None => GroupedNode(rule, n, inside)
  }

  /** A node the pass does not wrap, with the headings below it handled. */
  function GroupedNode(rule: Rule, n: Node, inside: bool): Node
    decreases n, 0
  {
    match n
    case Text(_) => n
    case Element(tag, cls, attrs, cs) => Element(tag, cls, attrs, Grouped(rule, cs, inside || HasClass(cls, MarkerClass(rule))))
  }

  /** Some heading among or below `ns` is a candidate (the collected list is not empty). */
  predicate AnyCandidate(rule: Rule, ns: seq<Node>, inside: bool) {
    ns != [] && (CandidateWithin(rule, ns[0], inside) || AnyCandidate(rule, ns[1..], inside))
  }

  predicate CandidateWithin(rule: Rule, n: Node, inside: bool) {
    || IsCandidate(rule, n, inside)
    || (n.Element? && AnyCandidate(rule, n.children, inside || HasClass(n.className, MarkerClass(rule))))
  }

  /** A node with the wrapper's tag, class and shape; its last child is the content block. */
  predicate IsWrapper(rule: Rule, n: Node) {
    && n.Element? && n.tag == Div && n.className == WrapperClass(rule)
    && |n.children| == (if rule.ChapterRule? then 2 else 1)
    && n.children[|n.children| - 1].Element?
  }

  function ContentOf(rule: Rule, w: Node): Node
    requires IsWrapper(rule, w)
  {
    w.children[|w.children| - 1]
  }

  /** The tree with every wrapper, at any depth, replaced by the nodes its content block holds. */
  function Unwrapped(rule: Rule, ns: seq<Node>): seq<Node>
    decreases ns
  {
    if ns == [] then [] else UnwrappedNode(rule, ns[0]) + Unwrapped(rule, ns[1..])
  }

  function UnwrappedNode(rule: Rule, n: Node): seq<Node>
    decreases n
  {
    match n
    case Text(_) => [n]
    case Element(tag, cls, attrs, cs) =>
      if IsWrapper(rule, n) then Unwrapped(rule, cs[|cs| - 1].children)
      else [Element(tag, cls, attrs, Unwrapped(rule, cs))]
  }

  /** No node among or below the siblings is a wrapper. */
  predicate NoWrapperIn(rule: Rule, ns: seq<Node>)
    decreases ns
  {
    forall i :: 0 <= i < |ns| ==> NoWrapperAt(rule, ns[i])
  }

  predicate NoWrapperAt(rule: Rule, n: Node)
    decreases n
  {
    !IsWrapper(rule, n) && (n.Element? ==> NoWrapperIn(rule, n.children))
  }

  /** A content block as the pass builds it: it opens with a heading the pass
      wraps and holds only elements after it, none of which ends a section. */
  predicate IsBuiltContent(rule: Rule, content: Node, inside: bool) {
    && content.Element? && content.tag == Div && content.className == ContentClass(rule)
    && content.attributes == map[]
    && |content.children| >= 1
    && LeaderOf(rule, content.children[0], inside).Some?
    && (forall j :: 1 <= j < |content.children| ==> content.children[j].Element? && !Stops(rule, content.children[j]))
  }

  /** A hidden h2 of the number class whose text is the decimal digits of `number`. */
  predicate ShowsNumber(heading: Node, number: nat) {
    && HasTag(heading, H2) && heading.className == NumberClass
    && heading.attributes == map["aria-hidden" := "true"]
    && AllDigits(TextContent(heading))
    && DecimalValue(TextContent(heading)) == number
  }

  /** A wrapper as the pass builds it: a built content block and, for a chapter,
      a number heading showing the number extracted from the wrapped heading's text. */
  predicate IsBuilt(rule: Rule, w: Node, inside: bool) {
    && IsWrapper(rule, w)
    && w.attributes == map[]
    && var content := ContentOf(rule, w);
    && IsBuiltContent(rule, content, inside)
    && (rule.ChapterRule? ==> ShowsNumber(w.children[0], LeaderOf(rule, content.children[0], inside).value))
  }

  lemma WrapperIsMarked(rule: Rule)
    ensures HasClass(WrapperClass(rule), MarkerClass(rule))
  {
    assert ClassAt(WrapperClass(rule), MarkerClass(rule), 0);
  }

  lemma {:induction false} NoLeaderTagNoCandidate(rule: Rule, ns: seq<Node>, inside: bool)
    requires !ContainsTag(ns, LeaderTag(rule))
    ensures !AnyCandidate(rule, ns, inside)
  {
    if ns != [] {
      if ns[0].Element? {
        NoLeaderTagNoCandidate(rule, ns[0].children, inside || HasClass(ns[0].className, MarkerClass(rule)));
      }
      NoLeaderTagNoCandidate(rule, ns[1..], inside);
    }
  }

  /** The first sibling and the rest are handled apart. */
  lemma GroupedCons(rule: Rule, ns: seq<Node>, inside: bool)
    requires ns != []
    ensures Grouped(rule, ns, inside) == [GroupedAt(rule, ns[0], inside)] + Grouped(rule, ns[1..], inside)
  {
    assert Grouped(rule, ns, inside)[1..] == Grouped(rule, ns[1..], inside);
  }

  /** Content already inside a grouped block is never touched. */
  lemma {:induction false} InsideUnchanged(rule: Rule, ns: seq<Node>)
    ensures Grouped(rule, ns, true) == ns
    decreases ns
  {
    forall i | 0 <= i < |ns|
      ensures Grouped(rule, ns, true)[i] == ns[i]
    {
      NodeInsideUnchanged(rule, ns[i]);
    }
  }

  lemma {:induction false} NodeInsideUnchanged(rule: Rule, n: Node)
    ensures GroupedAt(rule, n, true) == n
    decreases n
  {
    if n.Element? {
      InsideUnchanged(rule, n.children);
    }
  }

  /** A wrapper's class carries the marker, so the pass leaves it and its contents alone. */
  lemma WrapperClassUnchanged(rule: Rule, n: Node, inside: bool)
    requires n.Element? && n.className == WrapperClass(rule)
    ensures GroupedAt(rule, n, inside) == n
  {
    WrapperIsMarked(rule);
    InsideUnchanged(rule, n.children);
  }

  /** Without a candidate the pass is the identity, so the early return of
      `addChapterNumbers` when no heading is collected changes nothing. */
  lemma {:induction false} NoCandidateUnchanged(rule: Rule, ns: seq<Node>, inside: bool)
    requires !AnyCandidate(rule, ns, inside)
    ensures Grouped(rule, ns, inside) == ns
    decreases ns
  {
    if ns != [] {
      GroupedCons(rule, ns, inside);
      NodeNoCandidateUnchanged(rule, ns[0], inside);
      NoCandidateUnchanged(rule, ns[1..], inside);
      assert [ns[0]] + ns[1..] == ns;
    }
  }

  lemma {:induction false} NodeNoCandidateUnchanged(rule: Rule, n: Node, inside: bool)
    requires !CandidateWithin(rule, n, inside)
    ensures GroupedAt(rule, n, inside) == n
    decreases n
  {
    if n.Element? {
      NoCandidateUnchanged(rule, n.children, inside || HasClass(n.className, MarkerClass(rule)));
    }
  }

  /** An element without headings of the pass's kind below it is left as it is. */
  lemma NoLeaderBelowUnchanged(rule: Rule, n: Node, inside: bool)
    requires n.Element? ==> !ContainsTag(n.children, LeaderTag(rule))
    ensures GroupedNode(rule, n, inside) == n
  {
    if n.Element? {
      NoLeaderTagNoCandidate(rule, n.children, inside || HasClass(n.className, MarkerClass(rule)));
      NoCandidateUnchanged(rule, n.children, inside || HasClass(n.className, MarkerClass(rule)));
    }
  }

  /** A node that is not wrapped keeps the eligibility it had. */
  lemma GroupedNodeKeepsLeader(rule: Rule, n: Node, inside: bool)
    requires TagUnnestedNode(n, LeaderTag(rule))
    ensures LeaderOf(rule, GroupedNode(rule, n, inside), inside) == LeaderOf(rule, n, inside)
  {
    if HasTag(n, LeaderTag(rule)) {
      NoLeaderBelowUnchanged(rule, n, inside);
    }
  }

  /** Running the pass a second time (the scripts re-run on later DOM events)
      changes nothing, provided no heading of the pass's kind sits inside another. */
  lemma {:induction false} GroupedIdempotent(rule: Rule, ns: seq<Node>, inside: bool)
    requires TagUnnested(ns, LeaderTag(rule))
    ensures Grouped(rule, Grouped(rule, ns, inside), inside) == Grouped(rule, ns, inside)
    decreases ns
  {
    var g := Grouped(rule, ns, inside);
    forall i | 0 <= i < |ns|
      ensures Grouped(rule, g, inside)[i] == g[i]
    {
      UnnestedAt(ns, LeaderTag(rule), i);
      GroupedAtIdempotent(rule, ns[i], inside);
    }
  }

  lemma {:induction false} GroupedAtIdempotent(rule: Rule, n: Node, inside: bool)
    requires TagUnnestedNode(n, LeaderTag(rule))
    ensures GroupedAt(rule, GroupedAt(rule, n, inside), inside) == GroupedAt(rule, n, inside)
    decreases n, 1
  {
    match LeaderOf(rule, n, inside)
    case Some(number) =>
      WrapperClassUnchanged(rule, Wrapper(rule, number, n, []), inside);
    case None =>
      GroupedNodeKeepsLeader(rule, n, inside);
      GroupedNodeIdempotent(rule, n, inside);
  }

  lemma {:induction false} GroupedNodeIdempotent(rule: Rule, n: Node, inside: bool)
    requires TagUnnestedNode(n, LeaderTag(rule))
    ensures GroupedNode(rule, GroupedNode(rule, n, inside), inside) == GroupedNode(rule, n, inside)
    decreases n, 0
  {
    if n.Element? {
      GroupedIdempotent(rule, n.children, inside || HasClass(n.className, MarkerClass(rule)));
    }
  }

  /** A node the pass does not wrap stays a wrapper exactly when it was one. */
  lemma GroupedNodeKeepsShape(rule: Rule, n: Node, inside: bool)
    ensures IsWrapper(rule, GroupedNode(rule, n, inside)) == IsWrapper(rule, n)
  {
    if n.Element? && n.children != [] {
      var cs := n.children;
      var below := inside || HasClass(n.className, MarkerClass(rule));
      var g := Grouped(rule, cs, below);
      assert GroupedNode(rule, n, inside).children == g;
      GroupedAtKind(rule, cs[|cs| - 1], below);
      assert g[|g| - 1] == GroupedAt(rule, cs[|cs| - 1], below);
    }
  }

  /** The pass turns an element into an element and leaves a text node as it is. */
  lemma GroupedAtKind(rule: Rule, n: Node, inside: bool)
    ensures GroupedAt(rule, n, inside).Element? == n.Element?
  {
  }

  /** Where the sibling at index `i` is not a wrapper yet, it becomes one exactly
      when the pass takes it, and that wrapper is a built one whose content block
      holds the sibling and nothing else. */
  lemma WrapperHoldsHeading(rule: Rule, ns: seq<Node>, inside: bool, i: nat)
    requires i < |ns| && !IsWrapper(rule, ns[i])
    ensures IsWrapper(rule, Grouped(rule, ns, inside)[i]) <==> LeaderOf(rule, ns[i], inside).Some?
    ensures IsWrapper(rule, Grouped(rule, ns, inside)[i]) ==>
      IsBuilt(rule, Grouped(rule, ns, inside)[i], inside) && ContentOf(rule, Grouped(rule, ns, inside)[i]).children == [ns[i]]
  {
    GroupedAtBuilt(rule, ns[i], inside);
  }

  lemma GroupedAtBuilt(rule: Rule, n: Node, inside: bool)
    requires !IsWrapper(rule, n)
    ensures IsWrapper(rule, GroupedAt(rule, n, inside)) <==> LeaderOf(rule, n, inside).Some?
    ensures IsWrapper(rule, GroupedAt(rule, n, inside)) ==>
      IsBuilt(rule, GroupedAt(rule, n, inside), inside) && ContentOf(rule, GroupedAt(rule, n, inside)).children == [n]
  {
    match LeaderOf(rule, n, inside)
    case Some(number) =>
      WrapperIsBuilt(rule, number, n, [], inside);
      assert ContentOf(rule, Wrapper(rule, number, n, [])).children == [n];
    case None =>
      GroupedNodeKeepsShape(rule, n, inside);
  }

  /** A tree without wrappers is its own unwrapping. */
  lemma {:induction false} NoWrapperUnwrapped(rule: Rule, ns: seq<Node>)
    requires NoWrapperIn(rule, ns)
    ensures Unwrapped(rule, ns) == ns
    decreases ns
  {
    if ns != [] {
      NodeNoWrapperUnwrapped(rule, ns[0]);
      NoWrapperTail(rule, ns);
      NoWrapperUnwrapped(rule, ns[1..]);
      assert [ns[0]] + ns[1..] == ns;
    }
  }

  lemma {:induction false} NodeNoWrapperUnwrapped(rule: Rule, n: Node)
    requires NoWrapperAt(rule, n)
    ensures UnwrappedNode(rule, n) == [n]
    decreases n
  {
    if n.Element? {
      NoWrapperUnwrapped(rule, n.children);
    }
  }

  lemma NoWrapperTail(rule: Rule, ns: seq<Node>)
    requires ns != [] && NoWrapperIn(rule, ns)
    ensures NoWrapperIn(rule, ns[1..])
  {
    assert forall i :: 0 <= i < |ns| - 1 ==> ns[1..][i] == ns[i + 1];
  }

  /** The pass moves nothing: where the tree holds no wrapper yet, replacing each
      wrapper it inserted by the content it holds gives back the original tree. */
  lemma {:induction false} GroupedUnwraps(rule: Rule, ns: seq<Node>, inside: bool)
    requires NoWrapperIn(rule, ns)
    ensures Unwrapped(rule, Grouped(rule, ns, inside)) == ns
    decreases ns
  {
    if ns != [] {
      var g := Grouped(rule, ns, inside);
      GroupedCons(rule, ns, inside);
      GroupedAtUnwraps(rule, ns[0], inside);
      NoWrapperTail(rule, ns);
      GroupedUnwraps(rule, ns[1..], inside);
      assert g[0] == GroupedAt(rule, ns[0], inside) && g[1..] == Grouped(rule, ns[1..], inside);
      assert [ns[0]] + ns[1..] == ns;
    }
  }

  lemma {:induction false} GroupedAtUnwraps(rule: Rule, n: Node, inside: bool)
    requires NoWrapperAt(rule, n)
    ensures UnwrappedNode(rule, GroupedAt(rule, n, inside)) == [n]
    decreases n, 1
  {
    match LeaderOf(rule, n, inside)
    case Some(number) =>
      NodeNoWrapperUnwrapped(rule, n);
      WrapperUnwraps(rule, number, n);
    case None =>
      GroupedNodeUnwraps(rule, n, inside);
  }

  /** A wrapper holding only a heading unwraps to that heading. */
  lemma WrapperUnwraps(rule: Rule, number: nat, n: Node)
    requires UnwrappedNode(rule, n) == [n]
    ensures UnwrappedNode(rule, Wrapper(rule, number, n, [])) == [n]
  {
    var w := Wrapper(rule, number, n, []);
    assert ElementsOf([]) == [];
    assert ContentBlock(rule, n, []).children == [n];
    assert IsWrapper(rule, w);
    assert Unwrapped(rule, [n]) == UnwrappedNode(rule, n) + Unwrapped(rule, []);
  }

  lemma {:induction false} GroupedNodeUnwraps(rule: Rule, n: Node, inside: bool)
    requires NoWrapperAt(rule, n)
    ensures UnwrappedNode(rule, GroupedNode(rule, n, inside)) == [n]
    decreases n, 0
  {
    if n.Element? {
      GroupedNodeKeepsShape(rule, n, inside);
      GroupedUnwraps(rule, n.children, inside || HasClass(n.className, MarkerClass(rule)));
    }
  }

  /** The wrapper built for a heading the pass wraps and a section that does not end is a built wrapper. */
  lemma WrapperIsBuilt(rule: Rule, number: nat, heading: Node, section: seq<Node>, inside: bool)
    requires LeaderOf(rule, heading, inside) == Some(number)
    requires forall j :: 0 <= j < |section| ==> !Stops(rule, section[j])
    ensures IsBuilt(rule, Wrapper(rule, number, heading, section), inside)
  {
    ContentBlockIsBuilt(rule, heading, section, inside);
    match rule
    case ChapterRule =>
      NumberHeadingShows(number);
      ChapterWrapperIsBuilt(number, heading, section, inside);
    case PersonaRule =>
      PersonaWrapperIsBuilt(heading, section, inside);
  }

  lemma ChapterWrapperIsBuilt(number: nat, heading: Node, section: seq<Node>, inside: bool)
    requires LeaderOf(ChapterRule, heading, inside) == Some(number)
    requires IsBuiltContent(ChapterRule, ContentBlock(ChapterRule, heading, section), inside)
    requires ShowsNumber(NumberHeading(number), number)
    ensures IsBuilt(ChapterRule, Wrapper(ChapterRule, number, heading, section), inside)
  {
    var content := ContentBlock(ChapterRule, heading, section);
    assert content.children[0] == heading;
    assert Wrapper(ChapterRule, number, heading, section).children == [NumberHeading(number), content];
  }

  lemma PersonaWrapperIsBuilt(heading: Node, section: seq<Node>, inside: bool)
    requires IsBuiltContent(PersonaRule, ContentBlock(PersonaRule, heading, section), inside)
    ensures IsBuilt(PersonaRule, Wrapper(PersonaRule, 0, heading, section), inside)
  {
    var content := ContentBlock(PersonaRule, heading, section);
    assert Wrapper(PersonaRule, 0, heading, section).children == [content];
  }

  lemma ContentBlockIsBuilt(rule: Rule, heading: Node, section: seq<Node>, inside: bool)
    requires LeaderOf(rule, heading, inside).Some?
    requires forall j :: 0 <= j < |section| ==> !Stops(rule, section[j])
    ensures IsBuiltContent(rule, ContentBlock(rule, heading, section), inside)
  {
    SectionElementsKept(rule, heading, section);
  }

  /** After the heading, the content block holds only elements that do not end the section. */
  lemma SectionElementsKept(rule: Rule, heading: Node, section: seq<Node>)
    requires forall j :: 0 <= j < |section| ==> !Stops(rule, section[j])
    ensures forall j :: 1 <= j < |ContentBlock(rule, heading, section).children| ==>
      ContentBlock(rule, heading, section).children[j].Element? && !Stops(rule, ContentBlock(rule, heading, section).children[j])
  {
    var es := ElementsOf(section);
    ElementsOfSection(rule, section);
    var content := [heading] + es;
    forall j | 1 <= j < |content|
      ensures content[j].Element? && !Stops(rule, content[j])
    {
      assert content[j] == es[j - 1];
    }
  }

  /** The number heading reads back as the number it was built from. */
  lemma NumberHeadingShows(number: nat)
    ensures ShowsNumber(NumberHeading(number), number)
  {
    DecimalRoundTrip(number);
    var digits := DecimalString(number);
    assert TextOfAll([Text(digits)]) == digits + TextOfAll([]);
    assert TextContent(NumberHeading(number)) == digits;
  }

  /** A section holds nothing that ends it, so neither do its elements. */
  lemma {:induction false} ElementsOfSection(rule: Rule, section: seq<Node>)
    requires forall j :: 0 <= j < |section| ==> !Stops(rule, section[j])
    ensures forall j :: 0 <= j < |ElementsOf(section)| ==> !Stops(rule, ElementsOf(section)[j])
  {
    if section != [] {
      ElementsOfSection(rule, section[1..]);
    }
  }
}
