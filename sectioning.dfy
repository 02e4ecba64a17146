/**
 * The sectioning the two wrapping passes were written to do: after the heading,
 * the walk over its following siblings moves each element into the content
 * block until a sibling ends the section (an h2 for chapters, an h2 or h3 for
 * persona cards), and the text nodes between them end up after the wrapper.
 * As the scripts stand the walk never runs (see `Grouping`); this module states
 * what it would do and proves that this version, too, only regroups the nodes
 * and builds well-formed wrappers.
 */
module Sectioning {
  import opened Wrappers
  import opened JsText
  import opened Dom
  import opened Grouping

  /** How many leading siblings do not end a section: the section a heading opens. */
  function SectionLength(rule: Rule, ns: seq<Node>): (k: nat)
    ensures k <= |ns|
    ensures forall j :: 0 <= j < k ==> !Stops(rule, ns[j])
    ensures k == |ns| || Stops(rule, ns[k])
  {
    if ns == [] || Stops(rule, ns[0]) then 0 else 1 + SectionLength(rule, ns[1..])
  }

  /** The siblings `ns` once every heading among them, and below them, is grouped. */
  function Sectioned(rule: Rule, ns: seq<Node>, inside: bool): seq<Node>
    decreases ns, 1
  {
    if ns == [] then []
    else match LeaderOf(rule, ns[0], inside)
      case Some(number) => SectionedFrom(rule, number, ns, inside)
      case None => [SectionedNode(rule, ns[0], inside)] + Sectioned(rule, ns[1..], inside)
  }

  /** The siblings from a heading the pass wraps: its wrapper, the text nodes of its
      section, then the siblings after the section. */
  function SectionedFrom(rule: Rule, number: nat, ns: seq<Node>, inside: bool): seq<Node>
    requires ns != []
    decreases ns, 0
  {
    var k := SectionLength(rule, ns[1..]);
    [Wrapper(rule, number, ns[0], ns[1..1 + k])] + TextNodesOf(ns[1..1 + k]) + Sectioned(rule, ns[1 + k..], inside)
  }

  /** A node that is not moved, with the headings below it grouped. */
  function SectionedNode(rule: Rule, n: Node, inside: bool): Node
    decreases n, 0
  {
    match n
    case Text(_) => n
    case Element(tag, cls, attrs, cs) => Element(tag, cls, attrs, Sectioned(rule, cs, inside || HasClass(cls, MarkerClass(rule))))
  }

  /** The siblings with every wrapper replaced by the nodes its content block holds. */
  function UnwrappedSiblings(rule: Rule, ns: seq<Node>): seq<Node> {
    if ns == [] then []
    else (if IsWrapper(rule, ns[0]) then ContentOf(rule, ns[0]).children else [ns[0]]) + UnwrappedSiblings(rule, ns[1..])
  }

  /** One step of `Sectioned` when the first sibling opens a section. */
  lemma SectionedWrapStep(rule: Rule, ns: seq<Node>, inside: bool, number: nat)
    requires ns != [] && LeaderOf(rule, ns[0], inside) == Some(number)
    ensures 1 + SectionLength(rule, ns[1..]) <= |ns|
    ensures Sectioned(rule, ns, inside) ==
      [Wrapper(rule, number, ns[0], ns[1..1 + SectionLength(rule, ns[1..])])]
      + TextNodesOf(ns[1..1 + SectionLength(rule, ns[1..])]) + Sectioned(rule, ns[1 + SectionLength(rule, ns[1..])..], inside)
  {
    assert LeaderOf(rule, ns[0], inside).value == number;
  }

  /** One step of `Sectioned` when the first sibling stays where it is. */
  lemma SectionedKeepStep(rule: Rule, ns: seq<Node>, inside: bool)
    requires ns != [] && LeaderOf(rule, ns[0], inside) == None
    ensures Sectioned(rule, ns, inside) == [SectionedNode(rule, ns[0], inside)] + Sectioned(rule, ns[1..], inside)
  {
  }

  /** Content already inside a grouped block is never touched. */
  lemma {:induction false} SectionedInside(rule: Rule, ns: seq<Node>)
    ensures Sectioned(rule, ns, true) == ns
  {
    if ns != [] {
      SectionedNodeInside(rule, ns[0]);
      SectionedInside(rule, ns[1..]);
    }
  }

  lemma {:induction false} SectionedNodeInside(rule: Rule, n: Node)
    ensures SectionedNode(rule, n, true) == n
  {
    if n.Element? {
      SectionedInside(rule, n.children);
    }
  }

  /** A wrapper's class carries the marker, so the pass leaves it and its contents alone. */
  lemma SectionedWrapperKept(rule: Rule, n: Node, inside: bool)
    requires n.Element? && n.className == WrapperClass(rule)
    ensures SectionedNode(rule, n, inside) == n
  {
    WrapperIsMarked(rule);
    SectionedInside(rule, n.children);
  }

  /** Without a candidate the pass is the identity, so the early return of
      `addChapterNumbers` when no heading is collected changes nothing. */
  lemma {:induction false} SectionedNoCandidate(rule: Rule, ns: seq<Node>, inside: bool)
    requires !AnyCandidate(rule, ns, inside)
    ensures Sectioned(rule, ns, inside) == ns
  {
    if ns != [] {
      SectionedNodeNoCandidate(rule, ns[0], inside);
      SectionedNoCandidate(rule, ns[1..], inside);
    }
  }

  lemma {:induction false} SectionedNodeNoCandidate(rule: Rule, n: Node, inside: bool)
    requires !CandidateWithin(rule, n, inside)
    ensures SectionedNode(rule, n, inside) == n
  {
    if n.Element? {
      SectionedNoCandidate(rule, n.children, inside || HasClass(n.className, MarkerClass(rule)));
    }
  }

  /** An element without headings of the pass's kind below it is left as it is. */
  lemma SectionedNoLeaderBelow(rule: Rule, n: Node, inside: bool)
    requires n.Element? ==> !ContainsTag(n.children, LeaderTag(rule))
    ensures SectionedNode(rule, n, inside) == n
  {
    if n.Element? {
      NoLeaderTagNoCandidate(rule, n.children, inside || HasClass(n.className, MarkerClass(rule)));
      SectionedNoCandidate(rule, n.children, inside || HasClass(n.className, MarkerClass(rule)));
    }
  }

  /** A node that is not wrapped keeps the eligibility it had. */
  lemma SectionedNodeKeepsLeader(rule: Rule, n: Node, inside: bool)
    requires TagUnnestedNode(n, LeaderTag(rule))
    ensures LeaderOf(rule, SectionedNode(rule, n, inside), inside) == LeaderOf(rule, n, inside)
  {
    if HasTag(n, LeaderTag(rule)) {
      SectionedNoLeaderBelow(rule, n, inside);
    }
  }

  /** Nodes the pass neither wraps nor changes pass through it as a block. */
  lemma {:induction false} FixedPrefix(rule: Rule, a: seq<Node>, b: seq<Node>, inside: bool)
    requires forall i :: 0 <= i < |a| ==> LeaderOf(rule, a[i], inside) == None && SectionedNode(rule, a[i], inside) == a[i]
    ensures Sectioned(rule, a + b, inside) == a + Sectioned(rule, b, inside)
  {
    if a == [] {
      assert a + b == b;
    } else {
      var g := Sectioned(rule, b, inside);
      FixedPrefix(rule, a[1..], b, inside);
      FixedCons(rule, a[0], a[1..] + b, inside);
      assert [a[0]] + a[1..] == a;
      AppendAssoc([a[0]], a[1..], b);
      AppendAssoc([a[0]], a[1..], g);
    }
  }

  lemma FixedCons(rule: Rule, n: Node, rest: seq<Node>, inside: bool)
    requires LeaderOf(rule, n, inside) == None && SectionedNode(rule, n, inside) == n
    ensures Sectioned(rule, [n] + rest, inside) == [n] + Sectioned(rule, rest, inside)
  {
    assert ([n] + rest)[0] == n;
    assert ([n] + rest)[1..] == rest;
  }

  /** Running the pass a second time (the scripts re-run on later DOM events)
      changes nothing, provided no heading of the pass's kind sits inside another. */
  lemma {:induction false} SectionedIdempotent(rule: Rule, ns: seq<Node>, inside: bool)
    requires TagUnnested(ns, LeaderTag(rule))
    ensures Sectioned(rule, Sectioned(rule, ns, inside), inside) == Sectioned(rule, ns, inside)
    decreases ns, 1
  {
    if ns != [] {
      match LeaderOf(rule, ns[0], inside)
      case Some(number) => IdempotentWrapCase(rule, ns, inside, number);
      case None => IdempotentKeepCase(rule, ns, inside);
    }
  }

  lemma {:induction false} IdempotentWrapCase(rule: Rule, ns: seq<Node>, inside: bool, number: nat)
    requires ns != [] && TagUnnested(ns, LeaderTag(rule)) && LeaderOf(rule, ns[0], inside) == Some(number)
    ensures Sectioned(rule, Sectioned(rule, ns, inside), inside) == Sectioned(rule, ns, inside)
    decreases ns, 0
  {
    SectionedWrapStep(rule, ns, inside, number);
    var k := SectionLength(rule, ns[1..]);
    var placed := [Wrapper(rule, number, ns[0], ns[1..1 + k])] + TextNodesOf(ns[1..1 + k]);
    var rest := Sectioned(rule, ns[1 + k..], inside);
    UnnestedSuffix(ns, LeaderTag(rule), 1 + k);
    SectionedIdempotent(rule, ns[1 + k..], inside);
    PlacedSectionFixed(rule, number, ns[0], ns[1..1 + k], inside);
    FixedPrefix(rule, placed, rest, inside);
  }

  /** A wrapper and the text nodes left after it are neither wrapped nor changed by the pass. */
  lemma PlacedSectionFixed(rule: Rule, number: nat, heading: Node, section: seq<Node>, inside: bool)
    ensures var placed := [Wrapper(rule, number, heading, section)] + TextNodesOf(section);
      forall i :: 0 <= i < |placed| ==> LeaderOf(rule, placed[i], inside) == None && SectionedNode(rule, placed[i], inside) == placed[i]
  {
    var w := Wrapper(rule, number, heading, section);
    var texts := TextNodesOf(section);
    SectionedWrapperKept(rule, w, inside);
    forall i | 0 <= i < 1 + |texts|
      ensures LeaderOf(rule, ([w] + texts)[i], inside) == None && SectionedNode(rule, ([w] + texts)[i], inside) == ([w] + texts)[i]
    {
      if i > 0 {
        assert ([w] + texts)[i] == texts[i - 1];
      }
    }
  }

  lemma {:induction false} IdempotentKeepCase(rule: Rule, ns: seq<Node>, inside: bool)
    requires ns != [] && TagUnnested(ns, LeaderTag(rule)) && LeaderOf(rule, ns[0], inside) == None
    ensures Sectioned(rule, Sectioned(rule, ns, inside), inside) == Sectioned(rule, ns, inside)
    decreases ns, 0
  {
    SectionedKeepStep(rule, ns, inside);
    var first := SectionedNode(rule, ns[0], inside);
    var rest := Sectioned(rule, ns[1..], inside);
    SectionedNodeKeepsLeader(rule, ns[0], inside);
    SectionedNodeIdempotent(rule, ns[0], inside);
    SectionedIdempotent(rule, ns[1..], inside);
    var out := [first] + rest;
    assert out[0] == first && out[1..] == rest;
    SectionedKeepStep(rule, out, inside);
  }

  lemma {:induction false} SectionedNodeIdempotent(rule: Rule, n: Node, inside: bool)
    requires TagUnnestedNode(n, LeaderTag(rule))
    ensures SectionedNode(rule, SectionedNode(rule, n, inside), inside) == SectionedNode(rule, n, inside)
    decreases n
  {
    if n.Element? {
      SectionedIdempotent(rule, n.children, inside || HasClass(n.className, MarkerClass(rule)));
    }
  }

  lemma {:induction false} UnnestedSuffix(ns: seq<Node>, tag: Tag, m: nat)
    requires TagUnnested(ns, tag) && m <= |ns|
    ensures TagUnnested(ns[m..], tag)
  {
    if m > 0 {
      assert ns[m..] == ns[1..][m - 1..];
      UnnestedSuffix(ns[1..], tag, m - 1);
    }
  }

  lemma {:induction false} UnwrappedSiblingsConcat(rule: Rule, a: seq<Node>, b: seq<Node>)
    ensures UnwrappedSiblings(rule, a + b) == UnwrappedSiblings(rule, a) + UnwrappedSiblings(rule, b)
  {
    if a == [] {
      assert a + b == b;
    } else {
      assert (a + b)[0] == a[0];
      assert (a + b)[1..] == a[1..] + b;
      UnwrappedSiblingsConcat(rule, a[1..], b);
    }
  }

  lemma {:induction false} UnwrappedSiblingsTexts(rule: Rule, ts: seq<Node>)
    requires forall i :: 0 <= i < |ts| ==> ts[i].Text?
    ensures UnwrappedSiblings(rule, ts) == ts
  {
    if ts != [] {
      UnwrappedSiblingsTexts(rule, ts[1..]);
    }
  }

  /** Moving the elements of a section next to the heading that opens it keeps
      the elements and the text nodes of the whole, each in order. */
  lemma RegroupedSection(h: Node, section: seq<Node>, u: seq<Node>, tail: seq<Node>)
    requires h.Element?
    requires ElementsOf(u) == ElementsOf(tail) && TextNodesOf(u) == TextNodesOf(tail)
    ensures ElementsOf([h] + ElementsOf(section) + TextNodesOf(section) + u) == ElementsOf([h] + section + tail)
    ensures TextNodesOf([h] + ElementsOf(section) + TextNodesOf(section) + u) == TextNodesOf([h] + section + tail)
  {
    var es := ElementsOf(section);
    var ts := TextNodesOf(section);
    ElementsAndTextNodes(section);
    ElementsOfConcat([h] + es + ts, u);
    ElementsOfConcat([h] + es, ts);
    ElementsOfConcat([h], es);
    ElementsOfConcat([h] + section, tail);
    ElementsOfConcat([h], section);
    TextNodesOfConcat([h] + es + ts, u);
    TextNodesOfConcat([h] + es, ts);
    TextNodesOfConcat([h], es);
    TextNodesOfConcat([h] + section, tail);
    TextNodesOfConcat([h], section);
  }

  /** The top-level siblings carry no wrapper and have no heading of the pass's kind below them. */
  predicate FlatSiblings(rule: Rule, ns: seq<Node>) {
    forall i :: 0 <= i < |ns| ==> !IsWrapper(rule, ns[i]) && (ns[i].Element? ==> !ContainsTag(ns[i].children, LeaderTag(rule)))
  }

  /** Where the headings occur only among the top-level siblings, removing the
      wrappers gives back the original elements and the original text nodes,
      each in their original order: the pass only regroups. */
  lemma {:induction false} SectionedOnlyRegroups(rule: Rule, ns: seq<Node>, inside: bool)
    requires FlatSiblings(rule, ns)
    ensures ElementsOf(UnwrappedSiblings(rule, Sectioned(rule, ns, inside))) == ElementsOf(ns)
    ensures TextNodesOf(UnwrappedSiblings(rule, Sectioned(rule, ns, inside))) == TextNodesOf(ns)
    decreases ns, 1
  {
    if ns != [] {
      match LeaderOf(rule, ns[0], inside)
      case Some(number) => RegroupsWrapCase(rule, ns, inside, number);
      case None => RegroupsKeepCase(rule, ns, inside);
    }
  }

  lemma {:induction false} RegroupsWrapCase(rule: Rule, ns: seq<Node>, inside: bool, number: nat)
    requires ns != [] && FlatSiblings(rule, ns) && LeaderOf(rule, ns[0], inside) == Some(number)
    ensures ElementsOf(UnwrappedSiblings(rule, Sectioned(rule, ns, inside))) == ElementsOf(ns)
    ensures TextNodesOf(UnwrappedSiblings(rule, Sectioned(rule, ns, inside))) == TextNodesOf(ns)
    decreases ns, 0
  {
    SectionedWrapStep(rule, ns, inside, number);
    var k := SectionLength(rule, ns[1..]);
    var tail := ns[1 + k..];
    FlatSuffix(rule, ns, 1 + k);
    SectionedOnlyRegroups(rule, tail, inside);
    SplitSection(ns, k);
    RegroupedWrapper(rule, number, ns[0], ns[1..1 + k], tail, Sectioned(rule, tail, inside));
  }

  lemma FlatSuffix(rule: Rule, ns: seq<Node>, m: nat)
    requires FlatSiblings(rule, ns) && m <= |ns|
    ensures FlatSiblings(rule, ns[m..])
  {
    forall i | 0 <= i < |ns| - m
      ensures !IsWrapper(rule, ns[m..][i]) && (ns[m..][i].Element? ==> !ContainsTag(ns[m..][i].children, LeaderTag(rule)))
    {
      assert ns[m..][i] == ns[m + i];
    }
  }

  lemma SplitSection(ns: seq<Node>, k: nat)
    requires 1 + k <= |ns|
    ensures ns == [ns[0]] + ns[1..1 + k] + ns[1 + k..]
  {
  }

  /** A wrapper, the text nodes of its section and a regrouped remainder regroup the whole. */
  lemma RegroupedWrapper(rule: Rule, number: nat, heading: Node, section: seq<Node>, tail: seq<Node>, rest: seq<Node>)
    requires heading.Element?
    requires ElementsOf(UnwrappedSiblings(rule, rest)) == ElementsOf(tail) && TextNodesOf(UnwrappedSiblings(rule, rest)) == TextNodesOf(tail)
    ensures ElementsOf(UnwrappedSiblings(rule, [Wrapper(rule, number, heading, section)] + TextNodesOf(section) + rest))
         == ElementsOf([heading] + section + tail)
    ensures TextNodesOf(UnwrappedSiblings(rule, [Wrapper(rule, number, heading, section)] + TextNodesOf(section) + rest))
         == TextNodesOf([heading] + section + tail)
  {
    UnwrappedSection(rule, number, heading, section, rest);
    RegroupedSection(heading, section, UnwrappedSiblings(rule, rest), tail);
  }

  /** Unwrapping a wrapper and the text nodes left after it puts the section's
      elements back next to its heading. */
  lemma UnwrappedSection(rule: Rule, number: nat, heading: Node, section: seq<Node>, rest: seq<Node>)
    ensures UnwrappedSiblings(rule, [Wrapper(rule, number, heading, section)] + TextNodesOf(section) + rest)
         == [heading] + ElementsOf(section) + TextNodesOf(section) + UnwrappedSiblings(rule, rest)
  {
    var w := Wrapper(rule, number, heading, section);
    var texts := TextNodesOf(section);
    assert [w] + texts + rest == [w] + (texts + rest);
    UnwrappedSiblingsConcat(rule, [w], texts + rest);
    UnwrappedSiblingsConcat(rule, texts, rest);
    UnwrappedSiblingsTexts(rule, texts);
    assert UnwrappedSiblings(rule, [w]) == [heading] + ElementsOf(section);
  }

  lemma {:induction false} RegroupsKeepCase(rule: Rule, ns: seq<Node>, inside: bool)
    requires ns != [] && FlatSiblings(rule, ns) && LeaderOf(rule, ns[0], inside) == None
    ensures ElementsOf(UnwrappedSiblings(rule, Sectioned(rule, ns, inside))) == ElementsOf(ns)
    ensures TextNodesOf(UnwrappedSiblings(rule, Sectioned(rule, ns, inside))) == TextNodesOf(ns)
    decreases ns, 0
  {
    SectionedKeepStep(rule, ns, inside);
    SectionedNoLeaderBelow(rule, ns[0], inside);
    var rest := Sectioned(rule, ns[1..], inside);
    assert FlatSiblings(rule, ns[1..]);
    SectionedOnlyRegroups(rule, ns[1..], inside);
    UnwrappedSiblingsConcat(rule, [ns[0]], rest);
    ElementsOfConcat([ns[0]], UnwrappedSiblings(rule, rest));
    TextNodesOfConcat([ns[0]], UnwrappedSiblings(rule, rest));
    assert ns == [ns[0]] + ns[1..];
    ElementsOfConcat([ns[0]], ns[1..]);
    TextNodesOfConcat([ns[0]], ns[1..]);
  }

  /** No top-level sibling is a wrapper. */
  predicate NoWrappers(rule: Rule, ns: seq<Node>) {
    forall i :: 0 <= i < |ns| ==> !IsWrapper(rule, ns[i])
  }

  /** Every wrapper among the siblings is one the pass built. */
  predicate WrappersBuilt(rule: Rule, ns: seq<Node>, inside: bool) {
    forall i :: 0 <= i < |ns| ==> BuiltIfWrapper(rule, ns[i], inside)
  }

  predicate BuiltIfWrapper(rule: Rule, n: Node, inside: bool) {
    IsWrapper(rule, n) ==> IsBuilt(rule, n, inside)
  }

  /** Every wrapper among the resulting siblings is one the pass built: it opens
      with a heading the pass wraps (for a chapter, under the number its number
      heading shows) and its section stops before the next heading that ends one. */
  lemma {:induction false} WrappersAreBuilt(rule: Rule, ns: seq<Node>, inside: bool)
    requires NoWrappers(rule, ns)
    ensures WrappersBuilt(rule, Sectioned(rule, ns, inside), inside)
    decreases ns, 2
  {
    if ns != [] {
      match LeaderOf(rule, ns[0], inside)
      case Some(number) => BuiltWrapCase(rule, ns, inside, number);
      case None => BuiltKeepCase(rule, ns, inside);
    }
  }

  lemma {:induction false} BuiltWrapCase(rule: Rule, ns: seq<Node>, inside: bool, number: nat)
    requires ns != [] && NoWrappers(rule, ns) && LeaderOf(rule, ns[0], inside) == Some(number)
    ensures WrappersBuilt(rule, Sectioned(rule, ns, inside), inside)
    decreases ns, 1
  {
    SectionedWrapStep(rule, ns, inside, number);
    BuiltWrapPieces(rule, ns, inside, number, SectionLength(rule, ns[1..]));
  }

  /** The pieces one wrapping step leaves are built. */
  lemma {:induction false} BuiltWrapPieces(rule: Rule, ns: seq<Node>, inside: bool, number: nat, k: nat)
    requires 1 + k <= |ns| && NoWrappers(rule, ns) && LeaderOf(rule, ns[0], inside) == Some(number)
    requires forall j :: 1 <= j < 1 + k ==> !Stops(rule, ns[j])
    ensures WrappersBuilt(rule, [Wrapper(rule, number, ns[0], ns[1..1 + k])] + TextNodesOf(ns[1..1 + k]) + Sectioned(rule, ns[1 + k..], inside), inside)
    decreases ns, 0
  {
    var section := ns[1..1 + k];
    assert forall j :: 0 <= j < |section| ==> !Stops(rule, section[j]) by {
      assert forall j :: 0 <= j < |section| ==> section[j] == ns[1 + j];
    }
    NoWrappersSuffix(rule, ns, 1 + k);
    WrappersAreBuilt(rule, ns[1 + k..], inside);
    WrapperIsBuilt(rule, number, ns[0], section, inside);
    BuiltPieces(rule, Wrapper(rule, number, ns[0], section), TextNodesOf(section), Sectioned(rule, ns[1 + k..], inside), inside);
  }

  lemma NoWrappersSuffix(rule: Rule, ns: seq<Node>, m: nat)
    requires m <= |ns| && NoWrappers(rule, ns)
    ensures NoWrappers(rule, ns[m..])
  {
    assert forall i :: 0 <= i < |ns| - m ==> ns[m..][i] == ns[m + i];
  }

  lemma BuiltPieces(rule: Rule, w: Node, texts: seq<Node>, rest: seq<Node>, inside: bool)
    requires BuiltIfWrapper(rule, w, inside)
    requires forall i :: 0 <= i < |texts| ==> texts[i].Text?
    requires WrappersBuilt(rule, rest, inside)
    ensures WrappersBuilt(rule, [w] + texts + rest, inside)
  {
    var built := n => BuiltIfWrapper(rule, n, inside);
    AllOfConcat(built, [w], texts, rest);
    assert forall i :: 0 <= i < |[w] + texts + rest| ==> built(([w] + texts + rest)[i]);
  }

  lemma {:induction false} BuiltKeepCase(rule: Rule, ns: seq<Node>, inside: bool)
    requires ns != [] && NoWrappers(rule, ns) && LeaderOf(rule, ns[0], inside) == None
    ensures WrappersBuilt(rule, Sectioned(rule, ns, inside), inside)
    decreases ns, 0
  {
    SectionedKeepStep(rule, ns, inside);
    var first := SectionedNode(rule, ns[0], inside);
    if first.Element? && first.className == WrapperClass(rule) {
      SectionedWrapperKept(rule, ns[0], inside);
    }
    assert !IsWrapper(rule, first);
    assert NoWrappers(rule, ns[1..]);
    WrappersAreBuilt(rule, ns[1..], inside);
    var rest := Sectioned(rule, ns[1..], inside);
    var out := [first] + rest;
    forall i | 0 <= i < |out|
      ensures BuiltIfWrapper(rule, out[i], inside)
    {
      if i >= 1 {
        assert out[i] == rest[i - 1];
      }
    }
  }

  /** The two versions part on a heading the pass takes followed by a paragraph:
      as the scripts run, the paragraph stays beside the wrapper; as sectioned, it
      is moved into the wrapper's content block. */
  lemma HeadingThenParagraph(rule: Rule, h: Node, p: Node, inside: bool, number: nat)
    requires LeaderOf(rule, h, inside) == Some(number)
    requires HasTag(p, P) && !ContainsTag(p.children, LeaderTag(rule))
    ensures Grouped(rule, [h, p], inside) == [Wrapper(rule, number, h, []), p]
    ensures Sectioned(rule, [h, p], inside) == [Wrapper(rule, number, h, [p])]
  {
    ParagraphStays(rule, h, p, inside, number);
    ParagraphMoves(rule, h, p, inside, number);
  }

  lemma ParagraphStays(rule: Rule, h: Node, p: Node, inside: bool, number: nat)
    requires LeaderOf(rule, h, inside) == Some(number)
    requires HasTag(p, P) && !ContainsTag(p.children, LeaderTag(rule))
    ensures Grouped(rule, [h, p], inside) == [Wrapper(rule, number, h, []), p]
  {
    NoLeaderBelowUnchanged(rule, p, inside);
    assert LeaderOf(rule, p, inside) == None;
    GroupedPair(rule, h, p, inside);
  }

  /** Two siblings are handled one by one. */
  lemma GroupedPair(rule: Rule, a: Node, b: Node, inside: bool)
    ensures Grouped(rule, [a, b], inside) == [GroupedAt(rule, a, inside), GroupedAt(rule, b, inside)]
  {
  }

  lemma ParagraphMoves(rule: Rule, h: Node, p: Node, inside: bool, number: nat)
    requires LeaderOf(rule, h, inside) == Some(number)
    requires HasTag(p, P)
    ensures Sectioned(rule, [h, p], inside) == [Wrapper(rule, number, h, [p])]
  {
    var ns := [h, p];
    ParagraphSection(rule, p);
    assert ns[1..] == [p];
    SectionedWrapStep(rule, ns, inside, number);
    assert ns[1..2] == [p] && ns[2..] == [];
  }

  /** A paragraph alone is a whole section, with no text node to leave behind. */
  lemma ParagraphSection(rule: Rule, p: Node)
    requires HasTag(p, P)
    ensures SectionLength(rule, [p]) == 1 && TextNodesOf([p]) == []
  {
    assert !Stops(rule, p) && [p][1..] == [];
  }
}
