/**
 * Two passes of the accessibility script over the elements a selector returns:
 * links inside `nav` get an `aria-label` naming their text, and headings
 * without an id get one derived from their text. Each pass changes the
 * attributes of the selected elements in place, one element at a time.
 */
module Accessibility {
  import opened JsText
  import opened Dom
  import opened HeadingSlug

  const AriaLabel := "aria-label"
  const Id := "id"
  const NavPrefix := "Navigate to "

  /** `getAttribute` (or the `id` property) as a truth value: a missing attribute
      and an empty one both read as empty. */
  function AttributeOf(n: Node, name: string): string {
    if n.Element? && name in n.attributes then n.attributes[name] else ""
  }

  /** The element is the same apart from the value of attribute `name`. */
  predicate SameBesides(n: Node, r: Node, name: string) {
    && r.Element? == n.Element?
    && (n.Element? ==> r.tag == n.tag && r.className == n.className && r.children == n.children)
    && (n.Element? ==> r.attributes - {name} == n.attributes - {name})
    && (n.Text? ==> r == n)
  }

  /** `forEach` over the elements a selector returned, each updated in place on
      its own. */
  method ForEach(elements: array<Node>, update: Node -> Node)
    modifies elements
    ensures forall i :: 0 <= i < elements.Length ==> elements[i] == update(old(elements[i]))
  {
    for i := 0 to elements.Length
      invariant forall k :: 0 <= k < i ==> elements[k] == update(old(elements[k]))
      invariant forall k :: i <= k < elements.Length ==> elements[k] == old(elements[k])
    {
      elements[i] := update(elements[i]);
    }
  }

  /** A navigation link after the pass: labelled with its trimmed text when it had
      no label and has visible text. */
  function NavLabelled(link: Node): Node {
    var text := Trim(TextContent(link));
    if link.Element? && AttributeOf(link, AriaLabel) == "" && text != [] then
      link.(attributes := link.attributes[AriaLabel := NavPrefix + text])
    else
      link
  }

  /** An existing label is never replaced; a link with visible text always ends up
      labelled; a label the pass adds names the link's trimmed text; nothing but the
      label changes. */
  lemma NavLabelRule(link: Node)
    ensures AttributeOf(link, AriaLabel) != "" ==> NavLabelled(link) == link
    ensures link.Element? && Trim(TextContent(link)) != [] ==> AttributeOf(NavLabelled(link), AriaLabel) != ""
    ensures AttributeOf(link, AriaLabel) == "" && AttributeOf(NavLabelled(link), AriaLabel) != "" ==>
      AttributeOf(NavLabelled(link), AriaLabel) == NavPrefix + Trim(TextContent(link))
    ensures Trim(TextContent(link)) == [] ==> NavLabelled(link) == link
    ensures SameBesides(link, NavLabelled(link), AriaLabel)
  {
  }

  /** Running the pass again changes nothing. */
  lemma NavLabelIdempotent(link: Node)
    ensures NavLabelled(NavLabelled(link)) == NavLabelled(link)
  {
    NavLabelRule(link);
    NavLabelRule(NavLabelled(link));
  }

  /** The `forEach` over `nav a`. */
  method AddNavLabels(links: array<Node>)
    modifies links
    ensures forall i :: 0 <= i < links.Length ==> links[i] == NavLabelled(old(links[i]))
  {
    ForEach(links, NavLabelled);
  }

  /** A heading after the pass: given the slug of its text as id when it had none
      and the slug is not empty. */
  function WithHeadingId(heading: Node): Node {
    var id := Slug(TextContent(heading));
    if heading.Element? && AttributeOf(heading, Id) == "" && id != [] then
      heading.(attributes := heading.attributes[Id := id])
    else
      heading
  }

  /** An existing id is never replaced; a heading without one gets the slug of its
      text, which is letters, digits and single inner dashes; it stays without one
      exactly when its text holds no ASCII letter or digit; nothing but the id
      changes. */
  lemma HeadingIdRule(heading: Node)
    ensures AttributeOf(heading, Id) != "" ==> WithHeadingId(heading) == heading
    ensures heading.Element? && AttributeOf(heading, Id) == "" ==>
      (AttributeOf(WithHeadingId(heading), Id) != "" <==> HasAsciiAlnum(TextContent(heading)))
    ensures AttributeOf(heading, Id) == "" && AttributeOf(WithHeadingId(heading), Id) != "" ==>
      AttributeOf(WithHeadingId(heading), Id) == Slug(TextContent(heading))
    ensures IsSlug(AttributeOf(WithHeadingId(heading), Id)) || AttributeOf(WithHeadingId(heading), Id) == AttributeOf(heading, Id)
    ensures SameBesides(heading, WithHeadingId(heading), Id)
  {
    var text := TextContent(heading);
    SlugEmptyIff(text);
    SlugIsSlug(text);
    if heading.Element? && AttributeOf(heading, Id) == "" {
      HeadingIdIsSlug(heading);
    }
  }

  lemma HeadingIdIsSlug(heading: Node)
    requires heading.Element? && AttributeOf(heading, Id) == ""
    ensures AttributeOf(WithHeadingId(heading), Id) == Slug(TextContent(heading))
  {
  }

  /** Running the pass again changes nothing. */
  lemma HeadingIdIdempotent(heading: Node)
    ensures WithHeadingId(WithHeadingId(heading)) == WithHeadingId(heading)
  {
  }

  /** The `forEach` over `h1, h2, h3, h4, h5, h6`. */
  method AssignHeadingIds(headings: array<Node>)
    modifies headings
    ensures forall i :: 0 <= i < headings.Length ==> headings[i] == WithHeadingId(old(headings[i]))
  {
    ForEach(headings, WithHeadingId);
  }
}
