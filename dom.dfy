/**
 * The part of the browser's document the story scripts touch: elements with a
 * tag, a `className` string, attributes and children, and text nodes. Trees
 * are values; a script that moves nodes is modelled by the new child sequences
 * it leaves behind.
 */
module Dom {
  import opened JsText

  datatype Tag = H1 | H2 | H3 | H4 | H5 | H6 | P | Ul | Ol | Div | Strong | Span | A | Other(name: string)

  datatype Node =
    | Element(tag: Tag, className: string, attributes: map<string, string>, children: seq<Node>)
    | Text(data: string)

  /** `textContent`: the text of every descendant text node, in document order. */
  function TextContent(n: Node): string {
    match n
    case Text(d) => d
    case Element(_, _, _, cs) => TextOfAll(cs)
  }

  function TextOfAll(ns: seq<Node>): string {
    if ns == [] then [] else TextContent(ns[0]) + TextOfAll(ns[1..])
  }

  predicate HasTag(n: Node, tag: Tag) {
    n.Element? && n.tag == tag
  }

  /** The element children of a sibling sequence, in order (what `appendChild`
      moves when the scripts skip text nodes). */
  function ElementsOf(ns: seq<Node>): (r: seq<Node>)
    ensures |r| <= |ns|
    ensures forall k :: 0 <= k < |r| ==> r[k].Element?
  {
    if ns == [] then [] else (if ns[0].Element? then [ns[0]] else []) + ElementsOf(ns[1..])
  }

  /** The text nodes of a sibling sequence, in order. */
  function TextNodesOf(ns: seq<Node>): (r: seq<Node>)
    ensures |r| <= |ns|
    ensures forall k :: 0 <= k < |r| ==> r[k].Text?
  {
    if ns == [] then [] else (if ns[0].Text? then [ns[0]] else []) + TextNodesOf(ns[1..])
  }

  lemma {:induction false} ElementsOfConcat(a: seq<Node>, b: seq<Node>)
    ensures ElementsOf(a + b) == ElementsOf(a) + ElementsOf(b)
  {
    if a != [] {
      assert (a + b)[0] == a[0];
      assert (a + b)[1..] == a[1..] + b;
      ElementsOfConcat(a[1..], b);
    } else {
      assert a + b == b;
    }
  }

  lemma {:induction false} TextNodesOfConcat(a: seq<Node>, b: seq<Node>)
    ensures TextNodesOf(a + b) == TextNodesOf(a) + TextNodesOf(b)
  {
    if a != [] {
      assert (a + b)[0] == a[0];
      assert (a + b)[1..] == a[1..] + b;
      TextNodesOfConcat(a[1..], b);
    } else {
      assert a + b == b;
    }
  }

  /** One more sibling goes to the elements or to the text nodes. */
  lemma SplitSnoc(ns: seq<Node>, n: Node)
    ensures n.Element? ==> ElementsOf(ns + [n]) == ElementsOf(ns) + [n] && TextNodesOf(ns + [n]) == TextNodesOf(ns)
    ensures n.Text? ==> ElementsOf(ns + [n]) == ElementsOf(ns) && TextNodesOf(ns + [n]) == TextNodesOf(ns) + [n]
  {
    ElementsOfConcat(ns, [n]);
    TextNodesOfConcat(ns, [n]);
    assert [n][1..] == [];
    assert ElementsOf(ns) + [] == ElementsOf(ns);
    assert TextNodesOf(ns) + [] == TextNodesOf(ns);
  }

  /** The same for a slice grown by the sibling after it. */
  lemma SplitSliceSnoc(ns: seq<Node>, a: nat, j: nat)
    requires a <= j < |ns|
    ensures ns[j].Element? ==> ElementsOf(ns[a..j + 1]) == ElementsOf(ns[a..j]) + [ns[j]] && TextNodesOf(ns[a..j + 1]) == TextNodesOf(ns[a..j])
    ensures ns[j].Text? ==> ElementsOf(ns[a..j + 1]) == ElementsOf(ns[a..j]) && TextNodesOf(ns[a..j + 1]) == TextNodesOf(ns[a..j]) + [ns[j]]
  {
    assert ns[a..j + 1] == ns[a..j] + [ns[j]];
    SplitSnoc(ns[a..j], ns[j]);
  }

  /** A property of every node of three pieces holds of every node of their concatenation. */
  lemma AllOfConcat(p: Node -> bool, a: seq<Node>, b: seq<Node>, c: seq<Node>)
    requires forall i :: 0 <= i < |a| ==> p(a[i])
    requires forall i :: 0 <= i < |b| ==> p(b[i])
    requires forall i :: 0 <= i < |c| ==> p(c[i])
    ensures forall i :: 0 <= i < |a + b + c| ==> p((a + b + c)[i])
  {
    var out := a + b + c;
    forall i | 0 <= i < |out|
      ensures p(out[i])
    {
      if i < |a| {
        assert out[i] == a[i];
      } else if i < |a| + |b| {
        assert out[i] == b[i - |a|];
      } else {
        assert out[i] == c[i - |a| - |b|];
      }
    }
  }

  lemma AppendAssoc<T>(a: seq<T>, b: seq<T>, c: seq<T>)
    ensures a + (b + c) == (a + b) + c
  {
  }

  /** Splitting a sibling sequence into its elements and its text nodes loses nothing. */
  lemma {:induction false} ElementsAndTextNodes(ns: seq<Node>)
    ensures ElementsOf(ElementsOf(ns)) == ElementsOf(ns)
    ensures TextNodesOf(ElementsOf(ns)) == []
    ensures ElementsOf(TextNodesOf(ns)) == []
    ensures TextNodesOf(TextNodesOf(ns)) == TextNodesOf(ns)
    ensures |ElementsOf(ns)| + |TextNodesOf(ns)| == |ns|
  {
    if ns != [] {
      ElementsAndTextNodes(ns[1..]);
      var head := if ns[0].Element? then [ns[0]] else [];
      ElementsOfConcat(head, ElementsOf(ns[1..]));
      TextNodesOfConcat(head, ElementsOf(ns[1..]));
      var thead := if ns[0].Text? then [ns[0]] else [];
      ElementsOfConcat(thead, TextNodesOf(ns[1..]));
      TextNodesOfConcat(thead, TextNodesOf(ns[1..]));
    }
  }

  /** Some element with the tag is among or below `ns`. */
  predicate ContainsTag(ns: seq<Node>, tag: Tag) {
    ns != [] && (HasTag(ns[0], tag) || (ns[0].Element? && ContainsTag(ns[0].children, tag)) || ContainsTag(ns[1..], tag))
  }

  /** No element with the tag has another one inside it, at any depth. */
  predicate TagUnnested(ns: seq<Node>, tag: Tag) {
    ns != [] ==> TagUnnestedNode(ns[0], tag) && TagUnnested(ns[1..], tag)
  }

  predicate TagUnnestedNode(n: Node, tag: Tag) {
    n.Element? ==> (HasTag(n, tag) ==> !ContainsTag(n.children, tag)) && TagUnnested(n.children, tag)
  }

  /** Neither a sibling nor anything below one has the tag. */
  lemma {:induction false} NoTagAt(ns: seq<Node>, tag: Tag, i: nat)
    requires !ContainsTag(ns, tag) && i < |ns|
    ensures !HasTag(ns[i], tag)
    ensures ns[i].Element? ==> !ContainsTag(ns[i].children, tag)
  {
    if i > 0 {
      NoTagAt(ns[1..], tag, i - 1);
    }
  }

  lemma {:induction false} UnnestedAt(ns: seq<Node>, tag: Tag, i: nat)
    requires TagUnnested(ns, tag) && i < |ns|
    ensures TagUnnestedNode(ns[i], tag)
  {
    if i > 0 {
      UnnestedAt(ns[1..], tag, i - 1);
    }
  }

  /** A class name the scripts test or add: non-empty, without whitespace. */
  predicate IsClassName(name: string) {
    name != [] && forall k :: 0 <= k < |name| ==> !IsJsSpace(name[k])
  }

  /** `name` is the whitespace-delimited token of `cls` that starts at index `i`. */
  predicate ClassAt(cls: string, name: string, i: nat) {
    && i + |name| <= |cls|
    && cls[i..i + |name|] == name
    && (i == 0 || IsAsciiWhitespace(cls[i - 1]))
    && (i + |name| == |cls| || IsAsciiWhitespace(cls[i + |name|]))
  }

  /** `classList.contains(name)` (and a `.name` selector) for a class name. */
  predicate HasClass(cls: string, name: string) {
    exists i | 0 <= i <= |cls| :: ClassAt(cls, name, i)
  }

  /** `element.className = (element.className + ' ' + name).trim()`. */
  function AppendClass(cls: string, name: string): string {
    Trim(cls + " " + name)
  }

  /** Appending a class drops only leading whitespace of the old value; the
      new name ends the result. */
  lemma AppendClassShape(cls: string, name: string) returns (k: nat)
    requires IsClassName(name)
    ensures k <= |cls| + 1
    ensures AppendClass(cls, name) == (cls + " " + name)[k..]
    ensures k == RunLength(cls + " " + name, 0, IsJsSpace)
  {
    var s := cls + " " + name;
    k := RunLength(s, 0, IsJsSpace);
    assert !IsJsSpace(s[|cls| + 1]);
    var t := s[k..];
    assert t != [] && t[|t| - 1] == name[|name| - 1];
    assert TrailingRun(t, IsJsSpace) == 0;
  }

  /** After `AppendClass`, the element has the class, and its `className` contains it. */
  lemma AppendClassAdds(cls: string, name: string)
    requires IsClassName(name)
    ensures HasClass(AppendClass(cls, name), name)
    ensures Contains(AppendClass(cls, name), name)
  {
    var k := AppendClassShape(cls, name);
    AddedInSuffix(cls, name, k);
  }

  lemma AddedInSuffix(cls: string, name: string, k: nat)
    requires k <= |cls| + 1
    ensures HasClass((cls + " " + name)[k..], name)
    ensures Contains((cls + " " + name)[k..], name)
  {
    var s := cls + " " + name;
    var t := s[k..];
    var i := |t| - |name|;
    assert t[i..i + |name|] == s[|cls| + 1..];
    assert i == 0 || t[i - 1] == ' ';
    assert ClassAt(t, name, i);
    assert OccursAt(t, name, i);
  }

  /** `AppendClass` keeps every class the element had. */
  lemma AppendClassKeeps(cls: string, name: string, other: string)
    requires IsClassName(name) && IsClassName(other)
    requires HasClass(cls, other)
    ensures HasClass(AppendClass(cls, name), other)
  {
    var k := AppendClassShape(cls, name);
    KeptInSuffix(cls, name, other, k);
  }

  lemma KeptInSuffix(cls: string, name: string, other: string, k: nat)
    requires IsClassName(other) && HasClass(cls, other)
    requires k == RunLength(cls + " " + name, 0, IsJsSpace)
    ensures HasClass((cls + " " + name)[k..], other)
  {
    var s := cls + " " + name;
    var i :| 0 <= i <= |cls| && ClassAt(cls, other, i);
    ClassAtExtend(cls, " " + name, other, i);
    assert s == cls + (" " + name);
    assert s[i] == other[0] && !IsJsSpace(other[0]);
    RunBound(s, i, IsJsSpace);
    ClassAtSuffix(s, other, i, k);
  }

  /** A run of a class starting at 0 ends at or before any character outside the class. */
  lemma RunBound(s: string, i: nat, inClass: char -> bool)
    requires i < |s| && !inClass(s[i])
    ensures RunLength(s, 0, inClass) <= i
  {
  }

  /** A token stays a token when the string goes on after a whitespace. */
  lemma ClassAtExtend(cls: string, tail: string, name: string, i: nat)
    requires ClassAt(cls, name, i) && tail != [] && IsAsciiWhitespace(tail[0])
    ensures ClassAt(cls + tail, name, i)
  {
    var s := cls + tail;
    assert s[i..i + |name|] == cls[i..i + |name|];
    assert i > 0 ==> s[i - 1] == cls[i - 1];
    assert i + |name| < |cls| ==> s[i + |name|] == cls[i + |name|];
  }

  /** A token stays a token when a prefix before it is dropped. */
  lemma ClassAtSuffix(s: string, name: string, i: nat, k: nat)
    requires ClassAt(s, name, i) && k <= i
    ensures ClassAt(s[k..], name, i - k)
  {
    var t := s[k..];
    assert t[i - k..i - k + |name|] == s[i..i + |name|];
    assert i - k > 0 ==> t[i - k - 1] == s[i - 1];
  }

  /** The same two facts for a class value a script writes as a literal. */
  lemma LiteralHasClass(cls: string, name: string, i: nat)
    requires ClassAt(cls, name, i)
    ensures HasClass(cls, name)
  {
  }
}
