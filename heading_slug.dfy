/**
 * The id the accessibility script derives from a heading's text: trimmed,
 * lower-cased, every run of characters other than `a`-`z` and `0`-`9` replaced
 * by one dash, and the dashes at either end removed.
 */
module HeadingSlug {
  import opened JsText

  predicate IsSlugChar(c: char) {
    'a' <= c <= 'z' || '0' <= c <= '9'
  }

  predicate NotSlugChar(c: char) {
    !IsSlugChar(c)
  }

  predicate IsDash(c: char) {
    c == '-'
  }

  /** The shape of every id the script assigns: letters, digits and single dashes
      between them. */
  predicate IsSlug(s: string) {
    && (forall k :: 0 <= k < |s| ==> IsSlugChar(s[k]) || s[k] == '-')
    && (s != [] ==> s[0] != '-' && s[|s| - 1] != '-')
    && (forall k :: 0 <= k < |s| - 1 ==> s[k] == '-' ==> s[k + 1] != '-')
  }

  predicate HasSlugChar(s: string) {
    exists k :: 0 <= k < |s| && IsSlugChar(s[k])
  }

  /** Some character of the text lower-cases to an ASCII letter or digit. */
  predicate HasAsciiAlnum(text: string) {
    exists k :: 0 <= k < |text| && IsSlugChar(LowerChar(text[k]))
  }

  /** `replace(/[^a-z0-9]+/g, '-')`: each maximal run of other characters becomes one dash. */
  function Collapse(s: string): (r: string)
    ensures s == [] <==> r == []
    ensures r != [] ==> (r[0] == '-' <==> !IsSlugChar(s[0]))
    ensures forall k :: 0 <= k < |r| ==> IsSlugChar(r[k]) || r[k] == '-'
    ensures forall k :: 0 <= k < |r| - 1 ==> r[k] == '-' ==> r[k + 1] != '-'
    decreases |s|
  {
    if s == [] then []
    else if IsSlugChar(s[0]) then [s[0]] + Collapse(s[1..])
    else "-" + Collapse(s[RunLength(s, 0, NotSlugChar)..])
  }

  /** `replace(/^-+|-+$/g, '')`: the dash runs at both ends go. */
  function StripDashes(s: string): (r: string)
    ensures r != [] ==> r[0] != '-' && r[|r| - 1] != '-'
  {
    var t := s[RunLength(s, 0, IsDash)..];
    t[..|t| - TrailingRun(t, IsDash)]
  }

  /** The heading id computed from a heading's `textContent`. */
  function Slug(text: string): string {
    StripDashes(Collapse(ToLower(Trim(text))))
  }

  /** Stripping keeps one slice of the string and drops only dashes around it. */
  lemma StripSlice(s: string) returns (a: nat, b: nat)
    ensures a <= b <= |s| && StripDashes(s) == s[a..b]
    ensures forall k :: 0 <= k < a || b <= k < |s| ==> s[k] == '-'
  {
    a := RunLength(s, 0, IsDash);
    var t := s[a..];
    b := a + |t| - TrailingRun(t, IsDash);
    forall k | b <= k < |s|
      ensures s[k] == '-'
    {
      assert s[k] == t[k - a];
    }
  }

  /** Every computed id is letters, digits and single inner dashes. */
  lemma SlugIsSlug(text: string)
    ensures IsSlug(Slug(text))
  {
    var c := Collapse(ToLower(Trim(text)));
    var a, b := StripSlice(c);
    var r := Slug(text);
    assert forall k :: 0 <= k < |r| ==> r[k] == c[a + k];
  }

  /** A collapsed string keeps a letter or digit exactly when its input had one. */
  lemma {:induction false} CollapseKeepsSlugChars(s: string)
    ensures HasSlugChar(Collapse(s)) <==> HasSlugChar(s)
    decreases |s|
  {
    if s == [] {
    } else if IsSlugChar(s[0]) {
      assert Collapse(s)[0] == s[0];
    } else {
      var m := RunLength(s, 0, NotSlugChar);
      var rest := s[m..];
      CollapseKeepsSlugChars(rest);
      var r := Collapse(s);
      assert r == "-" + Collapse(rest);
      if HasSlugChar(rest) {
        var k :| 0 <= k < |rest| && IsSlugChar(rest[k]);
        assert IsSlugChar(s[m + k]);
      }
      if HasSlugChar(s) {
        var k :| 0 <= k < |s| && IsSlugChar(s[k]);
        assert k >= m;
        assert IsSlugChar(rest[k - m]);
      }
      if HasSlugChar(r) {
        var k :| 0 <= k < |r| && IsSlugChar(r[k]);
        assert IsSlugChar(Collapse(rest)[k - 1]);
      }
      if HasSlugChar(Collapse(rest)) {
        var k :| 0 <= k < |Collapse(rest)| && IsSlugChar(Collapse(rest)[k]);
        assert IsSlugChar(r[k + 1]);
      }
    }
  }

  /** Whitespace does not lower-case to a letter or digit. */
  lemma SpaceNotSlugChar(c: char)
    requires IsJsSpace(c)
    ensures !IsSlugChar(LowerChar(c))
  {
  }

  /** Lower-casing the trimmed text finds a letter or digit exactly when some
      character of the text lower-cases to one. */
  lemma LoweredTrimSlugChars(text: string)
    ensures HasSlugChar(ToLower(Trim(text))) <==> HasAsciiAlnum(text)
  {
    if HasSlugChar(ToLower(Trim(text))) {
      TrimmedSlugCharIsText(text);
    }
    if HasAsciiAlnum(text) {
      TextSlugCharIsTrimmed(text);
    }
  }

  lemma TrimmedSlugCharIsText(text: string)
    requires HasSlugChar(ToLower(Trim(text)))
    ensures HasAsciiAlnum(text)
  {
    var a, b := TrimSlice(text);
    var x := ToLower(Trim(text));
    var k :| 0 <= k < |x| && IsSlugChar(x[k]);
    assert x[k] == LowerChar(text[a + k]);
  }

  lemma TextSlugCharIsTrimmed(text: string)
    requires HasAsciiAlnum(text)
    ensures HasSlugChar(ToLower(Trim(text)))
  {
    var a, b := TrimSlice(text);
    var k :| 0 <= k < |text| && IsSlugChar(LowerChar(text[k]));
    if k < a || b <= k {
      SpaceNotSlugChar(text[k]);
      assert false;
    }
    var x := ToLower(Trim(text));
    assert x[k - a] == LowerChar(text[k]);
  }

  /** The id is empty, and no id is assigned, exactly when no character of the
      heading text is an ASCII letter or digit. */
  lemma SlugEmptyIff(text: string)
    ensures Slug(text) == [] <==> !HasAsciiAlnum(text)
  {
    var x := ToLower(Trim(text));
    var c := Collapse(x);
    LoweredTrimSlugChars(text);
    CollapseKeepsSlugChars(x);
    var a, b := StripSlice(c);
    var r := Slug(text);
    if r == [] {
      forall k | 0 <= k < |c|
        ensures !IsSlugChar(c[k])
      {
        assert c[k] == '-';
      }
    } else {
      assert r[0] == c[a] && IsSlugChar(c[a]);
    }
  }

  /** Letters, digits and single dashes collapse to themselves. */
  lemma {:induction false} CollapseFixed(s: string)
    requires forall k :: 0 <= k < |s| ==> IsSlugChar(s[k]) || s[k] == '-'
    requires forall k :: 0 <= k < |s| - 1 ==> s[k] == '-' ==> s[k + 1] != '-'
    ensures Collapse(s) == s
    decreases |s|
  {
    if s != [] {
      if IsSlugChar(s[0]) {
        CollapseFixed(s[1..]);
      } else {
        RunLengthExact(s, 0, 1, NotSlugChar);
        CollapseFixed(s[1..]);
        assert "-" + s[1..] == s;
      }
    }
  }

  lemma SlugCharNotSpace(c: char)
    requires IsSlugChar(c)
    ensures !IsJsSpace(c) && LowerChar(c) == c
  {
  }

  /** Trimming and lower-casing leave a slug as it is. */
  lemma TrimLowerFixed(s: string)
    requires IsSlug(s)
    ensures ToLower(Trim(s)) == s
  {
    if s != [] {
      SlugCharNotSpace(s[0]);
      SlugCharNotSpace(s[|s| - 1]);
    }
    assert Trim(s) == s;
    forall k | 0 <= k < |s|
      ensures LowerChar(s[k]) == s[k]
    {
      if s[k] != '-' {
        SlugCharNotSpace(s[k]);
      }
    }
  }

  /** Stripping leaves a string without dashes at its ends as it is. */
  lemma StripFixed(s: string)
    requires s != [] ==> s[0] != '-' && s[|s| - 1] != '-'
    ensures StripDashes(s) == s
  {
    assert RunLength(s, 0, IsDash) == 0;
    assert s[0..] == s;
  }

  /** Lower-casing, trimming, collapsing and stripping leave a slug as it is. */
  lemma SlugFixed(s: string)
    requires IsSlug(s)
    ensures Slug(s) == s
  {
    TrimLowerFixed(s);
    CollapseFixed(s);
    StripFixed(s);
  }

  /** Deriving the id again from an assigned id gives the same id. */
  lemma SlugIdempotent(text: string)
    ensures Slug(Slug(text)) == Slug(text)
  {
    SlugIsSlug(text);
    SlugFixed(Slug(text));
  }
}
