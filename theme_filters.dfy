/**
 * The theme's WordPress filters that compute something: the related-stories
 * query, the deferred script tags, the font preconnect hints and the image
 * loading attributes. What WordPress would look up (whether the page is a
 * single story, the current post id, the post's theme terms) comes in as
 * parameters.
 */
module ThemeFilters {
  import opened Wrappers
  import opened JsText
  import opened PhpArray

  const PostTypeKey := StrKey("post_type")
  const TaxQueryKey := StrKey("tax_query")
  const NotInKey := StrKey("post__not_in")

  /** What `wp_get_post_terms($id, 'theme', array('fields' => 'ids'))` returns. */
  datatype TermLookup = TermIds(ids: seq<int>) | LookupError

  /** `$v[$key]` on an array value; nothing on any other value. */
  function Offset(v: Value, key: string): Option<Value> {
    if v.Arr? then Get(v.entries, StrKey(key)) else None
  }

  /** `isset($v[$key])`. */
  predicate IsSetOffset(v: Value, key: string) {
    Offset(v, key).Some? && !Offset(v, key).value.Null?
  }

  /** The block attributes, from a block object's parsed block or from a block array. */
  function BlockAttributes(block: Value): Value {
    var parsed := if block.Object? then Get(block.props, StrKey("parsed_block")) else None;
    if parsed.Some? && IsSetOffset(parsed.value, "attrs") then Offset(parsed.value, "attrs").value
    else if block.Arr? && IsSetOffset(block, "attrs") then Offset(block, "attrs").value
    else Arr([])
  }

  /** The `queryId` block attribute, null when not set. */
  function QueryId(block: Value): Value {
    var attrs := BlockAttributes(block);
    if IsSetOffset(attrs, "queryId") then Offset(attrs, "queryId").value else Null
  }

  /** The single clause of the theme-term `tax_query`. */
  function ThemeClause(ids: seq<int>): Value {
    Arr([
      Entry(StrKey("taxonomy"), Str("theme")),
      Entry(StrKey("field"), Str("term_id")),
      Entry(StrKey("terms"), Arr(ListOf(seq(|ids|, i requires 0 <= i < |ids| => Int(ids[i]))))),
      Entry(StrKey("operator"), Str("IN"))
    ])
  }

  /** The `tax_query` step: only a non-empty list of term ids replaces it. */
  function WithThemeTerms(args: seq<Entry>, terms: TermLookup): seq<Entry> {
    if terms.TermIds? && terms.ids != [] then Set(args, TaxQueryKey, Arr(ListOf([ThemeClause(terms.ids)])))
    else args
  }

  /** The exclusions already present: an array value of `post__not_in`, else none. */
  function PriorExclusions(args: seq<Entry>): seq<Entry> {
    var v := Get(args, NotInKey);
    if v.Some? && v.value.Arr? then v.value.entries else []
  }

  /** The `post__not_in` step: reset unless it is an array, then append the post id. */
  function ExcludeCurrent(args: seq<Entry>, postId: int): seq<Entry> {
    Set(args, NotInKey, Arr(Push(PriorExclusions(args), Int(postId))))
  }

  /** `civicsignals_filter_related_stories_query`. */
  function RelatedStoriesQuery(args: seq<Entry>, block: Value, isSingularStory: bool, postId: int, terms: TermLookup): seq<Entry> {
    if !isSingularStory then args
    else if !(IsSet(args, PostTypeKey) && Get(args, PostTypeKey).value == Str("story")) then args
    else if QueryId(block) == Int(1) || isSingularStory then ExcludeCurrent(WithThemeTerms(args, terms), postId)
    else args
  }

  /** Off a single story page, or for a query that is not exactly for stories, the
      arguments come back unchanged. */
  lemma RelatedGuards(args: seq<Entry>, block: Value, isSingularStory: bool, postId: int, terms: TermLookup)
    ensures !isSingularStory ==> RelatedStoriesQuery(args, block, isSingularStory, postId, terms) == args
    ensures Get(args, PostTypeKey) != Some(Str("story")) ==> RelatedStoriesQuery(args, block, isSingularStory, postId, terms) == args
  {
  }

  /** The block never matters: past the page guard the `queryId` test is always passed. */
  lemma RelatedIgnoresBlock(args: seq<Entry>, block1: Value, block2: Value, isSingularStory: bool, postId: int, terms: TermLookup)
    ensures RelatedStoriesQuery(args, block1, isSingularStory, postId, terms)
         == RelatedStoriesQuery(args, block2, isSingularStory, postId, terms)
  {
  }

  /** On a story query of a story page the current post is appended to the
      exclusions, after the ones already there (none when the value was missing
      or not an array). */
  lemma RelatedExcludesCurrent(args: seq<Entry>, block: Value, postId: int, terms: TermLookup)
    requires Get(args, PostTypeKey) == Some(Str("story"))
    ensures var r := RelatedStoriesQuery(args, block, true, postId, terms);
      && Get(r, NotInKey).Some? && Get(r, NotInKey).value.Arr?
      && ValuesOf(Get(r, NotInKey).value.entries) == ValuesOf(PriorExclusions(args)) + [Int(postId)]
      && Get(r, NotInKey).value.entries[..|PriorExclusions(args)|] == PriorExclusions(args)
    ensures Get(args, NotInKey).Some? && Get(args, NotInKey).value.Arr? ==> PriorExclusions(args) == Get(args, NotInKey).value.entries
    ensures !(Get(args, NotInKey).Some? && Get(args, NotInKey).value.Arr?) ==> PriorExclusions(args) == []
  {
    var taxed := WithThemeTerms(args, terms);
    if terms.TermIds? && terms.ids != [] {
      GetSet(args, TaxQueryKey, Arr(ListOf([ThemeClause(terms.ids)])), NotInKey);
    }
    assert PriorExclusions(taxed) == PriorExclusions(args);
    GetSet(taxed, NotInKey, Arr(Push(PriorExclusions(args), Int(postId))), NotInKey);
  }

  /** On a story query of a story page `tax_query` becomes the single theme clause
      over exactly the fetched ids when there are some, and is kept otherwise. */
  lemma RelatedTaxQuery(args: seq<Entry>, block: Value, postId: int, terms: TermLookup)
    requires Get(args, PostTypeKey) == Some(Str("story"))
    ensures terms.TermIds? && terms.ids != [] ==>
      Get(RelatedStoriesQuery(args, block, true, postId, terms), TaxQueryKey) == Some(Arr(ListOf([ThemeClause(terms.ids)])))
    ensures !(terms.TermIds? && terms.ids != []) ==>
      Get(RelatedStoriesQuery(args, block, true, postId, terms), TaxQueryKey) == Get(args, TaxQueryKey)
  {
    var taxed := WithThemeTerms(args, terms);
    GetSet(taxed, NotInKey, Arr(Push(PriorExclusions(taxed), Int(postId))), TaxQueryKey);
    if terms.TermIds? && terms.ids != [] {
      GetSet(args, TaxQueryKey, Arr(ListOf([ThemeClause(terms.ids)])), TaxQueryKey);
    }
  }

  /** The clause carries exactly the fetched ids, in order. */
  lemma ThemeClauseTerms(ids: seq<int>)
    ensures Offset(ThemeClause(ids), "taxonomy") == Some(Str("theme"))
    ensures Offset(ThemeClause(ids), "operator") == Some(Str("IN"))
    ensures var t := Offset(ThemeClause(ids), "terms");
      t.Some? && t.value.Arr? && |t.value.entries| == |ids|
      && forall i :: 0 <= i < |ids| ==> t.value.entries[i] == Entry(IntKey(i), Int(ids[i]))
  {
    var es := ThemeClause(ids).entries;
    GetAt(es, 0);
    ClauseOperator(ids);
    ClauseTermList(ids);
  }

  lemma ClauseOperator(ids: seq<int>)
    ensures Offset(ThemeClause(ids), "operator") == Some(Str("IN"))
  {
    var es := ThemeClause(ids).entries;
    assert es[0].key != es[3].key && es[1].key != es[3].key && es[2].key != es[3].key;
    GetAt(es, 3);
  }

  lemma ClauseTermList(ids: seq<int>)
    ensures var t := Offset(ThemeClause(ids), "terms");
      t.Some? && t.value.Arr? && |t.value.entries| == |ids|
      && forall i :: 0 <= i < |ids| ==> t.value.entries[i] == Entry(IntKey(i), Int(ids[i]))
  {
    var vs := seq(|ids|, i requires 0 <= i < |ids| => Int(ids[i]));
    var es := ThemeClause(ids).entries;
    assert es[0].key != es[2].key && es[1].key != es[2].key;
    GetAt(es, 2);
    assert ValuesOf(ListOf(vs)) == vs;
  }

  /** No key other than `tax_query` and `post__not_in` is touched. */
  lemma RelatedOtherKeys(args: seq<Entry>, block: Value, isSingularStory: bool, postId: int, terms: TermLookup, k: Key)
    requires k != TaxQueryKey && k != NotInKey
    ensures Get(RelatedStoriesQuery(args, block, isSingularStory, postId, terms), k) == Get(args, k)
  {
    if isSingularStory && Get(args, PostTypeKey) == Some(Str("story")) {
      var taxed := WithThemeTerms(args, terms);
      GetSet(taxed, NotInKey, Arr(Push(PriorExclusions(taxed), Int(postId))), k);
      if terms.TermIds? && terms.ids != [] {
        GetSet(args, TaxQueryKey, Arr(ListOf([ThemeClause(terms.ids)])), k);
      }
    }
  }

  /** Past both guards the query is the two steps. */
  lemma RelatedSteps(args: seq<Entry>, block: Value, postId: int, terms: TermLookup)
    requires Get(args, PostTypeKey) == Some(Str("story"))
    ensures RelatedStoriesQuery(args, block, true, postId, terms) == ExcludeCurrent(WithThemeTerms(args, terms), postId)
  {
  }

  /** The keys keep their order, new ones going last, and stay unique. */
  lemma RelatedKeepsKeys(args: seq<Entry>, block: Value, isSingularStory: bool, postId: int, terms: TermLookup)
    ensures Keys(args) <= Keys(RelatedStoriesQuery(args, block, isSingularStory, postId, terms))
    ensures UniqueKeys(args) ==> UniqueKeys(RelatedStoriesQuery(args, block, isSingularStory, postId, terms))
  {
    if isSingularStory && Get(args, PostTypeKey) == Some(Str("story")) {
      RelatedSteps(args, block, postId, terms);
      var taxed := WithThemeTerms(args, terms);
      if terms.TermIds? && terms.ids != [] {
        SetKeepsKeys(args, TaxQueryKey, Arr(ListOf([ThemeClause(terms.ids)])));
      }
      SetKeepsKeys(taxed, NotInKey, Arr(Push(PriorExclusions(taxed), Int(postId))));
    }
  }

  /** `str_replace($from, $to, $s)`: every occurrence, scanned left to right,
      replaced. */
  function ReplaceAll(s: string, from: string, to: string): string
    requires from != []
    decreases |s|
  {
    if s == [] then []
    else if OccursAt(s, from, 0) then to + ReplaceAll(s[|from|..], from, to)
    else [s[0]] + ReplaceAll(s[1..], from, to)
  }

  /** A string without the pattern comes back unchanged. */
  lemma {:induction false} ReplaceAbsent(s: string, from: string, to: string)
    requires from != []
    requires forall i :: 0 <= i <= |s| ==> !OccursAt(s, from, i)
    ensures ReplaceAll(s, from, to) == s
    decreases |s|
  {
    if s != [] {
      forall i | 0 <= i <= |s[1..]|
        ensures !OccursAt(s[1..], from, i)
      {
        assert !OccursAt(s, from, i + 1);
        if i + |from| <= |s[1..]| {
          assert s[1..][i..i + |from|] == s[i + 1..i + 1 + |from|];
        }
      }
      ReplaceAbsent(s[1..], from, to);
    }
  }

  /** The first occurrence is replaced, the text before it is kept, and the scan
      goes on after it. */
  lemma {:induction false} ReplaceFirst(a: string, b: string, from: string, to: string)
    requires from != []
    requires forall i :: 0 <= i < |a| ==> !OccursAt(a + from + b, from, i)
    ensures ReplaceAll(a + from + b, from, to) == a + to + ReplaceAll(b, from, to)
    decreases |a|
  {
    var s := a + from + b;
    if a == [] {
      assert s == from + b;
      assert OccursAt(s, from, 0);
      assert s[|from|..] == b;
    } else {
      assert !OccursAt(s, from, 0);
      assert s[1..] == a[1..] + from + b;
      forall i | 0 <= i < |a[1..]|
        ensures !OccursAt(a[1..] + from + b, from, i)
      {
        assert !OccursAt(s, from, i + 1);
        if i + |from| <= |s[1..]| {
          assert s[1..][i..i + |from|] == s[i + 1..i + 1 + |from|];
        }
      }
      ReplaceFirst(a[1..], b, from, to);
      assert a + to + ReplaceAll(b, from, to) == [a[0]] + (a[1..] + to + ReplaceAll(b, from, to));
    }
  }

  const DeferHandles := ["civicsignals-accessibility", "civicsignals-scroll-animations"]

  /** `civicsignals_script_loader_tag`: the theme's two deferrable scripts get
      `defer` before every ` src`. */
  function ScriptLoaderTag(tag: string, handle: string, src: string): string {
    if handle in DeferHandles then ReplaceAll(tag, " src", " defer src") else tag
  }

  /** Other handles keep their tag; for the two deferred ones the tag is unchanged
      without a ` src` and otherwise gains ` defer` at its first ` src`, the rest
      being scanned the same way. */
  lemma ScriptTagDeferred(tag: string, handle: string, src: string)
    ensures handle !in DeferHandles ==> ScriptLoaderTag(tag, handle, src) == tag
    ensures (forall i :: 0 <= i <= |tag| ==> !OccursAt(tag, " src", i)) ==> ScriptLoaderTag(tag, handle, src) == tag
    ensures forall a, b ::
      tag == a + " src" + b && (forall i :: 0 <= i < |a| ==> !OccursAt(tag, " src", i)) && handle in DeferHandles ==>
        ScriptLoaderTag(tag, handle, src) == a + " defer src" + ScriptLoaderTag(b, handle, src)
  {
    if forall i :: 0 <= i <= |tag| ==> !OccursAt(tag, " src", i) {
      ReplaceAbsent(tag, " src", " defer src");
    }
    forall a, b | tag == a + " src" + b && (forall i :: 0 <= i < |a| ==> !OccursAt(tag, " src", i)) && handle in DeferHandles
      ensures ScriptLoaderTag(tag, handle, src) == a + " defer src" + ScriptLoaderTag(b, handle, src)
    {
      ReplaceFirst(a, b, " src", " defer src");
    }
  }

  const GoogleFonts := "https://fonts.googleapis.com"
  const GoogleFontFiles := "https://fonts.gstatic.com"

  /** `array('href' => $href, 'crossorigin')`. */
  function PreconnectHint(href: string): Value {
    Arr(Push([Entry(StrKey("href"), Str(href))], Str("crossorigin")))
  }

  /** `civicsignals_resource_hints`. */
  function ResourceHints(urls: seq<Entry>, relationType: string): seq<Entry> {
    if relationType == "preconnect" then Push(Push(urls, PreconnectHint(GoogleFonts)), PreconnectHint(GoogleFontFiles))
    else urls
  }

  /** Preconnect hints gain the two font hosts after the existing entries, in that
      order; other relation types are untouched. */
  lemma ResourceHintsAppend(urls: seq<Entry>, relationType: string)
    ensures relationType == "preconnect" ==>
      && ResourceHints(urls, relationType)[..|urls|] == urls
      && ValuesOf(ResourceHints(urls, relationType)) == ValuesOf(urls) + [PreconnectHint(GoogleFonts), PreconnectHint(GoogleFontFiles)]
    ensures relationType != "preconnect" ==> ResourceHints(urls, relationType) == urls
    ensures UniqueKeys(urls) ==> UniqueKeys(ResourceHints(urls, relationType))
  {
    var once := Push(urls, PreconnectHint(GoogleFonts));
    var twice := Push(once, PreconnectHint(GoogleFontFiles));
    assert twice[..|urls|] == once[..|urls|];
  }

  /** The hint carries `href` and, under key 0, `crossorigin`. */
  lemma PreconnectHintShape(href: string)
    ensures PreconnectHint(href) == Arr([Entry(StrKey("href"), Str(href)), Entry(IntKey(0), Str("crossorigin"))])
  {
    assert MaxIntKey([Entry(StrKey("href"), Str(href))]) == None;
  }

  const LoadingKey := StrKey("loading")
  const DecodingKey := StrKey("decoding")

  /** `civicsignals_image_loading_attributes`. */
  function ImageLoadingAttributes(attr: seq<Entry>, attachment: Value, size: Value): seq<Entry> {
    Set(Set(attr, LoadingKey, Str("lazy")), DecodingKey, Str("async"))
  }

  /** Images load lazily and decode asynchronously; every other attribute is kept,
      the keys keep their order, and a second pass changes nothing. */
  lemma ImageAttributesSet(attr: seq<Entry>, attachment: Value, size: Value)
    ensures Get(ImageLoadingAttributes(attr, attachment, size), LoadingKey) == Some(Str("lazy"))
    ensures Get(ImageLoadingAttributes(attr, attachment, size), DecodingKey) == Some(Str("async"))
    ensures forall k :: k != LoadingKey && k != DecodingKey ==>
      Get(ImageLoadingAttributes(attr, attachment, size), k) == Get(attr, k)
    ensures Keys(attr) <= Keys(ImageLoadingAttributes(attr, attachment, size))
    ensures UniqueKeys(attr) ==> UniqueKeys(ImageLoadingAttributes(attr, attachment, size))
  {
    var lazy := Set(attr, LoadingKey, Str("lazy"));
    GetSet(attr, LoadingKey, Str("lazy"), DecodingKey);
    GetSet(lazy, DecodingKey, Str("async"), LoadingKey);
    forall k | k != LoadingKey && k != DecodingKey
      ensures Get(ImageLoadingAttributes(attr, attachment, size), k) == Get(attr, k)
    {
      GetSet(attr, LoadingKey, Str("lazy"), k);
      GetSet(lazy, DecodingKey, Str("async"), k);
    }
    SetKeepsKeys(attr, LoadingKey, Str("lazy"));
    SetKeepsKeys(lazy, DecodingKey, Str("async"));
  }

  /** Setting a key to the value it already has changes nothing. */
  lemma {:induction false} SetSameValue(es: seq<Entry>, k: Key, v: Value)
    requires UniqueKeys(es) && Get(es, k) == Some(v)
    ensures Set(es, k, v) == es
  {
    if es[0].key != k {
      SetSameValue(es[1..], k, v);
    }
  }

  /** Filtering the attributes twice gives what filtering once gives. */
  lemma ImageAttributesIdempotent(attr: seq<Entry>, attachment: Value, size: Value)
    requires UniqueKeys(attr)
    ensures ImageLoadingAttributes(ImageLoadingAttributes(attr, attachment, size), attachment, size)
         == ImageLoadingAttributes(attr, attachment, size)
  {
    var once := ImageLoadingAttributes(attr, attachment, size);
    ImageAttributesSet(attr, attachment, size);
    SetSameValue(once, LoadingKey, Str("lazy"));
    SetSameValue(once, DecodingKey, Str("async"));
  }
}
