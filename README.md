# CivicSignals theme core in Dafny

This project models the parts of the CivicSignals WordPress theme that compute
something, and proves what they promise.

- **Chapter numbers** (`assets/js/chapter-numbers.js`).
  - `extractChapterNumber` reads a number out of a heading's text. It tries four
    regular expressions in order: "Chapter 12", "Chapter 12 –", a leading
    "12 –", and Roman numerals i–x after "Chapter".
  - `addChapterNumbers` wraps every numbered `h2` of a story in a chapter block,
    where the heading stood. The block holds a hidden number heading and a
    content block, and the heading is moved into the content block. The code
    then walks the heading's following siblings to move them in as well, up to
    the next `h2`. But the walk starts from the heading's new place, where it is
    the only child of the content block, so it finds nothing: every other
    sibling stays where it was (see "## Findings").
- **Story structure** (`structureStoryContent`, same file). Five passes run in
  order over the content container:
  - persona `h3` headings are wrapped in cards, in the same way and with the
    same empty sibling walk;
  - quotes are styled;
  - pain-point labels and the list that follows each label are marked;
  - "Label: 62% → 94%" paragraphs are rewritten into label/value markup;
  - every remaining plain paragraph gets the body-text class.
- **Accessibility** (`assets/js/accessibility.js`).
  - Navigation links without a label get "Navigate to " plus their text.
  - Headings without an id get a slug of their text: lower case, letters and
    digits, runs of anything else turned into one dash.
- **Theme filters** (`functions.php`).
  - The related-stories query loop is narrowed to stories sharing a theme term,
    and the current story is excluded.
  - Two scripts get `defer`.
  - The Google Fonts hosts get preconnect hints.
  - Images get `loading="lazy"` and `decoding="async"`.

The DOM is a value tree:

```
Node = Element(tag, className, attributes, children) | Text(data)
```

- `className` is the class attribute as a string, because the source reads it
  both as a string (`className.includes`) and as a token list
  (`classList.contains`).
- The page's content container is a `StoryPage.StoryContent` object. Its
  methods rebuild the container's children in place.
- Each DOM pass is a loop over a sibling list, proved equal to a specification
  function. The lemmas state what that function promises.
- PHP arrays are ordered key/value entry lists (`PhpArray`). They support the
  three operations the filters use: `$a[$k]`, `$a[$k] = $v` and `$a[] = $v`.
- What WordPress would look up comes in as parameters: `is_singular('story')`,
  `get_the_ID()` and `wp_get_post_terms(...)`.

Modules:

- `JsText`: JavaScript whitespace, `trim`, ASCII case, decimal digits.
- `Dom`: nodes, class tokens.
- `ChapterNumber`.
- `StoryText`: the text tests of the structure passes.
- `Grouping`: the chapter and persona wrapping, as the scripts run it.
- `Sectioning`: the sibling-moving version the scripts were written to perform.
- `StoryStructure`: quotes, pain points, metrics, body text.
- `StoryPage`: the imperative passes and the container class.
- `HeadingSlug`.
- `Accessibility`.
- `PhpArray`.
- `ThemeFilters`.

## Model

| member | source | states |
|---|---|---|
| `ChapterNumber.ExtractChapterNumber` | assets/js/chapter-numbers.js:9-42 | Empty text reads as no number. |
| `ChapterNumber.Leftmost` | assets/js/chapter-numbers.js:14-14 | A regular expression without an anchor reports its leftmost match: the position found matches, no earlier one does, and no result means no position matches. |
| `ChapterNumber.ChapterDigitsWin` | assets/js/chapter-numbers.js:14-17 | When "chapter", whitespace and digits occur (any case), the result is the value of the digits of the leftmost such occurrence. |
| `ChapterNumber.Pattern2Unreachable` | assets/js/chapter-numbers.js:19-23 | Every match of the second pattern is a match of the first, so the second pattern never decides the result. |
| `ChapterNumber.LeadingNumberWins` | assets/js/chapter-numbers.js:25-29 | Without a "chapter N" match, a text that opens with digits, optional whitespace and a dash or colon gives the value of those digits. |
| `ChapterNumber.RomanFallback` | assets/js/chapter-numbers.js:31-39 | Otherwise the leftmost "chapter" plus run of i/v/x decides: its lower-cased run is looked up in the table, and a run outside the table gives no number. |
| `ChapterNumber.NothingMatches` | assets/js/chapter-numbers.js:14-41 | When neither "chapter N", nor a leading number with a dash or colon, nor "chapter" plus a Roman run matches anywhere in the text, no number is found. |
| `ChapterNumber.ResultBounds` | assets/js/chapter-numbers.js:31-41 | A number found by the Roman step lies between 1 and 10. |
| `ChapterNumber.RomanTableIsRomanNumerals` | assets/js/chapter-numbers.js:32-35 | Every table entry is the Roman-numeral value of its key, between 1 and 10. |
| `ChapterNumber.RomanKeyValue` | assets/js/chapter-numbers.js:32-35 | Each key of the table read as a Roman numeral gives its entry. |
| `ChapterNumber.KeywordOnlyAtStart` | assets/js/chapter-numbers.js:36-36 | When no character after the first is a `c`, "chapter" can only match at position 0. |
| `ChapterNumber.ChapterThenTwoLetters` | assets/js/chapter-numbers.js:36-38 | "Chapter " followed by two Roman letters and a non-Roman letter gives the table value of the two letters, lower-cased. |
| `ChapterNumber.ChapterVisionIsSix` | assets/js/chapter-numbers.js:36-38 | "Chapter Vision" reads as chapter 6: the run `vi` is taken from the word. |
| `ChapterNumber.ChapterElevenIsNull` | assets/js/chapter-numbers.js:32-41 | "Chapter XI." gives no number: `xi` is not in the table. |
| `JsText.Trim` | assets/js/chapter-numbers.js:67-67 | `trim()` leaves no whitespace at either end, is empty exactly when the text is all whitespace, and leaves text without edge whitespace unchanged. |
| `JsText.TrimSlice` | assets/js/accessibility.js:120-120 | `trim()` keeps one slice of the text and drops only whitespace around it. |
| `JsText.DecimalString` | assets/js/chapter-numbers.js:87-87 | A number is written as a non-empty string of digits without a leading zero (except "0"). |
| `JsText.DecimalRoundTrip` | assets/js/chapter-numbers.js:87-87 | Reading the written number back gives the number. |
| `JsText.Utf16Length` | assets/js/chapter-numbers.js:204-204 | `length` counts UTF-16 units: between one and two per character. |
| `Dom.AppendClassAdds` | assets/js/chapter-numbers.js:211-211 | `(className + ' x').trim()` carries the class `x` as a token. |
| `Dom.AppendClassKeeps` | assets/js/chapter-numbers.js:211-211 | Appending a class keeps every class token already there. |
| `Dom.AppendClassShape` | assets/js/chapter-numbers.js:211-211 | The appended class string is `className + ' x'` with only leading whitespace dropped. |
| `Dom.ElementsAndTextNodes` | assets/js/chapter-numbers.js:112-115 | Splitting siblings into elements and text nodes loses none and mixes none. |
| `Grouping.LeaderOf` | assets/js/chapter-numbers.js:57-78 | A heading is wrapped only when it is collected and not skipped. A collected persona heading is always wrapped. A collected chapter heading is wrapped exactly under the number extracted from its trimmed text, and not at all when none is found. |
| `Grouping.WrapperIsMarked` | assets/js/chapter-numbers.js:81-82 | The wrapper carries the class that `closest` looks for. |
| `Grouping.GroupedCons` | assets/js/chapter-numbers.js:66-78 | The headings are handled one sibling at a time: the first sibling's result does not depend on the others. |
| `Grouping.InsideUnchanged` | assets/js/chapter-numbers.js:57-60 | Below a chapter (or persona card) nothing is wrapped. |
| `Grouping.WrapperClassUnchanged` | assets/js/chapter-numbers.js:75-78 | An existing wrapper is left exactly as it is. |
| `Grouping.NoCandidateUnchanged` | assets/js/chapter-numbers.js:62-64 | With no collected heading the tree is unchanged. This is the early return. |
| `Grouping.NoLeaderTagNoCandidate` | assets/js/chapter-numbers.js:57-60 | Without an `h2` (or `h3`) nothing is collected. |
| `Grouping.NoLeaderBelowUnchanged` | assets/js/chapter-numbers.js:57-60 | A node with no heading of the pass's kind below it is unchanged. |
| `Grouping.GroupedNodeKeepsLeader` | assets/js/chapter-numbers.js:66-78 | Handling the headings below a node does not change whether, or under which number, it is wrapped. |
| `Grouping.GroupedIdempotent` | assets/js/chapter-numbers.js:44-120 | Running the pass on its own result changes nothing, provided headings do not nest. |
| `Grouping.GroupedAtIdempotent` | assets/js/chapter-numbers.js:66-118 | The same for one sibling: a wrapper the pass made is skipped the second time. |
| `Grouping.GroupedNodeIdempotent` | assets/js/chapter-numbers.js:57-60 | The same for a node that is not wrapped. |
| `Grouping.GroupedNodeKeepsShape` | assets/js/chapter-numbers.js:57-78 | A node that is not wrapped is a wrapper afterwards exactly when it was one before. |
| `Grouping.WrapperHoldsHeading` | assets/js/chapter-numbers.js:80-103 | A sibling becomes a wrapper exactly when the pass takes it. That wrapper is built as the pass builds it (for a chapter, a number heading showing the heading's number), and its content block holds that heading and nothing else. |
| `Grouping.GroupedAtBuilt` | assets/js/chapter-numbers.js:80-103 | The same for one sibling. |
| `Grouping.GroupedUnwraps` | assets/js/chapter-numbers.js:95-118 | The pass moves nothing: on a tree without wrappers, replacing each inserted wrapper by what its content block holds gives back exactly the original tree. |
| `Grouping.GroupedAtUnwraps` | assets/js/chapter-numbers.js:95-118 | The same for one sibling. |
| `Grouping.WrapperUnwraps` | assets/js/chapter-numbers.js:95-100 | A wrapper holding only a heading unwraps to that heading. |
| `Grouping.GroupedNodeUnwraps` | assets/js/chapter-numbers.js:57-60 | The same for a node that is not wrapped. |
| `Grouping.NoWrapperUnwrapped` | assets/js/chapter-numbers.js:95-118 | A tree without wrappers is its own unwrapping. |
| `Grouping.WrapperIsBuilt` | assets/js/chapter-numbers.js:81-100 | A wrapper made from a wrapped heading, and any elements that do not end a section, is built. |
| `Grouping.ContentBlockIsBuilt` | assets/js/chapter-numbers.js:91-100 | The content block opens with the heading, and anything after it is an element that does not end a section. |
| `Grouping.NumberHeadingShows` | assets/js/chapter-numbers.js:85-88 | The number heading is an `h2` of the number class, hidden from assistive technology, whose text is the decimal number. |
| `Sectioning.SectionLength` | assets/js/chapter-numbers.js:103-118 | Had the walk started from the heading's old place, its section would be the longest run of following siblings with no `h2` (for personas, no `h2` or `h3`), stopping at one. |
| `Sectioning.SectionedWrapStep` | assets/js/chapter-numbers.js:95-118 | In the sibling-moving version, a wrapped heading leaves its wrapper, then the text nodes of its section, then the rest of the siblings sectioned. |
| `Sectioning.SectionedInside` | assets/js/chapter-numbers.js:57-60 | Below a chapter (or persona card) the sibling-moving version wraps nothing either. |
| `Sectioning.SectionedNoCandidate` | assets/js/chapter-numbers.js:62-64 | With no collected heading it changes nothing. |
| `Sectioning.FixedPrefix` | assets/js/chapter-numbers.js:66-78 | Siblings that are already sectioned and not wrapped pass through unchanged. |
| `Sectioning.PlacedSectionFixed` | assets/js/chapter-numbers.js:75-78 | A placed wrapper and the text nodes left behind are not wrapped again. |
| `Sectioning.SectionedIdempotent` | assets/js/chapter-numbers.js:44-120 | The sibling-moving version is idempotent too, provided headings do not nest. |
| `Sectioning.SectionedOnlyRegroups` | assets/js/chapter-numbers.js:95-118 | When headings occur only among the top-level siblings, taking the wrappers out gives back exactly the original elements and the original text nodes, each in order. |
| `Sectioning.UnwrappedSection` | assets/js/chapter-numbers.js:95-118 | Unwrapping a placed section gives the heading, the moved elements, then the text nodes left in place. |
| `Sectioning.WrappersAreBuilt` | assets/js/chapter-numbers.js:81-118 | Every wrapper it leaves opens with a wrapped heading (for a chapter, the number heading shows that heading's number) and holds only elements that do not end a section. |
| `Sectioning.ParagraphStays` | assets/js/chapter-numbers.js:95-118 | As written, a wrapped heading followed by a paragraph becomes the wrapper holding the heading alone, and the paragraph stays beside it. |
| `Sectioning.ParagraphMoves` | assets/js/chapter-numbers.js:103-118 | As intended, the same paragraph is moved into the wrapper's content block, after the heading. |
| `Sectioning.HeadingThenParagraph` | assets/js/chapter-numbers.js:95-118 | On a wrapped heading followed by a paragraph, the pass as written leaves the paragraph beside the wrapper, while the sibling-moving version puts it in the content block. |
| `StoryText.PersonaTitleIff` | assets/js/chapter-numbers.js:164-167 | A persona title is exactly a capital letter, lower-case letters, optional whitespace and a dash, at the start of the text. |
| `StoryText.LabelledQuote` | assets/js/chapter-numbers.js:206-210 | An extracted quote follows a "Quote:" label and is non-empty text without a double quote. |
| `StoryText.LabelledQuoteOf` | assets/js/chapter-numbers.js:206-210 | "Quote:", whitespace, a double quote and quote text give exactly that text. |
| `StoryText.UnquotedLabel` | assets/js/chapter-numbers.js:204-215 | A "Quote:" label not followed by a double quote extracts nothing and does not count as a bare quote. |
| `StoryText.PainLabelFollowedBy` | assets/js/chapter-numbers.js:222-222 | "Pain", any non-empty run of whitespace and "Points:" make a label exactly when whatever follows is all whitespace. |
| `StoryText.MetricSplitOf` | assets/js/chapter-numbers.js:239-244 | "Name: value" splits into that name and value. |
| `StoryText.MetricOf` | assets/js/chapter-numbers.js:239-244 | A split is made only from text with an arrow or percent sign, a figure and a colon before a digit. |
| `StoryStructure.Quoted` | assets/js/chapter-numbers.js:200-217 | The quote pass keeps the number of siblings. |
| `StoryStructure.QuotedNoParagraph` | assets/js/chapter-numbers.js:200-200 | Without paragraphs the quote pass changes nothing. |
| `StoryStructure.QuoteParagraphOf` | assets/js/chapter-numbers.js:206-211 | A labelled quote paragraph keeps only the quote text and gains the quote class. |
| `StoryStructure.LabelledQuoteParagraph` | assets/js/chapter-numbers.js:208-211 | Its text becomes the extracted quote, its attributes are kept and it carries the quote class. |
| `StoryStructure.UnquotedLabelParagraph` | assets/js/chapter-numbers.js:204-215 | A paragraph with an unquoted label is left unchanged. |
| `StoryStructure.BareQuoteParagraph` | assets/js/chapter-numbers.js:203-214 | A paragraph the quote test accepts, with no `Quote:` quotation but reading as a bare quotation, keeps its attributes and children and gains the quote class. |
| `StoryStructure.NotQuoteKeepsClass` | assets/js/chapter-numbers.js:200-215 | Every element other than an accepted paragraph that is a labelled or bare quotation keeps its class and attributes. |
| `StoryStructure.Pained` | assets/js/chapter-numbers.js:220-231 | The pain pass keeps the number of siblings and which are elements. |
| `StoryStructure.PainLabelMarked` | assets/js/chapter-numbers.js:222-223 | Every label paragraph gets the label class. |
| `StoryStructure.PainListMarked` | assets/js/chapter-numbers.js:225-229 | A list gets the list class exactly when it is the next element sibling of a label paragraph; otherwise its class is unchanged. |
| `StoryStructure.OtherElementKeepsClass` | assets/js/chapter-numbers.js:220-231 | An element that is neither a label paragraph nor a list keeps its class. |
| `StoryStructure.AfterElementIff` | assets/js/chapter-numbers.js:226-226 | The tracked flag holds exactly when the last element passed is a label, with only text nodes after it. |
| `StoryStructure.PainedOnlyClasses` | assets/js/chapter-numbers.js:220-231 | The pain pass changes nothing but class strings. |
| `StoryStructure.Metrics` | assets/js/chapter-numbers.js:234-253 | The metric pass keeps the number of siblings. |
| `StoryStructure.MetricsNoParagraph` | assets/js/chapter-numbers.js:240-240 | Without paragraphs the metric pass changes nothing. |
| `StoryStructure.MetricRewritten` | assets/js/chapter-numbers.js:246-249 | A metric paragraph gains the metric class, keeps its attributes, and reads "label: value" afterwards. |
| `StoryStructure.MetricParagraphOf` | assets/js/chapter-numbers.js:239-249 | A paragraph "Name: 62% → 94%" is rewritten into that name and value. |
| `StoryStructure.MetricChildrenText` | assets/js/chapter-numbers.js:248-248 | The new markup reads as the label, a colon, a space and the value. |
| `StoryStructure.MetricGuarded` | assets/js/chapter-numbers.js:246-246 | A paragraph that already carries the metric class is not rewritten. |
| `StoryStructure.MetricChildrenUnchanged` | assets/js/chapter-numbers.js:248-248 | The inserted markup is not itself rewritten. |
| `StoryStructure.MetricsIdempotent` | assets/js/chapter-numbers.js:234-253 | A second metric pass changes nothing, provided paragraphs do not nest. |
| `StoryStructure.BodyText` | assets/js/chapter-numbers.js:256-265 | The body-text pass keeps the number of siblings. |
| `StoryStructure.BodyTextRule` | assets/js/chapter-numbers.js:257-263 | A paragraph that passes the test (no quote, label or metric class, not in a persona card, no `cs-body-text` substring) gets the body class; any other paragraph keeps its class string exactly. |
| `StoryStructure.BodyNoParagraph` | assets/js/chapter-numbers.js:256-256 | Without paragraphs the body-text pass changes nothing. |
| `StoryStructure.BodyTextIdempotent` | assets/js/chapter-numbers.js:256-265 | A second body-text pass changes nothing, provided paragraphs do not nest. |
| `StoryStructure.BodyTextOnlyClasses` | assets/js/chapter-numbers.js:256-265 | The body-text pass changes nothing but class strings. |
| `StoryPage.WrapGroups` | assets/js/chapter-numbers.js:66-118 | The heading loop leaves exactly what the pass as written describes: each heading it takes is wrapped where it stands, and nothing else moves. |
| `StoryPage.WrapGroupsAt` | assets/js/chapter-numbers.js:66-118 | The same for one sibling. |
| `StoryPage.WrapHeading` | assets/js/chapter-numbers.js:80-118 | Building a wrapper and then running the sibling walk from the heading's new place gives the wrapper whose content block holds the heading alone. |
| `StoryPage.CollectSection` | assets/js/chapter-numbers.js:103-118 | The `nextSibling` walk stops at the first sibling that ends the section. It moves exactly the elements before that sibling and leaves exactly the text nodes. |
| `StoryPage.WrapGroupsNode` | assets/js/chapter-numbers.js:57-60 | A node that is not wrapped has the headings below it handled. |
| `StoryPage.StyleQuotes` | assets/js/chapter-numbers.js:200-217 | The quote loop leaves exactly what the quote pass describes. |
| `StoryPage.StyleQuote` | assets/js/chapter-numbers.js:201-216 | The same for one node. |
| `StoryPage.MarkPainPoints` | assets/js/chapter-numbers.js:220-231 | The pain loop, tracking whether the last element passed was a label, leaves exactly what the pain pass describes. |
| `StoryPage.MarkPainNode` | assets/js/chapter-numbers.js:222-229 | The same for one node. |
| `StoryPage.RewriteMetrics` | assets/js/chapter-numbers.js:234-253 | The metric loop leaves exactly what the metric pass describes. |
| `StoryPage.RewriteMetric` | assets/js/chapter-numbers.js:235-252 | The same for one node. |
| `StoryPage.MarkBodyText` | assets/js/chapter-numbers.js:256-265 | The body-text loop leaves exactly what the body-text pass describes. |
| `StoryPage.MarkBodyNode` | assets/js/chapter-numbers.js:257-264 | The same for one node. |
| `StoryPage.StoryContent.AddChapterNumbers` | assets/js/chapter-numbers.js:44-120 | On a story page the container's children become what the chapter pass as written leaves (the early return included). Elsewhere they are unchanged. |
| `StoryPage.StoryContent.StructureStoryContent` | assets/js/chapter-numbers.js:157-266 | The container's children become the five passes applied in order. |
| `StoryPage.StoryContent.RunAllStructure` | assets/js/chapter-numbers.js:269-272 | Chapters first, then the structure passes. |
| `HeadingSlug.Collapse` | assets/js/accessibility.js:122-122 | Each run of characters outside `a-z0-9` becomes one dash: the result holds only letters, digits and single dashes, and starts with a dash exactly when the input starts outside `a-z0-9`. |
| `HeadingSlug.StripDashes` | assets/js/accessibility.js:123-123 | The result neither starts nor ends with a dash. |
| `HeadingSlug.StripSlice` | assets/js/accessibility.js:123-123 | Stripping keeps one slice and drops only dashes. |
| `HeadingSlug.CollapseKeepsSlugChars` | assets/js/accessibility.js:122-122 | Collapsing keeps a letter or digit exactly when the input had one. |
| `HeadingSlug.CollapseFixed` | assets/js/accessibility.js:122-122 | Letters, digits and single dashes collapse to themselves. |
| `HeadingSlug.SlugIsSlug` | assets/js/accessibility.js:120-123 | Every generated id is made of `a-z`, `0-9` and `-`, with no dash at either end and no two dashes in a row. |
| `HeadingSlug.SlugEmptyIff` | assets/js/accessibility.js:120-124 | The id is empty exactly when no character of the text lower-cases to an ASCII letter or digit. |
| `HeadingSlug.SlugFixed` | assets/js/accessibility.js:120-123 | A slug is its own id. |
| `HeadingSlug.SlugIdempotent` | assets/js/accessibility.js:120-123 | Deriving the id of an id gives the same id. |
| `Accessibility.ForEach` | assets/js/accessibility.js:30-36 | A `forEach` over the selected elements leaves each one updated on its own. |
| `Accessibility.AddNavLabels` | assets/js/accessibility.js:29-36 | Every link ends up as the label rule makes it. |
| `Accessibility.NavLabelRule` | assets/js/accessibility.js:31-34 | An existing label is never replaced, and a link with blank text is unchanged. A link with visible text ends up labelled, and an added label is "Navigate to " plus the trimmed text. Nothing but the label changes. |
| `Accessibility.NavLabelIdempotent` | assets/js/accessibility.js:29-36 | A second pass changes nothing. |
| `Accessibility.AssignHeadingIds` | assets/js/accessibility.js:116-128 | Every heading ends up as the id rule makes it. |
| `Accessibility.HeadingIdRule` | assets/js/accessibility.js:118-126 | A heading with an id is never changed. A heading without one gets an id exactly when its text holds an ASCII letter or digit, and that id is the slug of its text. Nothing but the id changes. |
| `Accessibility.HeadingIdIsSlug` | assets/js/accessibility.js:124-125 | A heading without an id reads the slug of its text afterwards. |
| `Accessibility.HeadingIdIdempotent` | assets/js/accessibility.js:116-128 | A second pass changes nothing. |
| `PhpArray.Get` | functions.php:195-195 | Reading a key finds its entry, and nothing when the key is absent. |
| `PhpArray.GetSet` | functions.php:222-222 | After `$a[$k] = $v` the key reads `$v` and every other key reads as before. |
| `PhpArray.SetKeys` | functions.php:222-222 | Assignment keeps the key order, adding a new key last. |
| `PhpArray.SetUnique` | functions.php:222-222 | Assignment keeps keys unique. |
| `PhpArray.Push` | functions.php:236-236 | `$a[] = $v` keeps the entries, appends `$v` last and keeps keys unique. |
| `PhpArray.NextIndex` | functions.php:236-236 | The appended key is above every integer key. |
| `PhpArray.ListOf` | functions.php:221-230 | A list literal holds its values under keys 0, 1, …. |
| `PhpArray.PushList` | functions.php:233-236 | Appending to a list gives the longer list. |
| `ThemeFilters.RelatedGuards` | functions.php:188-197 | Off a single story page, or when `post_type` is not exactly `'story'`, the query arguments come back unchanged. |
| `ThemeFilters.RelatedIgnoresBlock` | functions.php:199-213 | The result never depends on the block. |
| `ThemeFilters.RelatedSteps` | functions.php:210-236 | Past the guards the filter is the term step followed by the exclusion step. |
| `ThemeFilters.RelatedExcludesCurrent` | functions.php:232-236 | The current post id is appended after the existing exclusions, which are kept in order. A missing or non-array value counts as no exclusions. |
| `ThemeFilters.RelatedTaxQuery` | functions.php:215-230 | With a non-empty list of term ids, `tax_query` becomes the single theme clause over those ids. After an error or an empty list it is kept. |
| `ThemeFilters.ThemeClauseTerms` | functions.php:222-229 | The clause is on taxonomy `theme` with operator `IN`, and carries exactly the fetched ids in order. |
| `ThemeFilters.RelatedOtherKeys` | functions.php:218-239 | No key other than `tax_query` and `post__not_in` changes. |
| `ThemeFilters.RelatedKeepsKeys` | functions.php:218-239 | The keys keep their order, new ones go last, and keys stay unique. |
| `ThemeFilters.ReplaceAbsent` | functions.php:254-254 | `str_replace` leaves a string without the pattern unchanged. |
| `ThemeFilters.ReplaceFirst` | functions.php:254-254 | `str_replace` replaces the first occurrence, keeps the text before it, and goes on after it. |
| `ThemeFilters.ScriptTagDeferred` | functions.php:246-258 | Other handles keep their tag. For the two deferred handles a tag without ` src` is unchanged; otherwise ` defer` is inserted at the first ` src`, and the rest of the tag is treated the same way. |
| `ThemeFilters.ResourceHintsAppend` | functions.php:106-118 | Preconnect hints gain the googleapis hint and then the gstatic hint after the existing entries. Other relation types are unchanged. |
| `ThemeFilters.PreconnectHintShape` | functions.php:108-111 | A hint is `href` plus `crossorigin` under key 0. |
| `ThemeFilters.ImageAttributesSet` | functions.php:318-326 | `loading` is `lazy` and `decoding` is `async`. Every other attribute is kept and the key order is kept. |
| `ThemeFilters.ImageAttributesIdempotent` | functions.php:318-326 | A second pass changes nothing. |

## Left out

- The wiring of the scripts is not modelled: `DOMContentLoaded`, `wp.domReady`, the `MutationObserver`, the 50 ms `setTimeout` (`assets/js/chapter-numbers.js` lines 122-152 and 268-283).
- The page guard of `addChapterNumbers` is modelled as the body's class string, and the container lookup (`querySelector`, with its early return when missing) as the `StoryContent` object that stands for the container.
- The container's ancestors are assumed to carry neither `cs-chapter` nor `cs-persona-card`, so `closest` is decided inside the container.
- Node identity is not modelled: moving a node is rebuilding the tree with the same value elsewhere. Nodes are values, so there is no aliasing.
- Comment nodes are not modelled; only elements and text nodes are.
- Several lemmas assume no paragraph inside a paragraph, and no heading of the pass's kind inside another. HTML parsing never produces such trees, and the content editor does not either.
  - `Grouping.GroupedIdempotent`.
  - `Sectioning.SectionedIdempotent`.
  - `StoryStructure.MetricsIdempotent`.
  - `StoryStructure.BodyTextIdempotent`.
- The quote and pain passes are not idempotent in the source (a second run appends a class again), so no idempotence is claimed for them.
- `StoryStructure.MetricChildren`: the `innerHTML` template is modelled as its parsed result, a `strong` and a `span` element around the label and value text. HTML serialisation and escaping of the label and value are not modelled.
- `ChapterNumber.ExtractChapterNumber` uses unbounded integers. `parseInt` loses precision above 2^53, and very long digit strings would read in exponent notation; neither is modelled.
- Case folding (`/i` regular expressions, `toLowerCase`) is ASCII only.
  - This is exact for the chapter expressions, whose literals are ASCII.
  - For the heading slug, `toLowerCase` of the two non-ASCII characters U+0130 and U+212A produces an ASCII letter; the model keeps them as they are.
- `PhpArray.NextIndex` computes the key of `$a[] = $v` from the keys present: one past the largest integer key, or 0. PHP's remembered counter (after `unset`) and the pre-8.3 rule for negative keys are not modelled.
- PHP's conversion of numeric string keys to integer keys is not modelled; every key the filters use is a plain string.
- `ThemeFilters.BlockAttributes` models the block as a PHP value (an object with properties, or an array). The result never depends on it.
- `wp_get_post_terms` is a parameter, either a list of ids or an error. Its other possible return shapes are not modelled.
- `ThemeFilters.ScriptTagDeferred` describes `str_replace` occurrence by occurrence. No closed formula over all occurrences is stated.
- The skip link, the random cover-block ids, the focus styles and the screen-reader announcer in `assets/js/accessibility.js` are event, timer and randomness plumbing, and are not modelled.
- The other functions in `functions.php` only register, enqueue, send headers or echo JSON: setup, asset enqueueing, security headers, emoji removal and the schema markup. They are not modelled.
- `assets/js/scroll-animations.js` and `assets/js/cursor-interaction.js` are floating-point animation code driven by events. The `inc/` files are declarative registration arrays and database calls. None of them is part of this model.

## Findings

`Grouping.Grouped` is the pass as the scripts run it, and the page methods use
it. `Sectioning.Sectioned` is the intended pass; its idempotence, regrouping
and built-wrapper lemmas are proved in `Sectioning`.

| source | as written | input that shows it | evidently intended | confidence | as-written member | corrected member |
|---|---|---|---|---|---|---|
| assets/js/chapter-numbers.js:100-118 (and 184-196 for persona cards) | The heading is appended to the empty content block before `heading.nextSibling` is read, so the walk starts at `null` and moves no sibling. | Container children `[h2 "Chapter 1", p "x"]` on a story page: the `p` stays beside the chapter wrapper. | The elements after the heading, up to the next `h2` (for persona cards, the next `h2` or `h3`), are moved into the content block. | not executed | `Sectioning.ParagraphStays` | `Sectioning.ParagraphMoves` |
