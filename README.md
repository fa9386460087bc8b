# Rules index of the server's web page, in Dafny

The rules page of the site (`src/components/Rules/Rules.tsx`) takes the rules
listed in the site configuration and prepares them for display:

- every rule gets an anchor, `regla-` followed by its id or by the slug of its
  title;
- a search box narrows the rules shown to those whose title or description
  contains the query, ignoring letter case;
- a sidebar links every rule, and the content area shows the rules that match,
  each under a number of at least two digits;
- a description is cut into blocks at blank lines, and each block is shown as a
  bulleted list or as a paragraph.

This project models that logic as pure Dafny functions, and proves what it
promises as lemmas and contracts. The source has no loops and mutates nothing,
so the model has no methods or classes.

- `text.dfy`, module `Text`, models the JavaScript string operations the page
  relies on, and one helper of its own:
  - white space as `\s` and `trim` see it, which is the complete ECMAScript set;
  - `toLowerCase`;
  - `includes`;
  - `split` on one character, with `Join` as its inverse, used to state
    `JoinSplit`;
  - `String(n)` for integers;
  - `padStart`.
- `slug.dfy`, module `Slug`, models `slugify`.
- `richtext.dfy`, module `RichText`, models the description renderer
  `RichText`: splitting at blank lines and classifying each block.
- `rules.dfy`, module `Rules`, models:
  - the rule records;
  - anchors and the prepared index;
  - the search filter;
  - the numbering labels, the sidebar and the content cards.

Two behaviours of the code are easy to miss, and the model keeps both:

- **Separators.** The regular expression `/\n\s*\n/` starts at a line break
  and ends at a line break. White space outside those two line breaks stays in
  the blocks, so `"a \n\n b"` splits into `"a "` and `" b"`.
  `RichText.SplitBlocksSpec` pins the split down exactly.
- **Ids.** The id is tested for truthiness (`r?.id ? ... : ...`), so an empty
  string and the number `0` both fall back to the title's slug.
  `Rules.AnchorOfZeroIdExample` shows the numeric case.

## Model

| member | source | states |
|---|---|---|
| Text.Option.GetOr | src/components/Rules/Rules.tsx:51 | `x ?? d`, here and in `?? ''` at lines 60-61: the value when there is one, `d` when it is missing |
| Text.IsSpace | src/components/Rules/Rules.tsx:11-13 | defines `\s` and what `trim` strips: the ECMAScript white space and line terminators (tab, line feed, vertical tab, form feed, carriage return, space, U+00A0, U+1680, U+2000 to U+200A, U+2028, U+2029, U+202F, U+205F, U+3000, U+FEFF) |
| Text.Trim | src/components/Rules/Rules.tsx:12 | `trim` keeps the slice between the leading and the trailing white space; what it drops is all white space, and the result neither starts nor ends with white space |
| Text.LeadingSpace | src/components/Rules/Rules.tsx:12 | counts the white space at the front: everything before the count is white space, and the next character is not |
| Text.TrailingSpace | src/components/Rules/Rules.tsx:12 | counts the white space at the end: everything after the cut is white space, and the character before it is not |
| Text.TrimCharacterized | src/components/Rules/Rules.tsx:12 | any split of a string into white space, a middle with no white space at either end, and white space has that middle as its trim |
| Text.TrimOfTrimmed | src/components/Rules/Rules.tsx:12 | a string with no white space at either end is its own trim |
| Text.TrimIgnoresPadding | src/components/Rules/Rules.tsx:57 | adding white space around a string does not change its trim |
| Text.TrimEmptyIffBlank | src/components/Rules/Rules.tsx:23 | the trim is empty exactly when the string is all white space |
| Text.LowerChar | src/components/Rules/Rules.tsx:9 | `toLowerCase` of one character: the result is never a capital, a capital `A`-`Z` becomes its small letter 0x20 above, any other non-capital stays, and white space stays white space |
| Text.Lower | src/components/Rules/Rules.tsx:9 | `toLowerCase` keeps the length and leaves no upper-case letter (`LowerOfLower` and `LowerConcat` describe the rest) |
| Text.LowerOfLower | src/components/Rules/Rules.tsx:9 | a string without capitals is its own lower case, so lower-casing is idempotent |
| Text.LowerConcat | src/components/Rules/Rules.tsx:57 | lower-casing works character by character and distributes over concatenation |
| Text.SpaceUnderLower | src/components/Rules/Rules.tsx:57 | characters with the same lower case are both white space or both not |
| Text.IncludesIff | src/components/Rules/Rules.tsx:60-61 | `includes` holds exactly when the query occurs at some position |
| Text.IncludesNeedsFirst | src/components/Rules/Rules.tsx:60-61 | a string lacking the query's first character does not include the query |
| Text.Includes | src/components/Rules/Rules.tsx:60-61 | every string includes the empty query, and a string only includes a query no longer than itself |
| Text.Split | src/components/Rules/Rules.tsx:23 | `split('\n')` gives at least one piece, and no piece contains the separator |
| Text.JoinSplit | src/components/Rules/Rules.tsx:23 | joining the pieces of a split with the separator gives back the string |
| Text.SplitWithoutSep | src/components/Rules/Rules.tsx:23 | a string without the separator splits into itself alone |
| Text.SplitAtFirst | src/components/Rules/Rules.tsx:23 | the first piece runs up to the first separator |
| Text.NatToDecimal | src/components/Rules/Rules.tsx:130 | `String(n)` is a non-empty string of digits with no leading zero |
| Text.IntToDecimal | src/components/Rules/Rules.tsx:51 | `String(n)` of an integer: the digits of a non-negative one read back as `n`; a negative one is a minus sign followed by the digits of `-n` |
| Text.ParseNatToDecimal | src/components/Rules/Rules.tsx:130 | reading the decimal form of `n` back gives `n` |
| Text.ParseLeadingZeros | src/components/Rules/Rules.tsx:130 | zeros put in front of a numeral do not change its value |
| Text.PadStart | src/components/Rules/Rules.tsx:130 | `padStart(w, c)` has length `max(|s|, w)`, ends with `s`, and everything in front of `s` is `c` |
| Slug.Retain | src/components/Rules/Rules.tsx:10-11 | `replace(/[^class]/g, '')` keeps only characters of the class, and never lengthens the string |
| Slug.RetainConcat | src/components/Rules/Rules.tsx:10-11 | the removal works character by character over a concatenation |
| Slug.RetainAll | src/components/Rules/Rules.tsx:11 | a string made only of kept characters is unchanged |
| Slug.RetainNarrower | src/components/Rules/Rules.tsx:10-11 | filtering by a wide class and then a narrower one is filtering by the narrower one |
| Slug.DecomposeChar | src/components/Rules/Rules.tsx:10 | NFD leaves a character below U+00C0 alone, and otherwise gives one or two characters; two means an ASCII letter followed by a combining mark |
| Slug.NfdConcat | src/components/Rules/Rules.tsx:10 | NFD works character by character over a concatenation |
| Slug.NfdOfPlain | src/components/Rules/Rules.tsx:10 | text below U+00C0 is its own NFD |
| Slug.Nfd | src/components/Rules/Rules.tsx:10 | NFD never shortens the text and at most doubles it, since each character gives one or two |
| Slug.IsCombiningMark | src/components/Rules/Rules.tsx:10 | `[\u0300-\u036f]`: a combining mark is never white space and never passes the `[a-z0-9\s-]` filter |
| Slug.StripAccents | src/components/Rules/Rules.tsx:10 | no combining mark in U+0300 to U+036F is left, and text below U+00C0 comes through unchanged |
| Slug.CollapseSpace | src/components/Rules/Rules.tsx:13 | `replace(/\s+/g, '-')` leaves no white space; every character it leaves is a dash or comes from the input (that a whole run becomes one dash is `CollapseRun`) |
| Slug.CollapseWithoutSpace | src/components/Rules/Rules.tsx:13 | a string without white space is unchanged |
| Slug.CollapseRun | src/components/Rules/Rules.tsx:13 | a whole run of white space after a word, however long, becomes a single dash |
| Slug.CollapsePrefix | src/components/Rules/Rules.tsx:13 | a prefix without white space passes through unchanged |
| Slug.CollapseRunHead | src/components/Rules/Rules.tsx:13 | a run of white space at the front becomes one dash, and the rest is collapsed on its own |
| Slug.LeadingSpaceOfRun | src/components/Rules/Rules.tsx:13 | the white-space run at the front of `w + b` is exactly `w` when `b` does not start with white space |
| Slug.CollapseKeepsWords | src/components/Rules/Rules.tsx:13 | collapsing keeps every letter and digit, in order |
| Slug.TrimKeepsWords | src/components/Rules/Rules.tsx:12 | trimming keeps every letter and digit, in order |
| Slug.CleanConcat | src/components/Rules/Rules.tsx:9-11 | lowering, stripping accents and filtering distribute over concatenation |
| Slug.IsSlugClass | src/components/Rules/Rules.tsx:11 | `[a-z0-9\s-]`: exactly the characters of a finished slug, plus white space |
| Slug.Fold | src/components/Rules/Rules.tsx:9-10 | `toLowerCase()`, then `normalize('NFD')`, then dropping the marks: no combining mark is left |
| Slug.Clean | src/components/Rules/Rules.tsx:9-11 | after lowering, stripping accents and filtering, only characters of `[a-z0-9\s-]` are left |
| Slug.Slugify | src/components/Rules/Rules.tsx:7-14 | every character of a slug is `a`-`z`, `0`-`9` or `-`, so no white space survives |
| Slug.FoldKeepsPlain | src/components/Rules/Rules.tsx:9-11 | lower-case letters, digits, dashes and spaces pass the first three steps unchanged |
| Slug.SlugifyOfPlain | src/components/Rules/Rules.tsx:7-14 | on a string of lower-case letters, digits, dashes and spaces that does not start or end with a space, the slug is the string with each space run collapsed |
| Slug.SlugifyOfCleanWords | src/components/Rules/Rules.tsx:7-14 | when the first three steps leave a string that starts and ends with a letter or digit, the trim does nothing and the slug is that string with its space runs collapsed |
| Slug.SlugifyOfSlug | src/components/Rules/Rules.tsx:7-14 | a string of slug characters is its own slug |
| Slug.SlugifyIdempotent | src/components/Rules/Rules.tsx:7-14 | `slugify(slugify(x)) == slugify(x)` |
| Slug.SlugifyKeepsWords | src/components/Rules/Rules.tsx:7-14 | the slug keeps exactly the letters and digits that survive lower-casing, accent removal and filtering, in order |
| Slug.SlugifyIgnoresCase | src/components/Rules/Rules.tsx:9 | lower-casing the text first does not change its slug |
| Slug.CollapseWord | src/components/Rules/Rules.tsx:13 | a single space after a word becomes a single dash |
| Slug.CollapseJoin | src/components/Rules/Rules.tsx:13 | words joined by single spaces collapse to the same words joined by dashes |
| Slug.CleanJoin | src/components/Rules/Rules.tsx:9-11 | the first three steps work word by word across single spaces |
| Slug.SlugifyWordByWord | src/components/Rules/Rules.tsx:7-14 | if each space-separated word cleans to a non-empty run of ASCII letters and digits, the slug is those cleaned words joined by dashes |
| Slug.SlugifyAroundSpaces | src/components/Rules/Rules.tsx:7-14 | two slug words with a run of spaces between them give the words joined by one dash |
| Slug.SlugifyDoubleSpace | src/components/Rules/Rules.tsx:13 | `slugify("a  b") == "a-b"`: two spaces give one dash |
| Slug.CleanOfAsciiWord | src/components/Rules/Rules.tsx:9-11 | an ASCII word loses nothing in the first three steps except its capitals |
| Slug.SlugifyMenu | src/components/Rules/Rules.tsx:7-14 | `slugify("Menú de Descanso!") == "menu-de-descanso"` |
| Slug.SlugifyNoCombatLogging | src/components/Rules/Rules.tsx:7-14 | `slugify("No Combat Logging") == "no-combat-logging"` |
| Slug.SlugifyRegla | src/components/Rules/Rules.tsx:51 | the fallback title `"regla"` is its own slug |
| Slug.SlugifyA | src/components/Rules/Rules.tsx:7-14 | `slugify("A") == "a"` |
| Slug.SlugifyEmpty | src/components/Rules/Rules.tsx:8 | the slug of the empty string is empty |
| RichText.RunEnd | src/components/Rules/Rules.tsx:19 | the white-space run starting at `i` ends at the first non-space character or at the end of the string |
| RichText.LastNewline | src/components/Rules/Rules.tsx:19 | finds the last line break in a range, or reports that the range has none |
| RichText.SeparatorEnd | src/components/Rules/Rules.tsx:19 | a match found at `q` is at least two characters long |
| RichText.SeparatorEndSpec | src/components/Rules/Rules.tsx:19 | the match found at `q` is a blank-line separator and the longest one starting there; when none is found, no separator starts at `q` |
| RichText.SplitFromShape | src/components/Rules/Rules.tsx:19 | the scan yields one more block than separators, and putting them back together gives the text |
| RichText.SplitFromSeps | src/components/Rules/Rules.tsx:19 | every separator the scan cuts out is a blank-line match |
| RichText.SplitFromLeftmost | src/components/Rules/Rules.tsx:19 | no separator starts inside a block: each cut is at the leftmost match |
| RichText.SplitFromGreedy | src/components/Rules/Rules.tsx:19 | no separator could be extended into the text that follows it, whatever blocks come after |
| RichText.SplitBlocksSpec | src/components/Rules/Rules.tsx:19 | `split(/\n\s*\n/)` gives blocks and separators that rebuild the text; every separator is a blank-line match, no match starts inside a block, and no separator could take in more of the text after it |
| RichText.SplitFromSkip | src/components/Rules/Rules.tsx:19 | positions without a line break cannot start a separator |
| RichText.IsBlankLineSep | src/components/Rules/Rules.tsx:19 | defines what `/\n\s*\n/` matches as a whole: at least two characters, a line break at each end, white space only |
| RichText.SplitFrom | src/components/Rules/Rules.tsx:19 | the scan of `split` yields one more block than separators (the full description of the scan is in `SplitFromShape`, `SplitFromSeps`, `SplitFromLeftmost` and `SplitFromGreedy`) |
| RichText.SplitBlocks | src/components/Rules/Rules.tsx:19 | there is always at least one block, and the first one is where the text begins |
| RichText.Separators | src/components/Rules/Rules.tsx:19 | there is one separator fewer than blocks, and each one is a match of `/\n\s*\n/` |
| RichText.TrimEach | src/components/Rules/Rules.tsx:23 | `map(l => l.trim())` keeps the number of lines, and line `k` of the result is the trim of line `k` |
| RichText.NonEmpty | src/components/Rules/Rules.tsx:23 | `filter(Boolean)` keeps only non-empty lines, never more than it was given, and each one it keeps comes from its input |
| RichText.NonEmptyMembers | src/components/Rules/Rules.tsx:23 | a line is kept exactly when it is in the input and not empty |
| RichText.NonEmptyConcat | src/components/Rules/Rules.tsx:23 | `filter(Boolean)` works piece by piece over a concatenation, so it keeps the order of the lines |
| RichText.NonEmptyOfOne | src/components/Rules/Rules.tsx:23 | a single line is kept exactly when it is not empty; with the previous row this fixes the result line by line |
| RichText.TrimEachMembers | src/components/Rules/Rules.tsx:23 | the trimmed lines are exactly the trims of the raw lines |
| RichText.ContentLines | src/components/Rules/Rules.tsx:23 | each non-empty trimmed line of a block is non-empty, holds no line break, and has no white space at either end |
| RichText.TrimmedLinesShape | src/components/Rules/Rules.tsx:23 | the helper behind `ContentLines`: the same shape, for any pieces without a line break |
| RichText.IsListLine | src/components/Rules/Rules.tsx:24 | `l.startsWith('- ')`: exactly the lines of at least two characters that begin with a dash and a space |
| RichText.StripMarker | src/components/Rules/Rules.tsx:28 | putting `"- "` back in front of an item gives the line it came from |
| RichText.ClassifyBlock | src/components/Rules/Rules.tsx:23-35 | a list has one item per non-empty trimmed line, in order, and `"- "` plus an item gives back its line; a paragraph holds the raw block |
| RichText.ContentLinesOfRaw | src/components/Rules/Rules.tsx:23-24 | there are non-empty trimmed lines exactly when some raw line is not blank; all of them are list lines exactly when every non-blank raw line is one once trimmed |
| RichText.ClassifyBlockIsList | src/components/Rules/Rules.tsx:24 | a block is a list exactly when some line is not blank and every non-blank line starts with `"- "` once trimmed |
| RichText.ClassifyBlankBlock | src/components/Rules/Rules.tsx:32-35 | a block of nothing but white space, the empty block included, is a paragraph of the raw block |
| RichText.ParagraphByFirstLine | src/components/Rules/Rules.tsx:24-35 | a block whose first non-empty trimmed line does not start with `"- "` is shown as a paragraph of the raw block |
| RichText.ListItemsAreTrimmedLines | src/components/Rules/Rules.tsx:28 | a list item contains no line break and does not end in white space |
| RichText.Render | src/components/Rules/Rules.tsx:19-22 | one block is rendered for each piece of the split, in order, and block `k` is the classification of piece `k` |
| RichText.SampleRichText | src/components/Rules/Rules.tsx:17-40 | `"- uno\n- dos\n\nPárrafo simple"` becomes a list `["uno", "dos"]` followed by a paragraph `"Párrafo simple"` |
| Rules.Anchor | src/components/Rules/Rules.tsx:51-52 | every anchor starts with `"regla-"`; without a truthy id, the rest is made of slug characters only |
| Rules.IsTruthy | src/components/Rules/Rules.tsx:51 | a truthy id gives a non-empty `String(id)`; a string id is truthy exactly when it is non-empty |
| Rules.IdText | src/components/Rules/Rules.tsx:51 | `String(id)` is the string itself for a string id; for a non-negative number it is a numeral that reads back as the number; for a number it is never empty |
| Rules.AnchorBase | src/components/Rules/Rules.tsx:51 | with a truthy id the base is `String(id)` and not empty; otherwise it is made only of slug characters |
| Rules.Indexed | src/components/Rules/Rules.tsx:52 | `{ ...r, _anchor }`: the rule unchanged, with its anchor added, which starts with `regla-` |
| Rules.BuildIndex | src/components/Rules/Rules.tsx:48-54 | the index keeps the length and order of the rules and holds each rule unchanged with its anchor added; a missing list gives no rules |
| Rules.AnchorOfId | src/components/Rules/Rules.tsx:51-52 | a truthy id gives `"regla-" + String(id)`, whatever the title |
| Rules.AnchorOfNumericId | src/components/Rules/Rules.tsx:51 | a positive numeric id can be read back from its anchor |
| Rules.AnchorOfTitle | src/components/Rules/Rules.tsx:51-52 | without a truthy id, the anchor is `"regla-"` plus the slug of the title, or of `"regla"` when there is no title |
| Rules.AnchorOfUntitled | src/components/Rules/Rules.tsx:51 | an untitled rule without an id is anchored at `"regla-regla"` |
| Rules.AnchorOfEmptyTitle | src/components/Rules/Rules.tsx:51 | `??` keeps an empty title, so the anchor is `"regla-"` |
| Rules.AnchorIgnoresTitleCase | src/components/Rules/Rules.tsx:51 | titles that differ only in letter case give the same anchor |
| Rules.AnchorOfSlugTitle | src/components/Rules/Rules.tsx:51 | replacing a title by its slug leaves the anchor unchanged |
| Rules.DuplicateAnchors | src/components/Rules/Rules.tsx:48-54 | anchors are not unique: two rules titled `"A"` without ids both get `"regla-a"` |
| Rules.AnchorOfTextIdExample | src/components/Rules/Rules.tsx:51-52 | id `"5"` gives `"regla-5"` |
| Rules.AnchorOfZeroIdExample | src/components/Rules/Rules.tsx:51 | the numeric id `0` is falsy, so the title decides the anchor |
| Rules.AnchorOfTitleExample | src/components/Rules/Rules.tsx:51-52 | a rule titled `"No Combat Logging"` without an id gets `"regla-no-combat-logging"` |
| Rules.KeepMatching | src/components/Rules/Rules.tsx:59-62 | the filter keeps only rules of the index that match, and never adds any |
| Rules.NormalizeQuery | src/components/Rules/Rules.tsx:57 | the normalized query is empty exactly when the query is all white space, and it has no upper-case letter |
| Rules.SearchText | src/components/Rules/Rules.tsx:60-61 | `String(field ?? '').toLowerCase()` is empty for a missing field, keeps the field's length, and has no upper-case letter |
| Rules.Matches | src/components/Rules/Rules.tsx:60-61 | the empty query matches every rule, and a rule only matches a query no longer than its title or its description |
| Rules.Filter | src/components/Rules/Rules.tsx:56-63 | a blank query shows the index unchanged; otherwise the rules shown come from the index and are never more than it (the exact selection is `FilterSelects`) |
| Rules.MatchPositions | src/components/Rules/Rules.tsx:59-62 | the matching positions, in increasing order, are exactly the positions of the rules that match |
| Rules.KeepMatchingSelects | src/components/Rules/Rules.tsx:59-62 | the filter returns the rules at the matching positions, in index order |
| Rules.FilterBlankQuery | src/components/Rules/Rules.tsx:57-58 | the normalized query is empty exactly when the query is all white space, and such a query shows the index unchanged |
| Rules.FilterSelects | src/components/Rules/Rules.tsx:56-63 | any other query shows exactly the rules whose lower-cased title or description contains the normalized query, as an order-preserving subsequence |
| Rules.FilterMembership | src/components/Rules/Rules.tsx:59-62 | a rule is shown exactly when it is in the index and matches |
| Rules.KeepMatchingIdempotent | src/components/Rules/Rules.tsx:59-62 | filtering the kept rules again changes nothing |
| Rules.FilterIdempotent | src/components/Rules/Rules.tsx:56-63 | filtering the filtered rules with the same query changes nothing |
| Rules.LeadingSpaceUnderLower | src/components/Rules/Rules.tsx:57 | strings equal up to letter case have as much leading and trailing white space |
| Rules.TrimUnderLower | src/components/Rules/Rules.tsx:57 | strings equal up to letter case normalize to the same query |
| Rules.FilterIgnoresCase | src/components/Rules/Rules.tsx:57 | queries that differ only in letter case show the same rules |
| Rules.FilterIgnoresPadding | src/components/Rules/Rules.tsx:57 | white space around a query does not change the rules shown |
| Rules.NormalizePadded | src/components/Rules/Rules.tsx:57 | white space in front of a query does not change its normalized form |
| Rules.FilterPvpExample | src/components/Rules/Rules.tsx:56-63 | query `"PVP"` finds the rule titled `"PvP Zones"` and only that one |
| Rules.FilterCombExample | src/components/Rules/Rules.tsx:56-63 | query `" comb"` finds a rule through its description `"combate"` alone |
| Rules.Label | src/components/Rules/Rules.tsx:130 | `String(i + 1).padStart(2, '0')` has at least two digits and reads as `i + 1` |
| Rules.LabelInjective | src/components/Rules/Rules.tsx:149 | different positions get different numbers |
| Rules.LabelForm | src/components/Rules/Rules.tsx:130 | the first nine numbers are `0` followed by one digit; the others are the plain numeral |
| Rules.Sidebar | src/components/Rules/Rules.tsx:124-133 | one link per rule of the index, in order: link `k` carries `Label(k)`, the numeral for `k + 1` padded to at least two digits, points at `#` and the rule's anchor, and shows the rule's title |
| Rules.Content | src/components/Rules/Rules.tsx:139-175 | one card per rule the filter shows, in order: card `k` carries `Label(k)`, the numeral for `k + 1` over what is shown, its id is the rule's anchor, and it shows the rule's title and its description (empty when missing) cut into blocks |
| Rules.CardOf | src/components/Rules/Rules.tsx:140-166 | the card of a rule at position `k` carries `Label(k)`, the rule's anchor as its id, its title, and its description cut into blocks |
| Rules.Cards | src/components/Rules/Rules.tsx:139-175 | one card per shown rule, in order, card `k` numbered `Label(k)` and carrying that rule's anchor, title and rendered description |
| Rules.ContentMatchesSidebar | src/components/Rules/Rules.tsx:124-149 | with a blank query, every card has the number and anchor of its sidebar link |
| Rules.ContentRenumbers | src/components/Rules/Rules.tsx:130-149 | a rule numbered `02` in the sidebar is card `01` when it is the only match |

## Left out

- **Unicode.** `toLowerCase` and NFD are modelled on ASCII and Latin-1 only:
  - the lower case of `À`–`Þ` (without `×`) is 0x20 above;
  - the precomposed Latin-1 letters decompose into a base letter and one combining mark.

  Every other character maps to itself. Full Unicode case mapping and
  decomposition tables are not modelled. White space is the complete
  ECMAScript set.
- **Strings** are sequences of code points. JavaScript's UTF-16 code units,
  and so the lengths of characters outside the Basic Multilingual Plane, are
  not modelled.
- **Ids** are modelled as strings or integers only:
  - `String(n)` for floating-point ids and for the exponent form of very large
    numbers is not modelled;
  - boolean ids and object ids are not modelled.
- **Titles and descriptions** are modelled as strings or missing. The
  `String(...)` conversion of other JSON values (numbers, booleans, arrays) is
  not modelled. A `null` rule entry reads the same as a rule with no fields, so
  it is covered by `Rule(None, None, None)`.
- **GSAP and ScrollTrigger.** The entrance animations and their cleanup
  (lines 65-89) are calls into an animation library with no result that the
  page uses.
- **`copyLink`** (lines 91-94) reads `window.location` and writes to the
  clipboard. Both are browser I/O.
- **Markup and React.** The JSX markup, the static texts, the icons, the
  footer, `useMemo` caching and the `query` state are left out. The query is a
  parameter of `Filter` and `Content`. The sidebar and cards keep only the
  data the markup shows.
- **Other files.** The other components and the styling configuration of the
  site (the hero section, the team section, the rules tabs and the Tailwind
  configuration) are not part of this model. They hold timers, randomness and
  presentation only.
