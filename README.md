# GCC readiness navigator: a Dafny model of its data pipeline

The navigator is a client-side directory of AI agent vendors.

- **Scoring.** For every entry it sums five readiness sub-scores into a total and buckets the total into a tier: "Enterprise-Ready", "Emerging" or "Not Ready".
- **Filter options.** From the dataset it builds the option lists of the category, deployment and sector selectors.
- **Render pass.** On every control change it runs one pass over the entries:
  - it writes `_total` and `_tier` into each entry;
  - it keeps the entries that meet five optional criteria: free-text search, category, deployment, sector and GCC compliance;
  - it sorts them by one of four comparators;
  - it words the result count;
  - it builds one card per row, with HTML-escaped text, a clamped readiness percentage, capped tag chips and an optional profile link.

This project models that pipeline, as written in `assets/js/navigator.js`, and proves its properties.

- **Modules.** The modules follow the program's parts:
  - `Scoring`: `totalScore`, `tierFromTotal`.
  - `Agents`: the entry record, plus the annotated entry as a class with mutable `total`/`tier` fields.
  - `FilterOptions`: `uniqueSorted` and the lists built by `buildFilters`.
  - `Predicates`: the search haystack, the five criteria, `matchesCompliance`, and `filter`.
  - `Sorting`: the sort modes, the comparators, and an in-place sort of the row array.
  - `Cards`: `clamp`, the percentage, the count text, tags, links and card contents.
  - `Escape`: `escapeHtml`, `escapeAttr`.
  - `Render`: the `render` pass as methods over the annotated entries.
- **Supporting modules.** `Text` holds the string built-ins the code relies on: `trim`, `toLowerCase`, `includes`, `join`, `localeCompare`, `replaceAll`, and number-to-text. `Wrappers` holds `Option`.
- **No I/O.** The control values arrive as a `Criteria` value (search, category, deployment, sector, compliance, sort). The DOM output is returned as values: the rows, the count text and a list of `Card` records.

## Model

| member | source | states |
|---|---|---|
| Scoring.TotalIsSumOfDimensions | assets/js/navigator.js:7-10 | the total is the sum of the five named dimensions, in key order |
| Scoring.TotalDependsOnlyOnDimensions | assets/js/navigator.js:7-10 | two score maps that agree on the five dimensions have the same total |
| Scoring.TotalIgnoresOtherKeys | assets/js/navigator.js:7-10 | adding or changing a key outside the five leaves the total unchanged |
| Scoring.TotalBounds | assets/js/navigator.js:7-10 | with every dimension in 0..5 the total lies in 0..25 |
| Scoring.TotalExamples | assets/js/navigator.js:7-10 | absent scores and an empty map give 0; a non-numeric value counts 0 next to a 5 |
| Scoring.TierFromTotal | assets/js/navigator.js:12-16 | "Enterprise-Ready" iff t >= 18, "Emerging" iff 11 <= t < 18, "Not Ready" iff t < 11 |
| Scoring.TierMonotone | assets/js/navigator.js:12-16 | a larger total never gives a lower tier |
| Text.TrimStart | assets/js/navigator.js:47 | the result is a suffix, only whitespace was cut, and it does not start with whitespace |
| Text.TrimEnd | assets/js/navigator.js:47 | the result is a prefix, only whitespace was cut, and it does not end with whitespace |
| Text.TrimAllWhitespace | assets/js/navigator.js:47 | a query of whitespace only trims to the empty string |
| Text.TrimLowerCommute | assets/js/navigator.js:47 | trimming and lower-casing commute |
| Text.LowerConcat | assets/js/navigator.js:59-65 | lower-casing distributes over concatenation |
| Text.Contains | assets/js/navigator.js:67 | true exactly when the needle occurs at some position of the haystack |
| Text.NonEmpty | assets/js/navigator.js:65 | `filter(Boolean)` keeps exactly the non-empty parts |
| Text.NonEmptySingle | assets/js/navigator.js:65 | one part is kept exactly when it is non-empty |
| Text.NonEmptyConcat | assets/js/navigator.js:65 | the filter works part by part, so kept parts keep their order and count |
| Text.JoinStartsWithHead | assets/js/navigator.js:65 | a joined list starts with its first part |
| Text.JoinContains | assets/js/navigator.js:65 | every part occurs in the joined text |
| Text.Compare | assets/js/navigator.js:19 | the comparison is -1, 0 or 1, and 0 exactly for equal strings |
| Text.CompareAntisymmetric | assets/js/navigator.js:19 | swapping the operands negates the comparison |
| Text.CompareTransitive | assets/js/navigator.js:19 | "sorts no later than" is transitive |
| Text.NatToString | assets/js/navigator.js:80 | a count prints as at least one decimal digit and nothing else |
| Text.DecimalRoundTrip | assets/js/navigator.js:80 | reading the printed count back gives the count |
| Text.ReplaceAll | assets/js/navigator.js:129 | a string without the searched character is returned unchanged |
| Text.ReplaceAllAvoids | assets/js/navigator.js:129-133 | a replacement pass introduces no character absent from the replacement text |
| Text.ReplaceAllConcat | assets/js/navigator.js:129-133 | a replacement pass distributes over concatenation |
| Escape.EscapeHtml | assets/js/navigator.js:127-134 | the output contains none of < > " ' |
| Escape.EscapeHtmlIsPerCharacter | assets/js/navigator.js:127-134 | the five chained passes equal one left-to-right per-character encoding (so "&" first never double-escapes) |
| Escape.EscapeHtmlConcat | assets/js/navigator.js:127-134 | escaping distributes over concatenation |
| Escape.EscapeHtmlRoundTrip | assets/js/navigator.js:127-134 | decoding the five entities recovers the original text |
| Escape.EscapeAttr | assets/js/navigator.js:135-137 | the output contains none of < > " ' and no backtick |
| Escape.EscapeAttrIsEscapedWithoutBackticks | assets/js/navigator.js:135-137 | escapeAttr is escapeHtml of the text with its backticks removed |
| Escape.EscapeAttrRoundTrip | assets/js/navigator.js:135-137 | decoding gives back the original text minus its backticks |
| FilterOptions.Dedup | assets/js/navigator.js:19 | `[...new Set(values)]` has no repeats and the same members as the input |
| FilterOptions.SortStrings | assets/js/navigator.js:19 | the sort's result is ordered by the comparator and is a permutation of its input |
| FilterOptions.UniqueSorted | assets/js/navigator.js:18-20 | strictly sorted (so no duplicates), no empty value, and x is in it iff x is a non-empty input value |
| FilterOptions.StrictlySortedUnique | assets/js/navigator.js:18-20 | only one strictly sorted list holds a given set of values, so the result does not depend on the sort algorithm |
| FilterOptions.Categories | assets/js/navigator.js:23 | holds exactly the categories of the entries |
| FilterOptions.AllDeployments | assets/js/navigator.js:24 | holds exactly the deployments of all entries, absent lists counting as empty |
| FilterOptions.AllSectors | assets/js/navigator.js:25 | holds exactly the sectors of all entries, absent lists counting as empty |
| FilterOptions.BuildFilters | assets/js/navigator.js:22-25 | each option list is strictly sorted and holds exactly the non-empty values some entry carries |
| Predicates.MatchesCompliance | assets/js/navigator.js:36-44 | "uae"/"saudi"/"qatar" pass exactly when the gcc object is present and has that flag set; every other value passes |
| Predicates.FilterMembership | assets/js/navigator.js:54 | an entry is in `filter`'s result iff it is in the input and the callback keeps it |
| Predicates.PositionsIncrease | assets/js/navigator.js:54 | the kept positions are strictly increasing |
| Predicates.PositionsPick | assets/js/navigator.js:54 | `filter`'s result is the input read at the kept positions |
| Predicates.PositionsComplete | assets/js/navigator.js:54 | a position is kept iff the callback keeps that entry |
| Predicates.SelectMembership | assets/js/navigator.js:54-73 | an agent is kept iff it is in the input and meets all five criteria |
| Predicates.SelectPrefix | assets/js/navigator.js:54-73 | one more input entry is appended to the selection exactly when it matches |
| Predicates.SelectPositions | assets/js/navigator.js:54-73 | the rows are an order-preserving subsequence: the input at increasing positions, exactly the matching ones |
| Predicates.SelectUnfiltered | assets/js/navigator.js:54-73 | with all five criteria empty, every agent is kept, in order |
| Predicates.FirstRenderShowsAll | assets/js/navigator.js:154 | the first render, with no control set, selects every agent in order |
| Predicates.ClearingNeverRejects | assets/js/navigator.js:67-71 | clearing any one criterion keeps every agent that matched before |
| Predicates.WhitespaceSearchMatches | assets/js/navigator.js:47-67 | an empty or whitespace-only query matches every agent |
| Predicates.SearchIgnoresCase | assets/js/navigator.js:47-67 | queries that lower-case alike select alike |
| Predicates.SearchFindsAnyField | assets/js/navigator.js:59-67 | a query that lower-cases like the name, the category, any sector, any deployment, the brief or the recommended use case matches the agent |
| Predicates.SearchFindsName | assets/js/navigator.js:59-67 | searching for an agent's own name, in any letter case, finds it, whatever whitespace the name carries |
| Sorting.ParseSort | assets/js/navigator.js:75-78 | each of the four selector values gives its mode, and only that value does; any other value gives no mode |
| Sorting.OrderAntisymmetric | assets/js/navigator.js:75-78 | every comparator changes sign when its arguments swap |
| Sorting.OrderTransitive | assets/js/navigator.js:75-78 | every comparator's "goes no later than" is transitive |
| Sorting.SortedMeaning | assets/js/navigator.js:75-78 | score_desc: non-increasing totals with equal totals by ascending name; score_asc: the mirror; name_asc/name_desc: by name |
| Sorting.SwapBack | assets/js/navigator.js:75-78 | one insertion step keeps the insertion invariant and the array's multiset |
| Sorting.InsertRow | assets/js/navigator.js:75-78 | one insertion pass extends the sorted prefix by one and keeps the multiset |
| Sorting.SortRows | assets/js/navigator.js:75-78 | after `rows.sort` the array is in comparator order and holds the same rows |
| Cards.Clamp | assets/js/navigator.js:5 | the result is at least min, at most max when min <= max, and n when n is in range |
| Cards.RoundedShareIsFourTimes | assets/js/navigator.js:92 | for an integer total, Math.round(t / 25 * 100) is exactly 4t |
| Cards.PercentBounds | assets/js/navigator.js:92 | the percentage lies in 0..100, is 4t for totals in 0..25, and is 100 above and 0 below |
| Cards.CountTextWording | assets/js/navigator.js:80 | the text ends in " result" iff the count is 1, and in " results" otherwise |
| Cards.CountTextNumeral | assets/js/navigator.js:80 | the text starts with the count in decimal, followed by a space |
| Cards.TagsCapped | assets/js/navigator.js:113-114 | at most three deployment chips then at most three sector chips, each the escaped leading entry |
| Cards.TagsInert | assets/js/navigator.js:113-114 | no tag chip contains markup characters |
| Cards.ProfileLink | assets/js/navigator.js:119 | the profile link is present iff profile_url is present and non-empty, and is then its escapeAttr |
| Cards.CardsOfIndex | assets/js/navigator.js:88-124 | one card per row, card k built from row k |
| Cards.CardIsInert | assets/js/navigator.js:94-121 | no text on a card can open markup or leave an attribute, whatever the record holds |
| Cards.CardShowsRecord | assets/js/navigator.js:94-121 | the escaped name, category, tier and badges decode to the record's own text; the total is the raw total and the bar is in 0..100 |
| Render.Annotate | assets/js/navigator.js:55-57 | the visited entry's `_total` is its total score and `_tier` the tier of that total |
| Render.AnnotateAt | assets/js/navigator.js:54-57 | annotating entry i after entries 0..i-1 leaves entries 0..i annotated, even when an entry is listed twice |
| Render.FilterAnnotate | assets/js/navigator.js:54-73 | the rows are the selection of the input, and every input entry, kept or not, is annotated |
| Render.Arrange | assets/js/navigator.js:54-78 | fresh rows holding the selection, sorted when the selector names a mode and in input order otherwise, with every entry annotated |
| Render.KeptRows | assets/js/navigator.js:54-78 | whatever their order, the rows are input entries carrying their annotation |
| Render.BuildCards | assets/js/navigator.js:88-124 | the cards are those of the rows, in row order |
| Render.Render | assets/js/navigator.js:46-125 | the rows are a permutation of the selection (sorted by the named mode, else in input order); every entry is annotated; the count text and the cards are those of the rows |

## Left out

- DOM and event plumbing (lines 3, 27-33, 82-86, 123, 150-152) is not modelled: the option lists, rows, count text and cards are returned as values, and the criteria are an input value.
- `init`, `fetch`, the JSON parse and the error handler (lines 139-160) are asynchronous I/O and are not modelled; the dataset arrives as a parameter.
- `localeCompare` is modelled as ordinal comparison of code points (`Text.Compare`). It is a foreign locale routine, so only its sign is modelled.
- `toLowerCase` is modelled on ASCII letters only, because Unicode case mapping is a locale table outside the model.
- `Number(...)` coercion of score values is not reproduced. A score is an integer or non-numeric, and non-numeric counts 0. True, numeric strings and fractional scores are outside the model.
- `Math.round` is taken in exact reals (`Cards.Round`, floor of x + 1/2), so floating-point error is not modelled. For integer totals the percentage is exact.
- The HTML template text, the CSS class names and the mis-encoded bullet character (lines 94-121) are not modelled; a card is the record of the values interpolated into it.
- `escapeHtml` takes strings; its `String(str ?? "")` conversion of non-string values is modelled only as "absent becomes empty".
- `name` and `category` are required strings. An absent category behaves as the empty string at every place it is read. An absent name would make `localeCompare` throw in the source, and that is not modelled.
- The gcc flags are booleans; the truthiness of arbitrary JSON values behind `!!` is not modelled.
- `Agents.Agent.constructor` starts `total` at 0 and `tier` at "Not Ready", where the source leaves them undefined. Every render pass writes both before anything reads them.
- Sorting.SortRows: does not state stability. The model sorts by insertion sort, which is stable like the engine's sort, but the contract only states comparator order and permutation.
- Render.Render: the fact that each row is an input entry carrying its annotation is not restated in its contract. It follows from its multiset and annotation postconditions by `Render.KeptRows`.
- `Escape.Unescape` is a decoder that exists only in the model. It states the escaping round trips and is not part of the source.
- Two behaviours of the code are kept as written:
  - the filter callback annotates every entry it visits, before testing the criteria, so rejected entries are annotated too;
  - the profile link needs a non-empty `profile_url`, not merely a present one.
