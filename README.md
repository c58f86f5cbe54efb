# Recent History: the history text search, modelled in Dafny

Recent History is a browser extension that lists recently visited pages. Two
of its scripts replace the built-in history search with a local text search
over a snapshot of the browser history. `scripts/history-override.js` does
this on the full history page and `scripts/popup-search-fix.js` in the
toolbar popup. Both scripts:

- fetch the history once (the popup fetches again when a search runs and
  its cached rows are at least 30 seconds old or empty);
- turn every history item into a row carrying a *searchable* string: the
  title, the decoded title and an expansion of the URL (raw and decoded
  URL, host, path, query keys and values), all normalised the same way
  (NFKC, lower case, no zero-width characters, separator runs collapsed to
  one space, trimmed);
- answer a query by normalising it the same way, splitting it into tokens
  and keeping the rows whose searchable string contains every token.

The history page drops rows without a URL, sorts by last visit (most recent
first), caches for the life of the page and shows at most 300 matches. The
popup keeps rows in fetch order and reuses them for 30 seconds. It skips
rows without a URL, returns one result per `title|url` key (the first one
wins) and stops at 120 results. A counter makes sure a slow search never
overwrites the results of a newer one.

The project has five modules, one per file:

- `JsString` (`js_string.dfy`) models the ECMAScript string operations the
  scripts use: `.length` in UTF-16 units, `trim`, one-character
  `replaceAll`, `includes`, `split(/\s+/).filter(Boolean)` and `join`.
- `SearchText` (`search_text.dfy`) models the helpers both scripts contain
  word for word: `hasCjk`, `minQueryLength`, `safeDecode`, `normalize` and
  `extractUrlText`. Unicode NFKC, `toLowerCase`, `decodeURIComponent` and
  the URL parser enter as fields of a `Library` value, so every property
  holds whatever those library functions do, except `NormalizeIdempotent`,
  which assumes that NFKC and lower-casing leave `normalize`'s output
  unchanged (real NFKC does not always do so; see "Left out").
- `Snapshot` (`snapshot.dfy`) holds the history items, the row both loaders
  build, the query tokens, the length gate and the subsequence relation.
- `HistoryPage` (`history_page.dfy`) models `loadRows` and its cache, the
  search in `renderSearch`, and `escapeHtml`.
- `Popup` (`popup.dfy`) models `stripProtocol`, `loadHistoryRows` and its
  cache, `searchHistory`, and the `seq` guard in `render`.

Several operations are loops or update state in place. The model keeps
them imperative:

- `safeDecode`, `extractUrlText` and the `searchHistory` loop are methods,
  proved equal to functions about which the properties are proved.
- The two caches and the render counter are classes whose methods update
  their fields.

The helpers in `scripts/popup-search-fix.js:7-47` are the same code as
`scripts/history-override.js:18-40` and `:50-64`. Both scripts use the one
model in `SearchText`. The table cites the history page's copy.

**A query without tokens.** On the history page a query can pass the length
gate and still normalise to nothing, for example `"!!"`. Nothing guards the
empty token list, so the first 300 rows are shown
(`HistoryPage.SearchRowsWithoutTokens`). The popup returns nothing in that
case: its `if (!qn) return []` check is `Popup.PopupQueryContract`.

## Model

| member | source | states |
|---|---|---|
| JsString.IsSpace | scripts/history-override.js:181 | the characters `\s` matches and `trim` removes: ECMAScript white space and line terminators |
| JsString.IsLineTerminator | scripts/popup-search-fix.js:6 | the characters `.` does not match in `^(.*?):\/\/`: LF, CR, U+2028 and U+2029 |
| JsString.JsLength | scripts/history-override.js:173 | `.length` counts UTF-16 units: one for a character in the Basic Multilingual Plane, exactly two for a character outside it, so between one and two per character |
| JsString.JsLengthAppend | scripts/history-override.js:173 | the length of a concatenation is the sum of the lengths, so with the one-character values every string's length is fixed |
| JsString.TrimStart | scripts/history-override.js:172 | only white space is removed from the front, and what is left does not start with white space |
| JsString.TrimEnd | scripts/history-override.js:172 | only white space is removed from the end, and what is left does not end with white space |
| JsString.Trim | scripts/history-override.js:172 | the result is a slice of the input with only white space outside it, and it neither starts nor ends with white space |
| JsString.ReplaceAll | scripts/history-override.js:22 | a one-character `replaceAll` (also the four in `escapeHtml`, lines 101-104): with a non-empty replacement the text never gets shorter; per character it is `HistoryPage.ReplaceAllOne`, on absent characters `HistoryPage.ReplaceAllAbsent`, over concatenation `ReplaceAllAppend` |
| JsString.ReplaceAllAppend | scripts/history-override.js:22 | replacing a character distributes over concatenation |
| JsString.Includes | scripts/history-override.js:182 | `includes`: a string that occurs is no longer than the text, and "" occurs in every text; concatenation is `IncludesInConcat` |
| JsString.IncludesInConcat | scripts/history-override.js:182 | a substring of either part of a concatenation is a substring of the whole |
| JsString.WordLength | scripts/history-override.js:181 | the length of the leading non-space run: all characters before it are non-space and the one at it is space |
| JsString.SameWordLength | scripts/history-override.js:181 | the leading non-space run's length is fixed by where the first white space is |
| JsString.WordsOfWordThen | scripts/history-override.js:181 | a non-space run followed by nothing or by white space is the first token, and the rest gives the remaining tokens |
| JsString.WordsSpaceAfter | scripts/history-override.js:181 | white space appended at the end adds no token |
| JsString.WordsOfTrimStart | scripts/history-override.js:181 | leading white space does not change the tokens |
| JsString.WordsOfTrimEnd | scripts/history-override.js:181 | trailing white space does not change the tokens |
| JsString.WordsOfTrim | scripts/history-override.js:40 | `trim` does not change the tokens a later split finds |
| JsString.Words | scripts/history-override.js:181 | `split(/\s+/).filter(Boolean)`: the tokens are non-empty, occur in the input and contain no white space, and there are none exactly when the input is all white space; on a normal form they are exactly the words between its single spaces (`SearchText.JoinWordsOfNormalForm`) |
| JsString.Join | scripts/history-override.js:59 | every joined part occurs in the result, and joining nothing gives ""; joining the tokens of a normal form with " " gives it back (`SearchText.JoinWordsOfNormalForm`) |
| SearchText.IsCjk | scripts/history-override.js:18 | the ideograph class `[\u3400-\u9FFF\uF900-\uFAFF]` |
| SearchText.HasCjk | scripts/history-override.js:18 | true exactly when some character is in U+3400–U+9FFF or U+F900–U+FAFF |
| SearchText.MinQueryLength | scripts/history-override.js:19 | 1 exactly when the query contains such an ideograph, otherwise 2 |
| SearchText.IsZeroWidth | scripts/history-override.js:38 | the class `[\u200B-\u200D\uFEFF]` |
| SearchText.StripZeroWidth | scripts/history-override.js:38 | the result has no U+200B–U+200D or U+FEFF; one character is dropped exactly when it is one of those and kept otherwise |
| SearchText.StripZeroWidthAppend | scripts/history-override.js:38 | the removal works on each part of a concatenation separately, so together with the one-character case every other character is kept, in order |
| SearchText.DropSeparators | scripts/history-override.js:39 | removes a leading run of separators and nothing else: the result is a suffix, everything before it is a separator, and it does not start with one |
| SearchText.DropSeparatorsKeepsContent | scripts/history-override.js:39 | dropping the leading separator run loses no non-separator character |
| SearchText.IsSeparator | scripts/history-override.js:39 | the character class of the separator regular expression; every white-space character is in it |
| SearchText.Collapse | scripts/history-override.js:39 | the only separator left is the space, no two spaces are adjacent, no zero-width character is introduced, and a non-separator first character is kept; where the spaces go is `CollapseWords` |
| SearchText.SepWordLength | scripts/history-override.js:39 | the length of the leading run of non-separators: none before it is a separator and the character at it is one |
| SearchText.SepWords | scripts/history-override.js:39 | the maximal runs of non-separator characters, in order; each is non-empty and free of separators |
| SearchText.SepWordsOfDrop | scripts/history-override.js:39 | dropping leading separators does not change the runs |
| SearchText.CollapseCons | scripts/history-override.js:39 | a non-separator in front passes through the replacement unchanged |
| SearchText.CollapseAfterWord | scripts/history-override.js:39 | a run of non-separators in front passes through the replacement unchanged |
| SearchText.CollapseWords | scripts/history-override.js:39 | the words of the replaced text are exactly the maximal non-separator runs of the input, in order: each separator run becomes one space between two of them |
| SearchText.CollapseKeepsContent | scripts/history-override.js:39 | only separators are replaced: the non-separator characters of the output are those of the input, in order |
| SearchText.ConsKeepsCollapsed | scripts/history-override.js:39 | putting one allowed character before a collapsed string keeps it collapsed |
| SearchText.SliceKeepsCollapsed | scripts/history-override.js:39-40 | any slice of a collapsed string is still collapsed |
| SearchText.TrimCollapsedIsNormal | scripts/history-override.js:39-40 | trimming a collapsed string gives a string with no space at either end |
| SearchText.TrimKeepsContent | scripts/history-override.js:40 | trimming loses no non-separator character |
| SearchText.TrimStartKeepsContent | scripts/history-override.js:40 | removing leading white space loses no non-separator character |
| SearchText.TrimEndKeepsContent | scripts/history-override.js:40 | removing trailing white space loses no non-separator character |
| SearchText.Normalize | scripts/history-override.js:34-40 | the output has no leading or trailing space, no two adjacent spaces, no separator other than the space and no zero-width character (its content is `NormalizeKeepsContent`, its words `NormalizeWords`) |
| SearchText.NormalizeWords | scripts/history-override.js:34-40 | the words of the output are exactly the maximal non-separator runs of the NFKC, lower-cased text with zero-width characters removed, in order |
| SearchText.NormalizeKeepsContent | scripts/history-override.js:34-40 | with its spaces taken out, the output is exactly the characters of the NFKC, lower-cased text that are neither separators nor zero width, in order |
| SearchText.StripZeroWidthKeeps | scripts/history-override.js:38 | a string without zero-width characters is left unchanged |
| SearchText.CollapseKeeps | scripts/history-override.js:39 | a collapsed string is left unchanged |
| SearchText.NormalFormIsFixed | scripts/history-override.js:38-40 | the steps after the library calls leave a normal form unchanged |
| SearchText.NormalizeIdempotent | scripts/history-override.js:34-40 | normalising twice equals normalising once, provided NFKC and lower-casing leave the output alone; real NFKC does not always do so (U+0065 U+200B U+0301 loses its U+200B and then composes to U+00E9), so the program's `normalize` is not idempotent on every input |
| SearchText.NormalFormWords | scripts/history-override.js:181 | a normalised string has no tokens exactly when it is empty |
| SearchText.JoinWordsOfNormalForm | scripts/history-override.js:181 | a normal form is its tokens joined by single spaces: `split(/\s+/).filter(Boolean)` loses nothing, and `join(" ")` undoes it |
| SearchText.FirstWord | scripts/history-override.js:181 | a non-empty normal form splits into its first token and, after exactly one space, a shorter normal form whose tokens are the rest |
| SearchText.Decoded | scripts/history-override.js:20-33 | the value `safeDecode` returns; its contract is `SafeDecodeIsBoundedDecoding` and `DecodeStepsRun` |
| SearchText.DecodeSteps | scripts/history-override.js:23-31 | at most `budget` decode steps, leaving the loop on a failure (the `catch`) or a step that changes nothing; characterised by `DecodeStepsRun` |
| SearchText.SafeDecode | scripts/history-override.js:20-33 | the loop computes `Decoded`: "" for "", otherwise `+` becomes `%20` and at most two decode steps follow, stopping at a failure or a no-op |
| SearchText.DecodeStepsRun | scripts/history-override.js:23-31 | the result is reached by k ≤ budget steps that each changed the value, and when k is below the budget one more step would fail or change nothing |
| SearchText.ReplacePlusLeavesNoPlus | scripts/history-override.js:22 | no `+` is left after the replacement |
| SearchText.SafeDecodeIsBoundedDecoding | scripts/history-override.js:20-32 | "" for "", otherwise at most two changing decode steps from the `+`-free text, the last good value kept, stopping early only where one more step would fail or change nothing |
| SearchText.ParamWords | scripts/history-override.js:55-58 | four words per query parameter |
| SearchText.ParamWordsHasParam | scripts/history-override.js:57 | parameter p contributes key, value, decoded key and decoded value at positions 4p to 4p+3 |
| SearchText.ParamWordsStep | scripts/history-override.js:56-57 | one more parameter appends its key, value, decoded key and decoded value |
| SearchText.UrlText | scripts/history-override.js:50-64 | the blob `extractUrlText` returns; its contract is `UrlTextDegrades`, `UrlTextPrefixes`, `UrlTextCoversParts` and `UrlTextCoversParams` |
| SearchText.UrlTextParsed | scripts/history-override.js:52-59 | for a URL that parses, the blob is the raw and decoded URL, host, decoded host, path, decoded path and the joined parameters, separated by spaces |
| SearchText.ExtractUrlText | scripts/history-override.js:50-64 | the method with its parameter loop computes `UrlText` |
| SearchText.UrlTextDegrades | scripts/history-override.js:50-63 | "" for an empty URL; exactly `url + " " + safeDecode(url)` when the URL does not parse; otherwise the result starts with that string |
| SearchText.UrlTextPrefixes | scripts/history-override.js:52-59 | the blob is built by appending host, decoded host, path, decoded path and the joined parameters, each after a space |
| SearchText.IncludesSuffix | scripts/history-override.js:59 | the last appended piece occurs in the blob |
| SearchText.UrlTextCoversParts | scripts/history-override.js:52-59 | raw and decoded URL, host and path all occur in the blob |
| SearchText.UrlTextCoversParams | scripts/history-override.js:55-59 | every query key and value, raw and decoded, occurs in the blob |
| Snapshot.OrEmpty | scripts/history-override.js:74-75 | `x \|\| ""`: a missing string field reads as "" |
| Snapshot.MatchesAll | scripts/history-override.js:182 | `tokens.every((t) => hay.includes(t))` (also popup-search-fix.js line 128): every token occurs in the text |
| Snapshot.SearchableText | scripts/history-override.js:77 | the searchable text is in normal form |
| Snapshot.MakeRow | scripts/history-override.js:74-84 | title and URL default to ""; a present visit count and visit time are copied and a missing one is 0; the searchable text is in normal form |
| Snapshot.NormalFormTokens | scripts/history-override.js:181 | the words of a normal form are non-empty and free of separators, and there are none exactly when it is empty |
| Snapshot.QueryTokens | scripts/history-override.js:180-181 | no token contains white space; the full shape is `QueryTokensShape` |
| Snapshot.QueryTokensShape | scripts/history-override.js:180-181 | tokens are non-empty and contain no separator, and there are none exactly when the normalised query is empty |
| Snapshot.PassesLengthGate | scripts/history-override.js:173 | a query that passes is non-empty, and any query of two characters or more passes; the exact cases are `LengthGateCases` |
| Snapshot.LengthGateCases | scripts/history-override.js:173 | the gate fails exactly for the empty query and for a single non-ideograph character in the Basic Multilingual Plane |
| Snapshot.SubsequenceEmpty | scripts/history-override.js:182 | the empty list is a subsequence of any list |
| Snapshot.SubsequenceExtend | scripts/history-override.js:182 | keeping or dropping one more element at the end preserves the subsequence relation |
| Snapshot.SubsequencePrefix | scripts/history-override.js:182 | a prefix of a subsequence is a subsequence |
| Snapshot.Take | scripts/history-override.js:182 | `.slice(0, n)`: a prefix of the list, exactly n elements long when the list is longer, the whole list otherwise |
| HistoryPage.RowOf | scripts/history-override.js:73-76 | an item gets a row exactly when its URL is non-empty, and that row's URL is non-empty |
| HistoryPage.MapItems | scripts/history-override.js:72-85 | one entry per item, in fetch order, each the item's row or nothing |
| HistoryPage.MapAll | scripts/history-override.js:72-73 | `.map(f)`: one image per element, in order |
| HistoryPage.MapAllAppend | scripts/history-override.js:72-73 | `.map` works on each part of a concatenation separately |
| HistoryPage.Present | scripts/history-override.js:86 | `.filter(Boolean)` keeps exactly the present rows; one entry becomes its row or nothing |
| HistoryPage.PresentAppend | scripts/history-override.js:86 | the filter works on each part of a concatenation separately, so every present row is kept as often as it occurs and in order |
| HistoryPage.BuildRows | scripts/history-override.js:72-86 | the unsorted rows, no more than the items; exactly those of the items with a URL by `BuildRowsKeepsItemsWithUrl`, batch by batch by `BuildRowsAppend` |
| HistoryPage.BuildRowsAppend | scripts/history-override.js:72-86 | the unsorted rows of two batches of items are those of the first batch followed by those of the second |
| HistoryPage.BuildRowsKeepsItemsWithUrl | scripts/history-override.js:72-86 | the unsorted rows are exactly the rows made from the items with a URL: none is missing and none has an empty URL |
| HistoryPage.InsertByRecency | scripts/history-override.js:87 | inserting a row adds exactly that row and keeps the list sorted by descending visit time |
| HistoryPage.PrependNewest | scripts/history-override.js:87 | a row at least as recent as the head of a sorted list can go in front and the list stays sorted |
| HistoryPage.HeadBoundsRest | scripts/history-override.js:87 | the head of a sorted list is at least as recent as everything made from its tail and a less recent row |
| HistoryPage.SortByRecency | scripts/history-override.js:87 | the result is a permutation of the input, sorted by descending `lastVisitTime` |
| HistoryPage.InsertByRecencyStable | scripts/history-override.js:87 | insertion keeps the order among rows with equal visit time |
| HistoryPage.SortByRecencyStable | scripts/history-override.js:87 | the sort is stable: rows with equal `lastVisitTime` keep their fetch order |
| HistoryPage.IndexRows | scripts/history-override.js:72-87 | the index: no more rows than items, sorted most recent first; its full contract is `IndexRowsContract` |
| HistoryPage.IndexRowsContract | scripts/history-override.js:72-87 | the index holds exactly the rows built from items with a URL, each built by `MakeRow` (so searchable text and defaults as there), sorted most recent first with ties in fetch order |
| HistoryPage.HistoryCache.constructor | scripts/history-override.js:66 | the cache starts empty |
| HistoryPage.HistoryCache.LoadRows | scripts/history-override.js:67-89 | once set, the cache is returned unchanged; otherwise the index of the fetched items is stored and returned |
| HistoryPage.LoadRowsTwice | scripts/history-override.js:67-68 | a second load returns the first index whatever the store returns by then, even when that index is empty |
| HistoryPage.Matching | scripts/history-override.js:182 | `rows.filter(...)` with the every-token test, never longer than the rows; its contract is `MatchingContract`, `MatchingOne`, `MatchingAppend` and `MatchingIsSubsequence` |
| HistoryPage.MatchingContract | scripts/history-override.js:182 | every kept row contains every token, and every row that does is kept (how often and in which order is `MatchingOne` with `MatchingAppend`) |
| HistoryPage.MatchingOne | scripts/history-override.js:182 | one row is kept exactly when it contains every token |
| HistoryPage.MatchingAppend | scripts/history-override.js:182 | the filter works on each part of a concatenation separately, so each matching row is kept as often as it occurs, in order, and nothing else is |
| HistoryPage.MatchingIsSubsequence | scripts/history-override.js:182 | the matches keep the order of the index |
| HistoryPage.SearchRows | scripts/history-override.js:172-182 | no search exactly when the trimmed query fails the length gate; otherwise at most 300 rows, no more than the index holds; see `SearchRowsGate` and `SearchRowsSound` |
| HistoryPage.SearchRowsGate | scripts/history-override.js:172-177 | no search runs exactly when the trimmed query is empty or a single non-ideograph UTF-16 unit |
| HistoryPage.TakeMatchingSound | scripts/history-override.js:182 | the result is exactly the first min(n, number of matches) matches, an ordered subsequence of the rows, each containing every token; below the cap no matching row is missing |
| HistoryPage.SearchRowsSound | scripts/history-override.js:172-182 | the results are exactly the first min(300, number of matches) matches in index order (the most recent ones), each containing every query token; below 300 no matching row is missing |
| HistoryPage.SearchRowsWithoutTokens | scripts/history-override.js:180-182 | a query that passes the gate but normalises to "" shows the first 300 rows |
| HistoryPage.MatchingEverything | scripts/history-override.js:182 | an empty token list passes every row |
| HistoryPage.EscapeHtml | scripts/history-override.js:99-104 | null or undefined gives "", and the output is never shorter than the input; its contract is `EscapeHtmlContract` |
| HistoryPage.ReplaceAllAbsent | scripts/history-override.js:101-104 | replacing an absent character changes nothing |
| HistoryPage.ReplaceAllOne | scripts/history-override.js:101-104 | on one character, a replacement either rewrites it or leaves it |
| HistoryPage.EscapeHtmlChar | scripts/history-override.js:99-104 | the four replacements in order turn each character into its own entity, `&` included, with no double escaping |
| HistoryPage.EscapeAmpersand | scripts/history-override.js:101-104 | `&` becomes `&amp;`, which the later replacements leave alone |
| HistoryPage.LaterStagesKeep | scripts/history-override.js:102-104 | the `<`, `>` and `"` replacements leave a string without those characters unchanged |
| HistoryPage.EscapeHtmlIsPerChar | scripts/history-override.js:99-104 | the chained replacements escape each character independently |
| HistoryPage.UnescapeEach | scripts/history-override.js:99-104 | reading the entities back recovers the input |
| HistoryPage.UnescapeChar | scripts/history-override.js:99-104 | reading back an escaped character followed by anything recovers that character first |
| HistoryPage.UnescapeEntity | scripts/history-override.js:101-104 | each of the four entities reads back as its own character, whatever follows it |
| HistoryPage.EscapeEachIsSafe | scripts/history-override.js:99-104 | no `<`, `>` or `"` remains |
| HistoryPage.EscapeHtmlContract | scripts/history-override.js:99-104 | null or undefined gives ""; the output has no `<`, `>` or `"`; nothing is lost, since unescaping gives back the input |
| Popup.SchemeEnd | scripts/popup-search-fix.js:6 | the lazy `^(.*?):\/\/` match ends just after a `://` with no earlier `://` and no line terminator before it |
| Popup.SchemeEndFinds | scripts/popup-search-fix.js:6 | the match ends after the first `://` when no line terminator precedes it |
| Popup.WithoutTrailingSlash | scripts/popup-search-fix.js:6 | at most one `/` is removed, only from the end, and the string is unchanged exactly when it does not end with `/` |
| Popup.StripProtocol | scripts/popup-search-fix.js:6 | "" for a missing URL, never longer than the URL; its contract is `StripProtocolContract` |
| Popup.StripProtocolContract | scripts/popup-search-fix.js:6 | "" for a missing or empty URL; everything up to the first `://` is dropped when no line break precedes it, otherwise nothing; then one trailing `/` at most |
| Popup.PopupRows | scripts/popup-search-fix.js:97-108 | one row per fetched item, in fetch order, no filtering |
| Popup.PopupCache.constructor | scripts/popup-search-fix.js:81-84 | timestamp 0 and no rows |
| Popup.PopupCache.ServesAt | scripts/popup-search-fix.js:88 | the freshness test: fewer than 30000 ms since the last fetch and at least one cached row |
| Popup.PopupCache.LoadHistoryRows | scripts/popup-search-fix.js:86-111 | the cached rows are returned untouched exactly when `now - ts < 30000` and there are rows; otherwise `ts` becomes `now` and the rows are rebuilt from the fetch |
| Popup.PopupCache.SearchHistory | scripts/popup-search-fix.js:113-144 | a rejected query returns [] without touching the cache; otherwise the cache is loaded as above and the result is the entries of the first 120 survivors |
| Popup.ReloadWithinTtl | scripts/popup-search-fix.js:86-90 | within 30 seconds of a fetch that produced rows, a load returns those rows whatever the store returns |
| Popup.ReloadAfterEmptyFetch | scripts/popup-search-fix.js:88 | an empty fetch is never served from the cache |
| Popup.PopupQuery | scripts/popup-search-fix.js:114-120 | a query that fails the length gate is rejected, and no token is empty; its contract is `PopupQueryContract` |
| Popup.PopupQueryContract | scripts/popup-search-fix.js:114-120 | the query is rejected exactly when the gate fails or it normalises to ""; otherwise there is at least one token, no token is empty or holds a separator, and the tokens match the history page's |
| Popup.ToEntry | scripts/popup-search-fix.js:134-139 | an entry copies the row's URL, visit time and count; its title is the row's title, or the URL when the title is empty |
| Popup.Entries | scripts/popup-search-fix.js:134-139 | one entry per kept row, in order |
| Popup.FilterHistory | scripts/popup-search-fix.js:122-143 | the loop with its `seen` set and break at 120 returns the entries of the first 120 survivors |
| Popup.FilterStep | scripts/popup-search-fix.js:125-140 | a skipped row leaves the survivors as they are; a pushed row extends the survivors, the `seen` keys and the entries by exactly that row |
| Popup.Eligible | scripts/popup-search-fix.js:126-128 | the row has a non-empty URL and contains every token, so the loop does not skip it before the key test |
| Popup.SurvivorsStep | scripts/popup-search-fix.js:125-132 | one more row extends the survivors exactly when it is eligible and its key is new |
| Popup.KeysAppend | scripts/popup-search-fix.js:132 | keeping one more row adds exactly its key to the seen set |
| Popup.Key | scripts/popup-search-fix.js:130 | the de-duplication key `title\|url`; that different rows can share it is `KeyCanCollide` |
| Popup.Survivors | scripts/popup-search-fix.js:125-141 | the rows the loop keeps without the cap, never more than the rows; see the `Survivors…` lemmas |
| Popup.KeptRows | scripts/popup-search-fix.js:125-141 | at most 120 rows and no more than the input; its contract is `KeptRowsContract` |
| Popup.SurvivorsPrefix | scripts/popup-search-fix.js:125-141 | later rows only append to the survivors, so stopping early yields a prefix |
| Popup.SurvivorsEligible | scripts/popup-search-fix.js:126-128 | every survivor is a row with a URL containing every token |
| Popup.SurvivorsCoverKeys | scripts/popup-search-fix.js:130-132 | the key of every eligible row is among the survivors' keys |
| Popup.SurvivorsDistinct | scripts/popup-search-fix.js:130-132 | no two survivors share a `title\|url` key |
| Popup.SurvivorsInOrder | scripts/popup-search-fix.js:125 | survivors keep the row order |
| Popup.SurvivorsAreFirstOfKey | scripts/popup-search-fix.js:125-132 | the survivors are exactly the first eligible row of each key |
| Popup.KeptRowsContract | scripts/popup-search-fix.js:125-141 | the results are the first survivors, at most 120, in row order, each with a URL and every token, each the first eligible row of its key, no key twice; below 120, every eligible key is represented |
| Popup.EntriesShowSomething | scripts/popup-search-fix.js:134-136 | every result has a non-empty title and URL |
| Popup.KeyCanCollide | scripts/popup-search-fix.js:130 | rows differing in both title and URL can share a key when a title contains `\|` |
| Popup.PopupController.constructor | scripts/popup-search-fix.js:163 | the counter starts at 0 |
| Popup.PopupController.BeginRender | scripts/popup-search-fix.js:166-174 | every render increments the counter and takes its value as ticket; a short query shows the default view at once |
| Popup.PopupController.FinishRender | scripts/popup-search-fix.js:176-177 | results are applied exactly when the ticket still equals the counter; otherwise nothing changes |
| Popup.OverlappingRenders | scripts/popup-search-fix.js:166-177 | when a newer render starts before an older search finishes, the newer render's outcome is shown, whichever of the two searches finishes first |

## Left out

- DOM rendering and event wiring: `renderRows`, `buildItem`, the input cloning, click and keyup handlers, and showing and hiding containers. A render's outcome is modelled as a `View` value.
- The 120 ms debounce timers (`setTimeout`/`clearTimeout`). Only the `seq` counter rule is modelled.
- `chrome.history.search`, `chrome.tabs.create`, `chrome.i18n`, `chrome.runtime.getURL` and `faviconUrl`: these are browser APIs. The fetch result is an input sequence, and `Date.now()` is the `now` parameter. The `maxResults` limits (5000 and 3000) belong to the fetch and are not modelled.
- `formatTime`: it depends on `Date` and the local time zone.
- Unicode NFKC, `toLowerCase`, `decodeURIComponent` and WHATWG URL parsing are library code. They are fields of `Library` and left unconstrained, so every property holds whatever they do, except `NormalizeIdempotent`, which assumes that NFKC and lower-casing leave `normalize`'s output unchanged. The URL parser yields only what the blob uses: host name, path and query pairs.
- NormalizeIdempotent: holds only under that premise. Real NFKC breaks it: U+0065 U+200B U+0301 is NFKC-stable, `normalize` strips the U+200B, and a second `normalize` composes U+0065 U+0301 to U+00E9, so the program's `normalize` is not idempotent on every input.
- async/await interleaving: each async function is a sequential method. `render` is split at its `await` into `BeginRender` and `FinishRender`, so any interleaving of renders can be written as a sequence of calls.
- Strings are sequences of Unicode scalar values. Lone surrogate code units cannot be represented. `.length` is modelled as UTF-16 units.
- `lastVisitTime` is a real number, so NaN and the infinities are not modelled. `item?.x || 0` is modelled as "missing gives 0", so a present `NaN` is not modelled either.
- A `null` history item reads as an item with every field missing. A `null` fetch result is modelled as an empty fetch.
- The history page search runs over the rows loaded when the page opened. The popup's `row?.url` test on a null row cannot arise, because every row is built by the loader.
