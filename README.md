# JUFO level resolution, modelled in Dafny

`js/jufo.js` adds a JUFO badge (Finnish Publication Forum level "1", "2" or "3", or "NA") to each publication a scholar page lists. It turns noisy bibliographic metadata into a level through a chain of lookups:

- `fetchJufoByIssn` queries the JUFO REST API by ISSN. It tries the raw value, then the hyphenated 8-character form, then the bare digits. It puts exact-ISSN matches first and reads the level of the first detail record that has one. The result, null included, goes into an ISSN cache.
- `fetchJufoByName` queries by name. It stably sorts the rows by how close their normalised name length is to the query's, and takes the first valid level. The result goes into a name cache keyed by the lower-cased, trimmed name.
- `getRankSpan` probes ISSN1 and then ISSN2. It falls back to the element's text as a name.
- `ensureByQuery` runs a Crossref bibliographic search and collects ISSNs and distinct container titles. It applies hint rules: the user's hints, then a built-in CHI → PACMHCI hint. It deduplicates the candidates by normalised ISSN, then runs this cascade:
  1. a container-title harvest when there is no candidate;
  2. the ISSN probes;
  3. one harvest-and-retry on newly found ISSNs only;
  4. a name lookup on the whitespace-collapsed title;
  5. name lookups on the year-stripped container titles.

## How the model is built

- Both web services are oracles. `Network.Services` holds a total function per service, from request to parsed answer. A `Network.State` holds the two caches and the trace of requests sent so far.
- Every operation is a function of the services and the state. It returns its result and the new state (`Lookup.FetchByIssn`, `Cascade.EnsureByQuery`, …). The lemmas are about these functions.
- `Sessions.Session` is the object that owns the caches, as the page's `window.__jufoCache` and `window.__jufoNameCache` do. Its methods are the source's loops. Each method is proved to leave the state, and return the result, that the corresponding function gives.
- `Array.prototype.sort`, which is stable, is an insertion sort by an integer key (`StableSort.SortBy`). `extractLevel` sorts the payload's own array, which the model does in place (`StableSort.SortInPlace`). `tryIssnQuery` sorts a copy, which the model does with the function.
- JSON values are `Records.Row` maps from field names to `Null` or a string rendering (`Text`). A payload is an array, an object with `results`/`result`, or not a list (`Records.Payload`).

## Notes on the code

Three facts about js/jufo.js that the model keeps:

- `ensureByQuery` always sends the Crossref bibliographic search first. The hint texts include the container titles that search returns. So a hint-derived ISSN is never probed before a Crossref call, and a direct ISSN hit does not avoid one.
- Direct ISSN resolution on the publication's own ISSNs happens only in `getRankSpan`.
- The container-title harvest deduplicates against the shared `seen` set. The retry then filters by raw string against the pre-harvest list (`Cascade.RetryProbesOnlyNew` shows the two agree).

## Model

| member | source | states |
|---|---|---|
| JsText.TrimFacts | js/jufo.js:84 | `trim()`: the result has no white space at either end, and it is empty exactly when the input is blank |
| JsText.DropLeading | js/jufo.js:84 | dropping leading characters of a class leaves a suffix of the input |
| JsText.DropLeadingFacts | js/jufo.js:84 | every dropped leading character is in the class, and the first kept one is not |
| JsText.DropTrailing | js/jufo.js:84 | dropping trailing characters of a class leaves a prefix of the input |
| JsText.DropTrailingFacts | js/jufo.js:84 | every dropped trailing character is in the class, and the last kept one is not |
| JsText.DropBothFacts | js/jufo.js:84 | dropping from both ends leaves nothing exactly when every character is in the class, and otherwise leaves ends outside the class |
| JsText.TrimStartFacts | js/jufo.js:84 | the leading trim leaves a suffix of the input, removes only white space, and leaves no white space at the start |
| JsText.TrimKeepsClean | js/jufo.js:84 | trimming a string without white space at its ends gives the string back |
| JsText.Lower | js/jufo.js:84 | `toLowerCase` keeps the length and maps each character on its own: an ASCII capital becomes its small letter, every other character is kept |
| JsText.Upper | js/jufo.js:224 | `toUpperCase` keeps the length and maps each character on its own: an ASCII small letter becomes its capital, every other character is kept |
| JsText.LowerChar | js/jufo.js:84 | a capital `A`-`Z` becomes a small letter that upper-cases back to it; any other character is unchanged |
| JsText.UpperChar | js/jufo.js:224 | a small `a`-`z` becomes a capital that lower-cases back to it; any other character is unchanged |
| JsText.TrimSlice | js/jufo.js:84 | the trimmed string is the slice of the input that starts right after its blank prefix |
| JsText.Collapse | js/jufo.js:277 | `replace(/\s+/g,' ')` never lengthens the string and keeps whether it starts with white space; `JsText.CollapseRun`, `JsText.CollapseKeepsClean` and `JsText.CollapseKeepsText` pin what it produces |
| JsText.DropLeadingRun | js/jufo.js:277 | dropping the leading characters of a class from a run of them followed by a character outside it leaves exactly the rest |
| JsText.DropLeadingConcat | js/jufo.js:277 | when `a` ends outside the class, dropping from `a + b` stops inside `a` |
| JsText.CollapseRuns | js/jufo.js:277 | replacing every maximal run of a character class by one space never lengthens the string |
| JsText.CollapseRunsConcat | js/jufo.js:277 | when `a` is empty or ends outside the class, collapsing `a + b` is collapsing `a` and `b` apart |
| JsText.CollapseRunsLeading | js/jufo.js:277 | a run at the start of the string becomes exactly one space |
| JsText.CollapseRun | js/jufo.js:277 | a maximal white-space run between `x` and `y` becomes exactly one space: `Collapse(x + w + y) == Collapse(x) + " " + Collapse(y)` |
| JsText.CollapseKeepsClean | js/jufo.js:277 | a string without white space is left unchanged |
| JsText.CollapseSpaces | js/jufo.js:277 | after collapsing, every white-space character is a plain space and no two white-space characters are adjacent |
| JsText.CleanTitleFacts | js/jufo.js:277 | the cleaned title is non-empty exactly when the title is not blank, and has no white space at its ends |
| JsText.CleanTitleSpaces | js/jufo.js:277 | after `replace(/\s+/g,' ')`, every white-space character left is a plain space and no two are adjacent |
| JsText.NonSpaceConcat | js/jufo.js:277 | the non-white-space characters of a concatenation are those of its parts, in order |
| JsText.TrimStartKeepsText | js/jufo.js:84 | dropping leading white space keeps every other character, in order |
| JsText.TrimEndKeepsText | js/jufo.js:84 | dropping trailing white space keeps every other character, in order |
| JsText.TrimKeepsText | js/jufo.js:84 | `trim()` removes white space only |
| JsText.CollapseKeepsText | js/jufo.js:277 | `replace(/\s+/g,' ')` keeps every character that is not white space, in order |
| JsText.CleanTitleKeepsText | js/jufo.js:277 | the cleaned title keeps every character of the title that is not white space, in order |
| JsText.CollapseBlank | js/jufo.js:277 | collapsing white-space runs keeps a string blank exactly when it was blank |
| JsText.StripYearsKeepsNonDigits | js/jufo.js:286 | `replace(/\b\d{4}\b/g,'')` keeps every non-digit, in order |
| JsText.StripYearsLength | js/jufo.js:286 | the year strip removes characters only in groups of four |
| JsText.StripYearsExample | js/jufo.js:286 | "CHI 2023" loses its year |
| JsText.StripYearsGluedExample | js/jufo.js:286 | "X2023" is unchanged: four digits after a word character have no word boundary before them |
| Issn.Strip | js/jufo.js:51 | the `[^0-9Xx]` filter leaves only digits and `x`/`X`, and never lengthens the string; `Issn.StripOne`, `Issn.StripDropsOther` and `Issn.StripConcat` pin it character by character |
| Issn.StripKeepsClean | js/jufo.js:51 | the filter leaves a string of digits and `x`/`X` unchanged |
| Issn.StripOne | js/jufo.js:51 | a single character is kept exactly when it is a digit, `x` or `X` |
| Issn.StripDropsOther | js/jufo.js:51 | any other character is dropped, not replaced: the string is filtered around it |
| Issn.StripConcat | js/jufo.js:68 | the filter works character by character: it distributes over concatenation |
| Issn.StripIdempotent | js/jufo.js:68 | filtering twice is filtering once |
| Issn.Key | js/jufo.js:224 | the dedup key has the stripped length and contains only digits and `X` |
| Issn.KeyIdempotent | js/jufo.js:224 | the dedup key of a key is that key |
| Issn.HyphenAndBlankIgnored | js/jufo.js:224 | a hyphen or trailing blank does not change the key |
| Issn.CheckCharacterCaseIgnored | js/jufo.js:224 | `x` and `X` give the same key |
| Issn.KeepIssnAndHyphen | js/jufo.js:154 | `getRankSpan`'s filter keeps only digits, `x`/`X` and hyphens |
| Issn.KeepIssnAndHyphenKeepsDigits | js/jufo.js:154 | that filter loses none of the characters the ISSN lookup's own stripping keeps |
| Issn.Hyphenated | js/jufo.js:69 | with exactly 8 stripped characters the result is `dddd-dddd` made of them; otherwise it is the raw value |
| Issn.QueryPlan | js/jufo.js:68-73 | the distinct queries tried, in the order raw value, hyphenated form, digits: the hyphenated form second whenever it differs from the raw value, the digits last whenever they are non-empty and differ from both, and exactly one query more for each of these two conditions that holds, so an empty digit string is never sent |
| Records.RowList | js/jufo.js:33 | the rows of a payload: the array itself, else `results`, else `result`, else none |
| Records.DefinedText | js/jufo.js:36 | a non-empty `??` chain result is the value of one of the aliases |
| Records.DefinedTextIsFirstDefined | js/jufo.js:36 | the `??` chain takes the first alias that is present and not null, whatever follows it |
| Records.TruthyText | js/jufo.js:53 | an `||` chain is empty exactly when no alias holds a non-empty value |
| Records.TruthyTextIsFirstTruthy | js/jufo.js:53 | the `||` chain takes the first alias with a non-empty value |
| Levels.Decimal | js/jufo.js:38 | the canonical decimal numeral of n: only digits, denoting n, with no leading zero when n is positive |
| Levels.DecimalOfValue | js/jufo.js:38 | a canonical numeral printed back from its value is itself |
| Levels.LeadingDigits | js/jufo.js:37 | `/^[0-9]+/` takes the longest all-digit prefix |
| Levels.ParseLevel | js/jufo.js:37-38 | a level exists exactly when the leading digits denote a positive number, and it is that number as a canonical numeral |
| Levels.ParseLevelRoundTrip | js/jufo.js:37-38 | a positive number's numeral followed by a non-digit parses back to that numeral |
| Levels.LeadingDigitsOfNumeral | js/jufo.js:37 | the leading digits of digits followed by a non-digit are those digits |
| Levels.ParseLevelExamples | js/jufo.js:37-38 | "2 (old: 1)" gives "2"; "N/A", "0" and a missing field give null |
| Levels.LevelFromFirstAlias | js/jufo.js:36 | a row's level is parsed from the first of `Level`, `level`, `Julkaisufoorumitaso`, `taso` that is present |
| Levels.LevelFromKanava | js/jufo.js:32-39 | a kanava payload with no rows has no level; otherwise its level is exactly the level of its first row |
| Levels.KanavaReadsFirstRowOnly | js/jufo.js:35 | two payloads with the same first row give the same level |
| Levels.FirstWith | js/jufo.js:107-111 | the index of the first element with a property: none before it has the property, and the element there has it |
| Levels.FirstLevelIndex | js/jufo.js:107-111 | the index of the first row with a level: no row before it has one |
| Levels.FirstLevel | js/jufo.js:107-112 | null exactly when no row has a level, otherwise the level of some row |
| Levels.FirstLevelAt | js/jufo.js:107-112 | a scan that found no level before index i, and finds one at i when i is in range, answers the level at i |
| StableSort.SortByFacts | js/jufo.js:52-56 | the sort is ascending in the key, a permutation, and keeps input order within each key |
| StableSort.InsertPermutes | js/jufo.js:106 | one insertion step adds exactly the inserted element |
| StableSort.InsertSorted | js/jufo.js:106 | one insertion step keeps the list sorted |
| StableSort.InsertWithKey | js/jufo.js:106 | one insertion step appends the element to the elements with its key |
| StableSort.SortedTwoKeys | js/jufo.js:52-56 | a sorted list with two keys is the elements with the low key followed by those with the high key |
| StableSort.SortByMembers | js/jufo.js:106 | the sorted list has the same members as the input |
| StableSort.FirstInSortedOrder | js/jufo.js:106-111 | the first sorted element with a property comes from the input and has the least key among the input elements with it |
| StableSort.InsertAt | js/jufo.js:106 | an insertion puts the element after every element with a key no greater and before the rest |
| StableSort.InsertInPlace | js/jufo.js:106 | shifting `a[i]` into the sorted prefix leaves the prefix as the insertion of that element and the rest untouched |
| StableSort.SortInPlace | js/jufo.js:106 | `arr.sort` leaves the array holding the stable sort of its old contents |
| Dedup.DedupFrom | js/jufo.js:224-228 | a dedup pass keeps at most as many elements as it is given |
| Dedup.DedupSound | js/jufo.js:227 | what is kept has non-empty, unseen, pairwise-distinct keys and comes from the input; the new `seen` set adds exactly the kept keys, which are all the non-empty keys of the input |
| Dedup.DedupKeepsFirst | js/jufo.js:227 | the kept list is exactly the first occurrence of each new non-empty key, in input order |
| Dedup.DedupConcat | js/jufo.js:243 | deduplicating `a + b` is deduplicating `a`, then `b` with the `seen` set `a` left |
| Dedup.SeenIsKept | js/jufo.js:197 | for container titles, the set of titles already listed is the set of kept titles, so `indexOf` and a `seen` set agree |
| Ordering.PreferExactPartition | js/jufo.js:50-56 | the ordered results are a permutation: the exact ISSN matches in their original order, then the others in theirs; no non-match precedes a match |
| Ordering.ExactMatchIsCaseSensitive | js/jufo.js:51-53 | a record ending in `X` does not match a query ending in `x`, because the match compares without upper-casing |
| Ordering.KeepNameChars | js/jufo.js:104 | `norm` keeps only `[a-z0-9 ]` and never lengthens the string; the lemmas below pin it character by character |
| Ordering.KeepNameCharsOne | js/jufo.js:104 | a single character is kept exactly when it is a small ASCII letter, a digit or a space |
| Ordering.KeepNameCharsConcat | js/jufo.js:104 | the filter distributes over concatenation |
| Ordering.KeepNameCharsKeepsClean | js/jufo.js:104 | a string of `[a-z0-9 ]` characters is kept whole |
| Ordering.KeepNameCharsDropsOther | js/jufo.js:104 | any other character is dropped, not replaced: the string is filtered around it |
| Ordering.NameOrderFacts | js/jufo.js:104-106 | the name ordering is a permutation, ascending in name-length distance, and stable among rows at the same distance |
| Ordering.NameLevelClosest | js/jufo.js:100-113 | `extractLevel` is null exactly when no row has a level; otherwise it is the level of a row whose distance is least among the rows that have a level |
| Ordering.FirstWithLevelIsClosest | js/jufo.js:106-111 | after a stable sort by a key, the first element with a level exists exactly when some input element has one, and no input element with a level has a smaller key |
| Ordering.ScanStopIsClosest | js/jufo.js:106-112 | the row the scan stops at, least in the name key among rows with a level, is a closest such row and gives the level `extractLevel` returns |
| Ordering.ScanStopLevel | js/jufo.js:107-111 | the row the scan stops at gives the level `extractLevel` returns |
| Ordering.LeastKeyIsClosest | js/jufo.js:106 | a row least in the name key among rows with a level has no row with a level closer in name length |
| Ordering.FirstLevelOf | js/jufo.js:107-112 | the scan returns the level of the first row that has one |
| Ordering.ExtractLevel | js/jufo.js:100-113 | sorts the payload array in place into the name ordering and returns the level `extractLevel` specifies |
| Hints.Matching | js/jufo.js:217-219 | a hint pushes only its ISSN, at most once per text, and pushes something exactly when a non-empty text matches (the exact count is `Hints.MatchingCount`) |
| Hints.HintIssnsFromHints | js/jufo.js:208-220 | every pushed ISSN is the ISSN of a usable hint |
| Hints.HintIssnsAppend | js/jufo.js:206-221 | hints run in order; a pattern that fails to compile ends the loop, and no later hint is applied |
| Hints.MatchingCount | js/jufo.js:217-219 | a hint pushes its ISSN exactly as many times as there are non-empty texts its pattern matches |
| Hints.HintList | js/jufo.js:202-204 | the hint list is the user's hints, unchanged and in order, followed by the CHI hint |
| Hints.ChiHintApplied | js/jufo.js:204-219 | when the user's patterns compile, the CHI hint adds `2573-0142` after the user's ISSNs, and the list grows by exactly the number of non-empty texts naming a CHI conference |
| Hints.BadPatternSkipsChiHint | js/jufo.js:206-221 | a user pattern that fails to compile switches the CHI hint off too |
| Hints.ApplyHints | js/jufo.js:205-222 | the nested hint loop pushes exactly the specified hint ISSNs |
| Network.SentJufo | js/jufo.js:46 | sending a JUFO request appends it to the trace and leaves both caches alone |
| Network.SentCrossref | js/jufo.js:239 | sending a Crossref request appends it to the trace and leaves both caches alone |
| Candidates.AsList | js/jufo.js:193 | an ISSN field: an array as it is, a non-empty single value as exactly that one-element list, otherwise nothing |
| Candidates.TitlesFacts | js/jufo.js:195-198 | container titles are non-empty and distinct, come from the items, include every non-empty item title, and are in first-seen order |
| Candidates.HintTexts | js/jufo.js:207 | the hint texts are the title, the completion, and the container titles |
| Candidates.FirstCandidates | js/jufo.js:189-228 | the first-pass candidates are no more than the item ISSNs and hint ISSNs together |
| Candidates.CandidateDedupFacts | js/jufo.js:224-228 | the candidates have non-empty, distinct keys, come from the raw list, are its first occurrences, record all its keys as seen, and start with the deduplicated item ISSNs |
| Candidates.TitleStep | js/jufo.js:197 | one more container title is listed exactly when it is non-empty and not yet listed |
| Candidates.AddTitles | js/jufo.js:196-198 | the title loop of one item extends the distinct-title list by that item's titles |
| Candidates.CollectFirstPass | js/jufo.js:189-200 | the item loop gathers every item ISSN in order and the distinct container titles |
| Candidates.DedupInto | js/jufo.js:224-228 | the `seen`/`unique` loop computes the dedup pass |
| Lookup.DetailLink | js/jufo.js:59-60 | the detail link is `Link`, else `link`, else the kanava URL of `Jufo_ID`, and absent exactly when none of them is set |
| Lookup.IssnRequestsOnlyTrans | js/jufo.js:44-73 | ISSN-lookup-only steps compose |
| Lookup.ScanItemsRequests | js/jufo.js:58-65 | the scan fetches only detail records, at most one per row, and touches no cache |
| Lookup.FirstDetail | js/jufo.js:58-65 | reference for the scan: no level exactly when no row's detail record has one, otherwise the level of the first row whose detail record has one |
| Lookup.ScanItemsFirst | js/jufo.js:58-65 | the scan's level is exactly `Lookup.FirstDetail`: null if and only if no linked row's detail record gives a level, otherwise the first such level |
| Lookup.ScanItemsLevel | js/jufo.js:58-65 | a level the scan returns is the level of the detail record of one of the linked rows |
| Lookup.ScanItemsStopsEarly | js/jufo.js:63 | once a prefix yields a level, later rows are never fetched |
| Lookup.TryIssnQueryFacts | js/jufo.js:44-66 | a query sends its search first, then at most one detail fetch per result, and an empty result list gives null |
| Lookup.IssnAttemptsFollowPlan | js/jufo.js:68-73 | the three guarded attempts are a first-success run over the distinct query plan |
| Lookup.TryQueriesAppend | js/jufo.js:71-73 | a first-success run over `xs + ys` stops in `xs` when it finds a level there |
| Lookup.TryQueriesFacts | js/jufo.js:71-73 | the retry chain sends only ISSN-lookup requests and touches no cache |
| Lookup.FetchByIssnCacheHit | js/jufo.js:9-10 | a cached ISSN, even one cached as null, returns its value with no request |
| Lookup.FetchByIssnEffect | js/jufo.js:7-78 | an ISSN lookup leaves the name cache alone; an empty ISSN is null and changes nothing; otherwise the result is cached under the raw ISSN and comes from the query plan, with only ISSN requests sent |
| Lookup.FetchByIssnIdempotent | js/jufo.js:7-78 | looking the same ISSN up again gives the same result and changes nothing |
| Lookup.FetchByIssnKeepsEntries | js/jufo.js:74 | ISSN cache entries are never changed or removed |
| Lookup.FetchByNameEffect | js/jufo.js:81-121 | a name lookup leaves the ISSN cache alone; an empty name is null and changes nothing; a cached key answers from the cache; otherwise one search is sent and its `extractLevel` result is cached under the lower-cased trimmed name |
| Lookup.FetchByNameSharesKey | js/jufo.js:84-85 | two names with the same lower-cased trimmed form share one cache entry |
| Lookup.ProbeIssnsAppend | js/jufo.js:256-260 | the ISSN probe loop stops at the first level and makes no later lookup |
| Lookup.ProbeIssnsNegativeCache | js/jufo.js:256-260 | a probe run keeps old entries; when it finds nothing every probed ISSN is cached as null (or is empty), and running it again finds nothing and sends nothing |
| Lookup.RepeatedProbeFindsNothing | js/jufo.js:8-43 | ISSNs all cached as null or empty give null without any request |
| Lookup.ProbeVenuesAppend | js/jufo.js:284-290 | the container-title name loop stops at the first level |
| Lookup.NameRequestsOnlyTrans | js/jufo.js:284-290 | name-lookup-only steps compose |
| Lookup.FetchByNameRequests | js/jufo.js:115-119 | a name lookup sends at most one request, a name search |
| Lookup.NameOnlyRun | js/jufo.js:284-290 | a first-success run of lookups that each send at most one name search sends only name searches, at most one per query |
| Lookup.ProbeVenuesFacts | js/jufo.js:284-290 | the container-title name loop sends only name searches, at most one per title, and leaves the ISSN cache alone |
| Cascade.RowsParam | js/jufo.js:181 | `Number(rows)||8`: the configured number, or 8 when it is 0 (falsy) |
| Cascade.HarvestFacts | js/jufo.js:232-250 | a harvest adds only ISSNs with new, distinct keys and records exactly those keys; it sends at most one container-title query per title and touches no cache |
| Cascade.HarvestStopsEarly | js/jufo.js:247 | once a title yields new ISSNs, later titles are never queried |
| Cascade.NotIn | js/jufo.js:265 | the filter keeps only elements not in the earlier list |
| Cascade.NotInAll | js/jufo.js:265 | nothing is added when every element was there before |
| Cascade.NotInNone | js/jufo.js:265 | everything is added when no element was there before |
| Cascade.NotInAppend | js/jufo.js:265 | the filter distributes over concatenation |
| Cascade.RetryProbesOnlyNew | js/jufo.js:261-274 | the retry probes exactly the ISSNs the second harvest found, in order, and nothing probed before |
| Cascade.EnsureByQueryInactive | js/jufo.js:178-179 | disabled, or without a title, `ensureByQuery` does nothing |
| Cascade.EnsureByQueryStartsWithSearch | js/jufo.js:181-184 | when active, the first request is the bibliographic search for `title + " " + compl` with the row parameter |
| Cascade.CascadeExtendsTrace | js/jufo.js:230-291 | the cascade only adds requests |
| Cascade.RetryExtendsTrace | js/jufo.js:261-274 | the retry only adds requests |
| Cascade.TitleFallbackExtendsTrace | js/jufo.js:277-282 | the title lookup only adds requests |
| Cascade.NameFallbacksExtendTrace | js/jufo.js:276-291 | the name fallbacks only add requests |
| Cascade.ProbeExtendsTrace | js/jufo.js:256-260 | the probe loop only adds requests |
| Cascade.DirectHitEndsCascade | js/jufo.js:256-262 | when a first-pass candidate yields a level, no harvest, retry or name lookup runs |
| Cascade.ProbeHitEndsCascade | js/jufo.js:252-262 | a level from the first probe, with or without the harvest before it, is the outcome, and nothing runs after the probe |
| Cascade.RetryHitEndsCascade | js/jufo.js:263-276 | a level from the retry's probe is the outcome, with the retry's candidates and state: no name lookup runs |
| Cascade.TitleHitSkipsVenues | js/jufo.js:277-284 | a level for the cleaned title ends the name fallbacks: no container title is looked up |
| Cascade.NoNameSearchJoin | js/jufo.js:256-276 | two runs of requests with no search by name make one |
| Cascade.ProbeSendsNoNameSearch | js/jufo.js:256-260 | the ISSN probe loop only appends requests, none of them a search by name |
| Cascade.HarvestSendsNoNameSearch | js/jufo.js:241-249 | the harvest only appends requests, none of them a search by name |
| Cascade.RetrySendsNoNameSearch | js/jufo.js:263-274 | the retry only appends requests, none of them a search by name |
| Cascade.NameSearchOnlyAfterIssnsFail | js/jufo.js:252-276 | when the first probe or the retry finds a level, the cascade sends no search by name at all: name lookups run only after every ISSN probe returned null |
| Cascade.HarvestKeepsDistinct | js/jufo.js:241-249 | a harvest keeps the candidates distinct by key |
| Cascade.FirstHarvestKeepsDistinct | js/jufo.js:252 | the harvest-if-empty keeps the candidates distinct and only appends |
| Cascade.RetryKeepsDistinct | js/jufo.js:263-264 | the retry keeps the candidates distinct and only appends |
| Cascade.CascadeCandidatesDistinct | js/jufo.js:230-300 | the candidate list put on the badge has distinct non-empty keys and extends the first-pass list |
| Cascade.AppendDistinct | js/jufo.js:249 | appending new-key ISSNs to seen-key candidates keeps keys distinct |
| Cascade.EnsureByQueryCandidatesDistinct | js/jufo.js:176-311 | every candidate list `ensureByQuery` reports has distinct, non-empty ISSN keys |
| Cascade.BadgeFor | js/jufo.js:124-131 | the badge shows the level, or "NA" without one, with class `JUFO_<text>` and tooltip `JUFO: <text>` |
| Cascade.RankCandidates | js/jufo.js:138-140 | the candidates are the non-empty ones of ISSN1 and ISSN2, in that order |
| Cascade.CleanedIssns | js/jufo.js:154 | each candidate is filtered before its lookup |
| Cascade.RankSpanFirstIssnWins | js/jufo.js:151-158 | a level for ISSN1 decides the badge; ISSN2 and the element text are never looked up |
| Cascade.RankSpanWithoutIssns | js/jufo.js:142-149 | without ISSNs the badge is the NA placeholder and nothing is looked up |
| Cascade.RankSpanNameFallback | js/jufo.js:159-169 | the element text is looked up by name exactly when no ISSN gave a level and the text is not blank |
| Sessions.Session.constructor | js/jufo.js:8 | a page starts with the ISSN cache empty, and likewise the name cache of line 83 |
| Sessions.Session.GetJufo | js/jufo.js:13-29 | a JUFO request returns the service's answer and is recorded |
| Sessions.Session.GetCrossref | js/jufo.js:236-239 | a Crossref request returns the service's answer and is recorded |
| Sessions.Session.ScanItems | js/jufo.js:58-65 | the detail loop computes the scan and its requests |
| Sessions.Session.TryIssnQuery | js/jufo.js:44-66 | `tryIssnQuery` computes the specified level and requests |
| Sessions.Session.FetchByIssn | js/jufo.js:7-78 | `fetchJufoByIssn` returns and caches what the ISSN lookup specifies |
| Sessions.Session.FetchByName | js/jufo.js:81-121 | `fetchJufoByName` sorts the payload array in place and returns and caches what the name lookup specifies |
| Sessions.Session.LevelOfPayload | js/jufo.js:99-113 | copying the payload's rows into an array and running `extractLevel` on it gives the specified name level |
| Sessions.Session.ProbeIssns | js/jufo.js:256-260 | the probe loop computes the first-success probe |
| Sessions.Session.ProbeVenues | js/jufo.js:284-290 | the container-title name loop computes the specified fallback |
| Sessions.Session.CollectNew | js/jufo.js:240-245 | the harvest's item loop computes the dedup pass against the shared `seen` set |
| Sessions.Session.Harvest | js/jufo.js:232-250 | the harvest loop computes the specified harvest |
| Sessions.Session.RunCascade | js/jufo.js:230-291 | the cascade after the first pass computes the specified outcome and state |
| Sessions.Session.EnsureByQuery | js/jufo.js:176-311 | `ensureByQuery` computes the specified outcome and state |
| Sessions.Session.ProbeCleaned | js/jufo.js:151-158 | the ISSN loop of `getRankSpan` computes the first-success probe over the filtered candidates |
| Sessions.Session.RankSpan | js/jufo.js:133-174 | `getRankSpan` computes the specified badge and state |

## Left out

- The XHR transport and JSON parsing (js/jufo.js:13-29, 87-98, 183-188, 239) are not modelled. They are the `Services` oracles, which return a parsed payload, or `Unparsable` for a Crossref body that does not parse. An HTTP error from JUFO is the null payload. A failed Crossref request inside the harvest is a response without items.
- Promises and async interleaving are not modelled. Each call runs to completion, in order, against one `Session`. Concurrent cascades that share the caches and duplicate in-flight requests are not covered.
- jQuery and DOM work is not modelled: placeholder creation and replacement, finding `elid`'s element, attaching the badge, and the `data-jufo-issn-candidates` attribute. The badge is the `Badge` record. `ensureByQuery` returns the level and the candidate list it would put on the badge. `getRankSpan`'s element text is a parameter (`None` without an element).
- Debug logging and the `localStorage` flag are not modelled. They do not affect results.
- JavaScript `Number` is not modelled. Levels are naturals, so a digit run too long for a finite double is not rejected as it is at js/jufo.js:38. `Levels.ParseLevel` also returns the exact numeral where the source does not. `Number(...)` at js/jufo.js:37 and js/jufo.js:109 rounds a leading digit run above 2^53 to the nearest double. From 1e21 upward, `String(n)` prints exponent form such as "1e+21". The row count is an `int`, and 0 stands for every falsy or NaN `Number(...)` value.
- Regular expressions are modelled only in part. Compiling a user pattern string (with or without `/.../flags`) and `re.test` are the abstract `Hints.Engine`, which may refuse to compile a pattern. A RegExp's `lastIndex` is not modelled: every `Engine.test` is stateless. In the source, a `/.../g` or `/.../y` pattern string becomes `new RegExp(m[1], m[2])` (js/jufo.js:213-214), and `re.test` at js/jufo.js:218 then advances `lastIndex` from one text to the next, so a later text that matches can still fail the test. A RegExp object supplied by the user carries that state across calls as well. The model treats every such test as if `lastIndex` were 0. The built-in CHI pattern and the `\b\d{4}\b` year strip are modelled exactly.
- A hint whose pattern is a truthy value that is neither a string nor a `RegExp` would throw at `re.test`. That ends the hint loop just as a bad pattern does. The model has only the two pattern kinds.
- Case mapping (`toLowerCase`/`toUpperCase`) covers ASCII letters only.
- Hints.HintList: js/jufo.js:204 pushes the CHI hint into the caller's `settings.JUFO_CUSTOM_HINTS` array on every call, so that array grows. The model appends to a local copy. The extra CHI hints a later call would run add only duplicates, which the dedup removes.
- Non-string JSON scalars in fields are their `String(...)` rendering in `Records.Scalar`. This changes truthiness: a numeric `0` or `false` is falsy in JavaScript, but `Text("0")` and `Text("false")` are truthy in `Records.Truthy`. So the `||` and `?:` tests at js/jufo.js:53-54, 59 and 104 can differ. For example, a row `{Jufo_ID: 0}` gets no link at js/jufo.js:59, while `Lookup.DetailLink` gives it the `kanava/0` link.
- `compl || ""` is applied by the caller: `compl` is a string.
- Null entries in arrays are not modelled: a `Records.Row` and a Crossref `Item` are never null, so the model always produces a result. In the source, a null row in an ISSN search list throws. It throws at `item.Link` (js/jufo.js:59), or already in the sort comparator (js/jufo.js:53) when the list has two or more rows. A null row in a name-search list with two or more rows throws in the comparator at js/jufo.js:106. A single null row there reads as a row without a level, as the model's empty row does. The promises of js/jufo.js:70-77 and 115-120 then never resolve, nothing is cached, and the cascade waiting on them never places a badge. A null Crossref item throws at `it.ISSN` (js/jufo.js:193), and the `catch` at js/jufo.js:304 ends `ensureByQuery` silently.
- `js/jufo_rules.js` is not part of this model. No modelled code reads it.
