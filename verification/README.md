# Hizb reading tracker, modelled in Dafny

The tracker is a single-page script, `App.js`, for reading the 60 hizb divisions of the Quran. Each division has a
verse mapping: surah numbers, each with a verse range such as `"10-20"`. The script loads these mappings from
`data/hizb.json`, which may be an object keyed by division number or an array of records. It fetches each surah's
verses from a remote text API and keeps them in a session cache. It also keeps a 60-entry "done" array, saved to
browser storage.

This project models the script's logic and proves properties of it:

- **Mapping resolution** (`HizbMapping`): `getVerseMappingForHizb` exactly as written, quirks included, plus a
  corrected lookup (see Findings).
- **JavaScript text conversions** (`JsText`): `parseInt(s, 10)`, `String(n)` and `split`. They are written out
  character by character.
- **Block assembly** (`Blocks`):
  - `parseRange`;
  - the ascending sort of the surah keys;
  - the verse filter, where a NaN bound keeps nothing;
  - the display-name fallback.
- **Surah cache and fetch loop** (`Fetcher`): a class over a `map` that sits in front of an abstract network. A
  pure specification (`Fetch`, `Load`) defines the results. The methods are proved against that specification,
  and the lemmas prove what it guarantees.
- **Progress state** (`Progress`): a class holding
  - the `done` array,
  - the selection,
  - the storage slot.

  Its methods are `loadProgress`, `saveProgress`, `markDone` and `undoDone`. Two more members model the button
  rule and the grid.
- **Controller** (`Controller`): `openHizb` run to completion, with the mapping resolved as written. A variant
  that uses the corrected lookup sits beside it.

## Model

| member | source | states |
|---|---|---|
| JsText.Split | App.js:68 | `split("-")` yields at least one piece, and no piece contains the separator |
| JsText.JoinSplit | App.js:68 | joining the pieces of a split with the separator gives back the original string |
| JsText.SplitAfterPiece | App.js:68 | a separator-free piece followed by the separator splits off as the first piece |
| JsText.SplitWithoutSeparator | App.js:68 | a string without the separator splits into itself alone |
| JsText.TrimStart | App.js:68 | parseInt's leading-space skip removes a prefix made only of white space and stops at a non-space character |
| JsText.DigitPrefix | App.js:68 | parseInt reads the longest run of leading decimal digits |
| JsText.ParseIntNeedsDigit | App.js:68 | `parseInt` gives a number only when the string holds a decimal digit; a string starting with a digit always gives a non-negative number |
| JsText.ParseIntOfDigits | App.js:68 | `parseInt` of a plain decimal numeral is its value |
| JsText.ParseIntOfNegative | App.js:132 | `parseInt` of "-" followed by a numeral is the negated value |
| JsText.ParseIntOfNonNumeral | App.js:68 | `parseInt` of a string starting with no space, sign or digit is NaN |
| JsText.NatToString | App.js:137 | `String(n)` of a non-negative integer is a non-empty digit string without a leading zero, and `String(0)` is "0" |
| JsText.IntToString | App.js:137 | `String(n)` is non-empty; it starts with "-" exactly when n is negative, and the rest is decimal digits |
| JsText.NatToStringValue | App.js:137 | the digits of `String(n)` have value n |
| JsText.ParseIntOfIntToString | App.js:132-137 | `parseInt(String(n), 10)` is n for every integer n, so a surah number parsed from a key reaches the same key again |
| JsText.IntToStringInjective | App.js:137 | different integers have different `String` forms |
| HizbMapping.FindByHizb | App.js:86 | `find` returns the first record whose `Number(hizb)` equals n, or none when no record has it |
| HizbMapping.KeyLookup | App.js:81 | `hizbData[String(n)]`: on an object, the member under key `String(n)` if there is one; on an array, the element at index n if 0 <= n < length; nothing on any other document |
| HizbMapping.ArrayRecord | App.js:86 | `find(...) || hizbData[n-1]`: the first record tagged n; when none is tagged n, the element at position n-1 if it exists, else nothing |
| HizbMapping.GetVerseMappingForHizb | App.js:77-91 | no document gives null. A key lookup `hizbData[String(n)]` that finds a record with a mapping returns that mapping; on arrays this lookup reads index n. On an object the lookup is the only route. On an array it falls back to the first record tagged n, else to position n-1 only when no record is tagged n |
| HizbMapping.TaggedWithoutMappingGivesNone | App.js:86-87 | a record found by its tag but lacking `verse_mapping` gives null; there is no positional fallback then |
| HizbMapping.AsWrittenShiftsArrays | App.js:81-82 | as written, an array whose record at index n has a mapping resolves division n to that record |
| HizbMapping.AsWrittenOffByOne | App.js:81-86 | for a two-record tagged array, division 1 resolves to division 2's mapping as written and to its own when corrected |
| HizbMapping.ResolveMapping | App.js:72-91 | the corrected lookup: objects by key `String(n)`; arrays by the first record tagged n, else position n-1 |
| HizbMapping.ResolvePositioned | App.js:86 | on an array of untagged or correctly tagged records, the corrected lookup gives position n-1 |
| HizbMapping.ResolveAgreesOffArrays | App.js:78-82 | the corrected and as-written lookups agree on every document that is not an array |
| Blocks.ParseRangeOfNumerals | App.js:66-70 | `parseRange("A-B")` for decimal numerals A and B gives from = A and to = B |
| Blocks.ParseRangeRoundTrip | App.js:66-70 | a range written as `String(from) + "-" + String(to)` parses back to from and to |
| Blocks.ParseRange | App.js:66-70 | a range string without "-" has an undefined upper bound, and its lower bound is `parseInt` of the whole string |
| Blocks.UndefinedRangeIsEmpty | App.js:137 | a surah missing from the mapping reads its range from "undefined", which gives NaN for both bounds |
| Blocks.RangeOf | App.js:137 | `mapping[String(s)]` is the range of the first key equal to `String(s)`, and "undefined" when no key equals it |
| Blocks.FilterAyahs | App.js:138 | keeps exactly the verses with from <= numberInSurah <= to; keeps none when a bound is NaN |
| Blocks.FilterAppend | App.js:138 | filtering distributes over concatenation, so kept verses stay in their original order |
| Blocks.SurahName | App.js:141 | the name is never empty. It is `name` if present, else `englishName`, else "#" followed by the surah number |
| Blocks.BlockFor | App.js:137-142 | a block carries its surah number, the name by the fallback of `SurahName`, and the surah's verses filtered by `FilterAyahs` with the parsed range of that surah |
| Blocks.Insert | App.js:132 | inserting into an ascending sequence keeps it ascending and adds exactly the one element |
| Blocks.Sort | App.js:132 | `sort((a, b) => a - b)` returns an ascending permutation of its input |
| Blocks.AscendingUnique | App.js:132 | two ascending sequences with the same elements are equal, so the sorted order does not depend on the sort algorithm |
| Blocks.KeyNumbers | App.js:132 | `Object.keys(mapping).map(parseInt)` has one parsed number per key, in key order |
| Blocks.SurahNumbers | App.js:132 | the surah numbers are ascending, one per key, and are a permutation of the parsed keys |
| Blocks.StrictlyAscendingWhenDistinct | App.js:132 | when no two keys parse to the same number, the surah numbers ascend strictly |
| Fetcher.Request | App.js:57-61 | a transport failure gives that failure's own error; a non-ok response throws "API error for surah s"; an ok response gives its `data` payload |
| Fetcher.Fetch | App.js:55-64 | a hit returns the cached surah with no request. A miss makes one request, and on success caches the surah before returning it. A failure leaves the cache unchanged. The cache only grows |
| Fetcher.LoadSize | App.js:135-143 | `Load` (the loop over the surah numbers) makes at most one request per number, yields one block per number on success, and fails only through a request |
| Fetcher.LoadExtends | App.js:56-62 | fetching a division's surahs never drops or changes a cached surah |
| Fetcher.LoadAddsOnlyRequested | App.js:56-62 | opening a division caches a surah only when it requested that surah |
| Fetcher.LoadCachesReplies | App.js:57-62 | every surah that opening a division adds to the cache is the `data` of the API's ok reply for that surah |
| Fetcher.LoadSucceeds | App.js:135-143 | a successful division yields one block per surah number, in order, each built from that surah's cached record (`BlocksOf`, with `BlocksOfAt` for block i) |
| Fetcher.LoadAborts | App.js:135-149 | a failing division stops at the first surah whose request fails. That request is the last one, and nothing after it is requested or cached. That surah is not cached, every earlier one is, and its error is the division's error |
| Fetcher.LoadRequestsFresh | App.js:56-62 | one division open requests only surahs that were not cached, and never the same surah twice |
| Fetcher.LoadRequestsAscending | App.js:132-136 | over ascending surah numbers, the requests of one division open ascend strictly, so surahs are fetched in ascending order |
| Fetcher.SurahCache.constructor | App.js:8 | the session starts with an empty cache and no requests |
| Fetcher.SurahCache.FetchSurah | App.js:55-64 | updates the cache and request log as `Fetch` says. A cached surah is returned without a request |
| Fetcher.SurahCache.LoadBlocks | App.js:133-143 | the `for` loop over the surah numbers returns `Load`'s result and leaves `Load`'s cache and requests |
| Progress.Restore | App.js:14-21 | the stored array replaces the flags only when it is an array of exactly 60. Otherwise the flags stay as they were, and their length stays 60 |
| Progress.SaveThenRestore | App.js:14-22 | loading what `saveProgress` wrote gives back the same 60 flags |
| Progress.WithEntry | App.js:152-167 | with a selection, exactly entry `selected-1` is set and every other entry is unchanged; without a selection nothing changes |
| Progress.WithEntryIdempotent | App.js:152-167 | marking or undoing twice is the same as once |
| Progress.MarkThenUndo | App.js:152-167 | undo after mark leaves the entry not done, as if only undo had run |
| Progress.Tracker.constructor | App.js:5-7 | page load: no selection, 60 flags all false |
| Progress.Tracker.LoadProgress | App.js:14-21 | the flags become `Restore` of the storage slot, and the selection and slot are unchanged |
| Progress.Tracker.SaveProgress | App.js:22 | the slot holds the current flags |
| Progress.Tracker.Select | App.js:114 | the selection becomes n |
| Progress.Tracker.MarkDone | App.js:152-159 | the flags become `WithEntry(old, selected, true)`. With a selection the slot then holds the new flags; without one the slot is unchanged |
| Progress.Tracker.UndoDone | App.js:160-167 | the flags become `WithEntry(old, selected, false)`. With a selection the slot then holds the new flags; without one the slot is unchanged |
| Progress.Tracker.Buttons | App.js:38-43 | both buttons are disabled with no selection. With one, exactly one is enabled: "done" iff the entry is false, "undo" iff it is true |
| Progress.Tracker.RenderGrid | App.js:24-36 | 60 cells; cell i is division i+1, marked done iff `done[i]` and active iff it is selected |
| Controller.OpenHizb | App.js:113-150 | the selection becomes n even when resolution fails. The mapping comes from `GetVerseMappingForHizb`, as written. A division without a mapping shows the mapping error and leaves the cache alone. Otherwise the pane shows `Load`'s blocks, or its first error in place of every block |
| Controller.OpenHizbCorrected | App.js:113-150 | the same as `OpenHizb`, with the mapping resolved by the corrected lookup `ResolveMapping` |
| Controller.ShowDivision | App.js:131-149 | the `try` block: the pane and cache are those of `Load` over the ascending surah numbers of the mapping |
| Controller.OpenedDivisionShown | App.js:132-145 | an opened division shows one block per mapping key. Block i carries the i-th of the ascending surah numbers, and exactly that surah's verses inside its range, with the fallback name |
| Controller.ObjectDocumentExample | App.js:81-82 | an object document with "5" mapped to {"2": "10-20"} resolves division 5 to surah 2, verses 10 to 20 |
| Controller.TenToTwenty | App.js:66-70 | `parseRange("10-20")` is from 10, to 20 |
| Controller.ArrayDocumentExample | App.js:81-88 | for an array of 60 untagged records, division 30 is position 29 when corrected. As written, it is position 30 whenever that record has a mapping |

## Left out

- Rendering is not modelled: DOM construction, titles, status text, error text and the reader pane's markup
  (`el`, `setStatus`, `showError`, `renderHizb`, lines 93-111). `renderGrid` is kept only as the cell flags it sets.
- Startup is not modelled: `init`, event wiring and `loadJSON`. The loaded document is a parameter of `OpenHizb`;
  a failed load is `NoDocument`.
- The network is the function `Network`: the reply the API gives to each surah number during one open. Two cases
  are not modelled:
  - a response body that is not JSON;
  - a `data` payload without `ayahs` or names (the model's payload is always a well-formed `Surah`).
- Overlapping `openHizb` runs and the stale-render race they cause are not modelled, because they are concurrency.
  One open is modelled, run to completion.
- Failures of `localStorage.setItem` are not modelled. `JSON.stringify`/`JSON.parse` are abstracted into
  `Snapshot`, and stored array elements are taken by their truthiness.
- Number conversions use unbounded integers. The model has no floating point, so it does not capture parseInt's
  rounding above 2^53, `Number(x.hizb)` on non-integers (a fraction or NaN is `None`), or `-0`.
- Array documents whose elements are `null` are not modelled. On such a document, suppose the key lookup at line 81
  misses and the search at line 86 reaches a `null` element before any record tagged n. Then `find` throws a
  TypeError that `openHizb` does not catch.
- A `verse_mapping` that is an array, or range values that are not strings, are not modelled. The model takes
  every range as the string `String()` gives.
- Controller.OpenHizb: requires every key of the resolved mapping to parse as a number. A key like "abc" gives
  NaN, and JavaScript then sorts with an inconsistent comparator, whose order is implementation-defined.
- Controller.OpenHizb: requires `1 <= n <= 60`, the only numbers the grid produces. Any other number would
  write outside the 60 flags.

## Findings

| source | as written | input that shows it | evidently intended | confidence | as-written member | corrected member |
|---|---|---|---|---|---|---|
| App.js:81-82 | `hizbData[String(n)]` is also applied to array documents, where it reads index n, and a record there with `verse_mapping` is returned at once | array `[{hizb: 1, verse_mapping: A}, {hizb: 2, verse_mapping: B}]`, division 1 gives B | arrays resolve by the record tagged `hizb == n`, else position n-1 (the shapes in the comment at App.js:72-76 and line 86) | high, not executed | HizbMapping.AsWrittenOffByOne | HizbMapping.ResolvePositioned |

`Controller.OpenHizb` keeps the lookup as written. `Controller.OpenHizbCorrected` is the same controller over the
corrected lookup. The two agree on every document that is not an array (`HizbMapping.ResolveAgreesOffArrays`).
