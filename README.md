# Event search of WomenConnect, modelled in Dafny

WomenConnect is a community web application whose only self-contained logic is
the client-side event search in `utils/search.js`. This project models its two
functions and proves what they promise:

- `generateKeywords(event)` lower-cases an event's fields, splits the title,
  the description and (for venue events) the location on runs of whitespace,
  keeps the words longer than two characters, always adds the whole lower-cased
  category and type, and returns the contents of the `Set` it filled, in
  first-insertion order.
- `searchEvents(events, searchTerm)` returns the input when the query is blank;
  otherwise it lower-cases the query, splits it on runs of whitespace and keeps,
  in order, the events whose lower-cased template string (title, category,
  type, location or `''`, description or `''`, one per line) contains every
  piece of the query.

Files:

- `js_string.dfy` (module `JsString`): the JavaScript string built-ins used —
  `\s` (the exact ECMAScript WhiteSpace and LineTerminator set, which is also
  what `trim` strips), `toLowerCase`, `trim`, `split(/\s+/)` and `includes`.
  `Split` is characterised independently: with the runs of blanks between its
  pieces (`Gaps`) it puts the string back together, and it is the only such
  cut (`IsSplitBy`), which fixes the pieces' order and number; its non-empty
  pieces are exactly the maximal runs of non-blank characters (`IsWordOf`),
  and it has an empty piece exactly when the string is empty or starts or ends
  with a blank, and then only as its first or last piece.
- `sequences.dfy` (module `Sequences`): order-preserving selection
  (`IsSubsequence`) and a JavaScript `Set` as a duplicate-free sequence in
  first-insertion order (`Insert` is `set.add`, `FromSeq` is `Array.from` of a
  set filled in order).
- `events.dfy` (module `Events`): the event record. The event's `type` field
  is named `kind` because `type` is a Dafny keyword.
- `keywords.dfy` (module `Keywords`): `GenerateKeywords` is a method with the
  source's loops and local set, proved equal to the specification function
  `Keywords(e)`; the properties of `Keywords` are lemmas.
- `search_events.dfy` (module `EventSearch`): `SearchEvents` and its
  properties.
- `search_examples.dfy` (module `SearchExamples`): two worked searches over one
  venue event.

`generateKeywords` works by filling a mutable set step by step, so it is an
imperative method; `searchEvents` is a single `filter` with an `every`/`includes`
predicate, so it is a function. Neither changes the event records.

Two behaviours of the code are kept as written. The keyword result is an
array in first-insertion order, not an unordered set. A query with leading or
trailing whitespace splits into pieces that include an empty one, so the list
of query pieces is not always made of non-empty tokens.

A consequence proved here (`BlankGuardIsRedundant`): the blank-query guard at
utils/search.js:35 could be dropped: without it the result would hold the same
events in the same order, since a blank query splits only into empty pieces and
the empty string occurs in every text.

## Model

| member | source | states |
|---|---|---|
| JsString.ToLower | utils/search.js:37 | `toLowerCase` keeps the length, changes a character exactly when it is an ASCII capital, leaves no ASCII capital and keeps each character's upper-case form (also used at lines 6, 18, 25 and 46) |
| JsString.Trim | utils/search.js:35 | `trim` returns a slice of the string with only whitespace before and after it, that neither starts nor ends with whitespace, and that is empty exactly when the string is empty or all whitespace (the test `!searchTerm.trim()`) |
| JsString.TrimStart | utils/search.js:35 | the result is a suffix of the input, everything dropped is blank, and it does not start with a blank |
| JsString.TrimEnd | utils/search.js:35 | the result is a prefix of the input, everything dropped is blank, and it does not end with a blank |
| JsString.Split | utils/search.js:37 | `split(/\s+/)` returns at least one piece, and every piece is free of whitespace and occurs in the string (also used at lines 6, 18 and 25) |
| JsString.SplitRoundTrip | utils/search.js:37 | the pieces of `split(/\s+/)`, in order, with the runs of whitespace between them put back, give the string; no piece holds whitespace, every run is non-empty, and only the first or the last piece can be empty |
| JsString.SplitUnique | utils/search.js:37 | any cut of the string into pieces and runs of whitespace with those properties is the split and its runs, so the split's order and number of pieces are fixed |
| JsString.SplitWords | utils/search.js:37 | a non-empty piece of `split(/\s+/)` is exactly a maximal run of non-whitespace characters of the string |
| JsString.SplitEmptyPiece | utils/search.js:37 | the split has an empty piece exactly when the string is empty or starts or ends with whitespace |
| JsString.WordsOfJoin | utils/search.js:37 | the words of `a + c + b` for a whitespace `c` are the words of `a` together with the words of `b` |
| JsString.Contains | utils/search.js:48 | `includes` holds whenever the piece is a prefix of the string, and only when the piece is no longer than the string and each of its characters occurs in it |
| JsString.ContainsAcrossBlanks | utils/search.js:40-48 | a non-empty, whitespace-free string occurs in `a + w + b`, `w` a non-empty run of whitespace, exactly when it occurs in `a` or in `b` |
| JsString.ToLowerKeepsSpaces | utils/search.js:37 | lower-casing keeps every whitespace character and never creates one |
| JsString.ToLowerOfUpper | utils/search.js:37 | lower-casing an upper-cased string equals lower-casing the original |
| Sequences.Insert | utils/search.js:7 | `set.add(x)` leaves the set holding exactly `x` and its old elements, keeps the old order as a prefix, appends at most one element and repeats none (also lines 11, 14, 19 and 26) |
| Sequences.FromSeq | utils/search.js:3-30 | the array taken from a set filled with a sequence has no duplicates and holds exactly the sequence's elements |
| Sequences.FromSeqFirstOccurrenceOrder | utils/search.js:30 | the set's elements come out in the order of their first insertion |
| Sequences.FromSeqPrefix | utils/search.js:3-30 | adding more elements never reorders or removes those already in the set |
| Keywords.LongWords | utils/search.js:7 | a word is kept exactly when it is one of the words and longer than two characters |
| Keywords.LongWordsInOrder | utils/search.js:6-7 | the kept words come in the order of the `forEach` over the words |
| Keywords.LongWordsCount | utils/search.js:6-7 | each word longer than two characters is kept as often as it occurs, and no shorter word is kept |
| Keywords.LocationWords | utils/search.js:17-21 | location words are added only when the type as given is exactly `venue` and the location is present and non-empty, and then they are exactly the lower-cased location's words longer than two characters |
| Keywords.DescriptionWords | utils/search.js:24-28 | description words are added only when the description is present and non-empty, and then they are exactly the lower-cased description's words longer than two characters |
| Keywords.Additions | utils/search.js:5-28 | what the function adds to the set starts with the title's long words, always includes the lower-cased category and type, and holds nothing else shorter than three characters |
| Keywords.Keywords | utils/search.js:3-30 | the returned array has no duplicates, always holds the lower-cased category and type whatever their length, and every other keyword is longer than two characters |
| Keywords.AddLongWords | utils/search.js:6-8 | one `forEach` loop leaves the set as if the words longer than two characters had been added after everything added before |
| Keywords.GenerateKeywords | utils/search.js:2-31 | the result is the keyword specification of the event, has no duplicates and holds the lower-cased category and type |
| Keywords.FieldWordsAreWords | utils/search.js:6-8 | the kept words of a field are exactly its lower-cased whitespace-delimited words longer than two characters |
| Keywords.KeywordsExactly | utils/search.js:6-28 | a string is a keyword exactly when it is the lower-cased category or type, or a lower-cased word longer than two characters of the title, of a present description, or of a present location when the type as given is exactly `venue` |
| Keywords.KeywordsOrder | utils/search.js:5-30 | the title's distinct words longer than two characters come first, in title order, and all keywords follow the order of their first addition: title, category, type, location, description |
| Events.OrEmpty | utils/search.js:44-45 | `field \|\| ''` is non-empty exactly when the field is present and non-empty, and then equals it |
| EventSearch.EventText | utils/search.js:40-45 | every field as given, with `''` for a missing location or description, occurs in the template string |
| EventSearch.Haystack | utils/search.js:40-46 | every lower-cased field occurs in the lower-cased template string, and no ASCII capital is left in it |
| EventSearch.SearchTerms | utils/search.js:37 | the query's pieces are at least one, each free of whitespace and occurring in the lower-cased query, and all empty when the query is blank |
| EventSearch.MatchesAll | utils/search.js:48 | when no piece holds whitespace, `every(... includes ...)` holds exactly when each piece occurs in one of the lower-cased fields |
| EventSearch.Filter | utils/search.js:39-49 | the filtered list is an order-preserving subsequence that holds each matching event as often as the input and no other event |
| EventSearch.SearchEvents | utils/search.js:34-50 | the result is an order-preserving subsequence of the events holding each event as often as the input when the query is blank or the event matches every query piece, and never otherwise |
| EventSearch.BlankQueryIsIdentity | utils/search.js:35 | an empty or whitespace-only query returns the events unchanged |
| EventSearch.SearchKeeps | utils/search.js:35-49 | an event is in the result exactly when it is in the input and the query is blank or every piece occurs in its lower-cased text |
| EventSearch.HaystackShape | utils/search.js:40-46 | the lower-cased template string is the blank padding, then the lower-cased fields separated by a space, a newline and eight spaces, then the closing padding |
| EventSearch.NoCrossFieldMatch | utils/search.js:40-46 | a whitespace-free piece occurs in the lower-cased template string exactly when it occurs in one lower-cased field |
| EventSearch.SearchKeepsByField | utils/search.js:35-48 | for every query, blank or not, an event is kept exactly when it is in the input and every query piece occurs in one of its lower-cased fields |
| EventSearch.BlankGuardIsRedundant | utils/search.js:35-37 | the result always equals filtering by the query's pieces, blank query included |
| EventSearch.FilterOfFilter | utils/search.js:39-49 | filtering by one list of pieces and then by another equals filtering once by both |
| EventSearch.TermsOfJoinedQuery | utils/search.js:37-48 | the pieces of `q1 + " " + q2` match an event exactly when the pieces of `q1` and of `q2` all do |
| EventSearch.SearchComposes | utils/search.js:34-50 | searching the result of a search for `q1` by `q2` equals one search for `q1 + " " + q2` |
| EventSearch.SearchIgnoresQueryCase | utils/search.js:37 | two queries with the same lower-cased form give the same result |
| EventSearch.SearchUpperCaseQuery | utils/search.js:37 | upper-casing the query's ASCII letters never changes the result |
| EventSearch.EmptyTermFromOuterBlank | utils/search.js:37-48 | the query yields an empty piece exactly when it is empty or starts or ends with whitespace, and an empty piece matches every event |
| SearchExamples.LagosWorkTerms | utils/search.js:37 | the query "lagos work" splits into "lagos" and "work" |
| SearchExamples.CareerFairFoundByLocationAndCategory | utils/search.js:34-50 | a venue event in Lagos Hall with category "work" is found by "lagos work" |
| SearchExamples.CareerFairMissedByOnline | utils/search.js:34-50 | the same event is not found by "career fair online", since "online" occurs in none of its fields |

## Left out

- The React pages and the navigation bar are not modelled. The bar only guards blank queries itself and calls `searchEvents` (components/layout/NavBar.js:45-48).
- Firebase authentication, Firestore and storage calls are not modelled: they are a foreign asynchronous network service.
- Date filtering and formatting, error-code messages, the reading-time display and image conversion are not modelled: they are UI code that depends on the clock, a library or the browser.
- `toLowerCase` is modelled on ASCII letters only. Other letters stay unchanged, and the Unicode case mappings, including those that change a string's length, are not captured.
- EventSearch.SearchUpperCaseQuery: holds for ASCII case changes only. In JavaScript `"ß".toUpperCase()` is `"SS"`, so `searchEvents(events, "STRASSE")` looks for `"strasse"` and drops an event titled "Straße" that `searchEvents(events, "straße")` keeps. `SearchIgnoresQueryCase` stays sound under full JavaScript casing, because it assumes the two queries already lower-case to the same string.
- JsString.ToLowerOfUpper: likewise holds for the ASCII `ToUpper` and `ToLower` of this model only; full Unicode upper-casing followed by lower-casing does not always give back the lower-cased original.
- `word.length > 2` counts UTF-16 code units in JavaScript. The model counts Unicode scalar values, so the two differ for characters outside the Basic Multilingual Plane.
- A missing required field (`title`, `category`, `type`) would be coerced by JavaScript to "undefined" or throw. The model makes these fields strings, so that case cannot arise.
- Events carry more fields (id, date, image) that the search ignores. The model compares events by the five fields it reads, and JavaScript's object identity is not modelled.
- Extractor determinism needs no lemma: Dafny functions return equal results on equal arguments.
