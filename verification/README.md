# Leaderboard back end: a verified model of its data logic

The back end serves two read-only routes over the `upload-json` collection of
player documents. Each document holds an `id` and a list of `apparitions`,
one per dated snapshot, each with a `DD-MM-YYYY` date, a `pseudo` and two
scores.

- `/leaderboard` maps every document to one row. The row is built from the
  document's most recent appearance. That appearance is chosen by a `reduce`
  with no initial value and a strict `>` on parsed dates. The row holds `id`,
  `date`, `pseudo`, `score_eff`, `score_spd` and their sum `total`.
- `/playerDetail/:id` answers 404 when no document has that id. Otherwise it
  returns the document with `apparitions` sorted from oldest to newest.
- Both routes parse dates the same way (`parseDate`). The text is split on
  `-`, the first three parts are destructured as `[day, month, year]`, and
  `` `${year}-${month}-${day}` `` is handed to the JavaScript `Date`
  constructor.

This project models those transformations as pure Dafny functions. The
store's answer is an input: a sequence of documents, or an optional
document. Failures are values.

Modules:

- `Wrappers`: `Option` and `Result`.
- `Text`: `split` on one character, and fixed-width decimal numerals.
- `Dates`: `parseDate`. A date that does not parse is `None`, which stands
  for the NaN time value. The epoch time of a valid date is replaced by the
  ordinal `(year*100 + month)*100 + day`, which orders dates the same way.
- `Records`: documents, appearances, rows, and the two route errors (`RouteError`) with their
  HTTP statuses. `EmptyApparitions` is 500 and `PlayerNotFound` is 404.
- `Leaderboard`: the `reduce` fold and the row `map`. The fold is written for
  any key function, and the handler uses `parseDate` of the date. Every
  comparison with NaN is false, as in JavaScript, so the fold is total.
- `History`: the `sort` with comparator `parseDate(a) - parseDate(b)`. A NaN
  difference counts as +0, as ECMA-262's SortCompare does. The model computes
  the sort by insertion. ECMA-262 has required `Array.prototype.sort` to be
  stable since its 2019 edition (section 22.1.3.27 there). For a consistent
  comparator, the stable ascending permutation is unique, and
  `History.StableSortUnique` proves the model's result is that permutation.
- `PlayerDetail`: the 404 check and the sort, plus how the two routes relate.

Two behaviours of the code are worth stating:

- A date that does not parse does not fail the request. It becomes NaN. The
  fold never picks a NaN-dated appearance over the current accumulator, and
  it never replaces a NaN-dated accumulator.
- A date text with more than three `-`-separated parts still parses, because
  parts after the third are dropped. So `01-02-2020-x` reads as 1 February
  2020 (`Dates.ParseDayExactly`).

When every date parses and several appearances share a player's latest date,
the routes pick different positions. The leaderboard shows the first of them.
The sorted history ends with the last of them
(`PlayerDetail.TiedLatestDiffers`). The two entries still carry the same
parsed date (`PlayerDetail.LatestDateEndsHistory`). When some date does not
parse, the fold can stop at a NaN-dated accumulator and show neither of them.

## Model

| member | source | states |
|---|---|---|
| Text.Split | server.js:29 | `split("-")` yields at least one part, no part contains `-`, and joining the parts with `-` gives back the input |
| Text.SplitJoin | server.js:29 | splitting parts joined by `-` gives back exactly those parts, when no part contains `-` |
| Dates.ParseIso | server.js:30 | a date the ISO date-only reading accepts has a month of 1-12, a day of 1-31 and a year of at most 9999 |
| Dates.IsoParts | server.js:29-30 | the text given to `new Date` holds the first three split parts in reverse order, with `undefined` standing in for a missing part |
| Dates.ParseDayParts | server.js:29-30 | a text parses exactly when it has at least three parts, its first three parts are 2, 2 and 4 digits, and their day/month/year values are in range; the parts are then read as day, month and year |
| Dates.ParseFormat | server.js:28-31 | the zero-padded `DD-MM-YYYY` text of any valid date parses back to that date and to its ordinal |
| Dates.ParseDayExactly | server.js:28-31 | a text parses to date `d` if and only if `d` is valid and the text is `d`'s `DD-MM-YYYY` form, alone or followed by `-` and anything |
| Dates.OrdinalOrder | server.js:30 | for valid dates, the ordinal is smaller exactly when the date is earlier by year, then month, then day, and equal exactly when the dates are equal |
| Dates.ParseDateOrder | server.js:28-31 | for two texts that parse, `parseDate(a) < parseDate(b)` exactly when `a`'s date is lexicographically before `b`'s, and equality means the same date |
| Leaderboard.FoldLatest | server.js:35-37 | the fold returns the initial accumulator or one of the remaining elements, whatever the dates |
| Leaderboard.MostRecentBy | server.js:35-37 | `reduce` without an initial value fails with `EmptyApparitions` exactly when the array is empty, and otherwise returns an element of the array |
| Leaderboard.FoldFromPrefix | server.js:35-37 | continuing the fold from the first latest element of a prefix ends at the first latest element of the whole sequence |
| Leaderboard.MostRecentIsFirstLatest | server.js:35-37 | when all dates parse, the fold returns the element at an index `k` where no element has a later date and every earlier element has a strictly earlier date, so ties go to the first |
| Leaderboard.FirstLatestUnique | server.js:36 | at most one index is the first with the latest date, so the tie-break fully determines the fold's choice |
| Leaderboard.Project | server.js:34-51 | the leaderboard fails with 500 exactly when some document has no appearances, with no partial result; otherwise it has one row per document in input order, carrying that document's id, the chosen appearance's date, pseudo and scores, and `total = score_eff + score_spd` |
| Leaderboard.ProjectRowsAreLatest | server.js:34-46 | when all dates parse, row `i` summarises the first appearance of document `i` carrying its latest date, with no reference to the fold |
| History.Insert | server.js:78-80 | one insertion step of the sort adds exactly the inserted element to the multiset |
| History.Sort | server.js:78-80 | the sorted array is a permutation of the input with the same length |
| History.SortStable | server.js:78-80 | for every time value, NaN included, the sorted array lists the elements carrying it in their original relative order |
| History.SortAscending | server.js:78-80 | when every date parses, the sorted array's dates never decrease |
| History.SortLastIsGreatest | server.js:78-80 | the last element of a sorted, fully dated, non-empty array is one of the input's elements and carries the greatest date |
| History.AscendingEndsWithLastGreatest | server.js:78-80 | any ascending permutation that keeps the latest date's group in input order ends with the last input element carrying that date |
| History.SortEndsWithLastGreatest | server.js:78-80 | the sorted, fully dated array ends with the last input element carrying the latest date |
| History.StableSortUnique | server.js:78-80 | any ascending rearrangement that keeps equal dates in their original order equals the model's sort, so the model is the stable sort the standard requires |
| History.SortIdempotent | server.js:78-80 | sorting an already sorted, fully dated history changes nothing |
| PlayerDetail.Assemble | server.js:68-81 | an absent player fails with `PlayerNotFound` (404) and nothing is sorted; a present player is returned with the same id and other fields, and its appearances permuted, stable by date, and ascending when every date parses |
| PlayerDetail.AssembleIsTheStableSort | server.js:78-81 | for a fully dated record, the returned record is the input with its appearances replaced by the one stable ascending rearrangement |
| PlayerDetail.AssembleIdempotent | server.js:78-81 | assembling a record the route returned for a fully dated player returns the same record again |
| PlayerDetail.LatestKeyEndsSort | server.js:35-37 | for a non-empty, fully dated array, the element the `reduce` picks carries the same date as the last element of the ascending sort |
| PlayerDetail.LatestTieEnds | server.js:35-37 | for a fully dated array whose latest date first appears at index `i` and last appears at index `j`, the `reduce` returns element `i` and the stable ascending sort ends with element `j` |
| PlayerDetail.LatestDateEndsHistory | server.js:78-81 | the leaderboard appearance of a fully dated player carries the date of the last entry of that player's detailed history |
| PlayerDetail.TiedLatestDiffers | server.js:36 | for any fully dated player whose latest date first appears at index `i` and last appears at index `j`, the leaderboard picks appearance `i` and the detailed history ends with appearance `j`, so the two routes pick different positions whenever `i < j` |

## Left out

- Express routing, `res.status`/`res.json`, the CORS middleware, `app.listen`, and reading `PORT` and `MONGO_URI` (server.js:1-12, 91-93) are framework and environment plumbing. `app.use(cors())` at line 3 runs before `app` is declared at line 10, so the module throws when it loads. That is a startup defect, not data logic.
- `MongoClient` connect, `find`, `findOne` and `close`, and the per-request `finally` cleanup (server.js:18-25, 52-54, 61-68, 86-88) are asynchronous foreign I/O. Their answers are inputs. A store failure is also answered with 500, but store failures are not modelled.
- The JavaScript date parser is modelled only for the ISO date-only form `YYYY-MM-DD`. Every other text counts as an invalid date. Engines may fall back to their own legacy parsers and accept other texts, such as unpadded `2020-2-1`. Those fallbacks are implementation-specific and are not modelled.
- Also not modelled: ISO date-time forms (a day part such as `01T10:00`) and extended six-digit years (`+002020`).
- Dates.ParseIso accepts any day from 1 to 31 in any month. Engines either reject a day past the end of its month (`30-02-2021`) or roll it into the next month, and the model does neither.
- Dates.Ordinal replaces the epoch time in milliseconds. The two order valid calendar dates the same way, and the comparator's sign, which is all the sort uses, agrees.
- History.Sort: when some date does not parse, the comparator is inconsistent and ECMA-262 leaves the order implementation-defined. The model's insertion order is still a stable permutation, but an engine is not bound to it.
- Scores are unbounded integers. JavaScript's double arithmetic is not modelled, nor is the string concatenation `+` performs when a score is stored as text.
- The other appearance schema (`rta_*`/`siege_*` fields, `apparitionsCount`) and the `anonyme` privacy gate (401) do not appear in this code.
- Documents are assumed to follow the schema: every document has an `apparitions` array and every appearance a string `date`. The source never checks either. A missing `apparitions` makes `reduce` (server.js:35) or `sort` (server.js:78) throw, and a non-string `date` makes `split` (server.js:29, 74) throw once the callback runs. Either way the handler's `catch` answers 500 (server.js:49-51, 83-85). Only the empty-array `reduce` failure is modelled, as `EmptyApparitions`.
- Console logging and the French error messages carry no logic.
