# QA dashboard core, modelled in Dafny

This project models the data logic of a quality-assurance dashboard for recorded AI
voice-assistant calls. The call, clinic and assistant tables live in a Supabase (PostgREST)
store. Here each table is an in-memory sequence or map, and each store read has an explicit
outcome: `Served`, `NullData` (no rows and no error) or `Errored`. On top of that the model
covers:

- **The call-list endpoint** (`CallsRoute`, `CallOrder`, `Paging`). It covers the default
  parameters and the filter predicate: clinic and assistant equality, an inclusive
  `call_start_time` range, a case-insensitive search and the evaluation-status filter. The
  store does the rest as "filter, then sort, then slice", and the endpoint returns the exact
  count and the page count.
- **The metrics endpoint** (`MetricsRoute`, `Grouping`, `Seqs`). It scopes the calls by
  `created_at` and computes:
  - the headline rates and averages
  - the human-versus-automatic discrepancy figures
  - the per-day series
  - the per-assistant and per-clinic averages
- **The calls table** (`CallsTable`). This covers its count read and page read, the sort
  toggle, the page reset on a new filter, the previous/next clamping, and the status and
  score badges.
- **The filter panel** (`CallsFilter`). This covers the selections it derives from its
  initial filters, the sparse filter map it emits, the reset, and the assistant choices
  scoped to a clinic.
- **The clinic and assistant rankings** (`Rankings`). Calls are grouped by the joined
  record's id, and each group is counted and averaged. The rows are ordered best first.
- **The filter-options endpoint** (`OptionsRoute`).
- **The evaluation write** (`EvaluationAction`). This is a keyed update of a
  `map<string, Call>` that either succeeds or fails.
- **The pure helpers of `lib/utils.ts`** (`Utils`).

Some shared modules support these:

- `Records`: the row types, JavaScript truthiness of scores and parameters, the store reply
  and route responses.
- `Text`: strings, ASCII case folding, substring search, code-point order and decimal
  rendering.
- `Sorting`: a stable insertion sort proved to be a sorted permutation.
- `Wrappers`: `Option`.

Averages and rates are exact `real` ratios, and instants are integer milliseconds since the
epoch. The UTC day of an instant is `DayOf`.

Points worth knowing about the source:

- **The list sort has no `id` tiebreak.** `CallOrder.SortCalls` is one fixed stable
  permutation, not a total order on rows.
- **`sortBy` is passed straight to the store.** The code does not check it against the
  sortable columns (app/api/calls/route.ts:19, 62). The model restricts `sortBy` to the seven
  sortable columns.
- **The evaluation write validates nothing.** Any integer score is stored as given.
- **The metrics route scopes and buckets by `created_at`, while the list filters on
  `call_start_time`.**
- **"Evaluated" means three things.** In the list's status filter it means a non-null human
  score, so a score of 0 counts (`CallsRoute.ZeroScoreIsEvaluated`). The metrics route's
  evaluated rate counts the boolean `evaluated` column. The table's status badge, and the
  metrics route's set of rows with both scores, need a non-zero (truthy) score.
- **The filter panel never emits the search text.** Its reset also leaves the search text
  as it is; the line that would clear it is commented out in the source.
- **The table searches `call_id` and `phone_number`, while the endpoint searches four
  columns.**

## Model

| member | source | states |
|---|---|---|
| CallsRoute.ListCalls | app/api/calls/route.ts:4-90 | A store error, and only a store error, gives a 500 "Failed to fetch calls". Otherwise the body echoes the resolved page and page size. It holds at most a page of rows, each a table row that passes every filter, ordered by the requested column and direction. The count is the number of matching rows, independent of the page. `data: null` gives no rows and count 0. The page count is the least whole number of pages covering the count, and 0 exactly when the count is 0. |
| CallsRoute.ServedWindow | app/api/calls/route.ts:61-67 | The inclusive window `[(page-1)*size, (page-1)*size+size-1]` of the sorted matches holds at most `size` matching table rows, in listing order. |
| CallsRoute.PagingCoversListing | app/api/calls/route.ts:62-81 | Requesting pages 1..totalPages with the other parameters fixed serves consecutive windows of one sorted listing. Read one after the other they give back the whole listing: no row is skipped or repeated, and the listing is a permutation of the matching table rows. |
| CallsRoute.PageRowsAreServed | app/api/calls/route.ts:64-67 | Asking the endpoint for page n with every other parameter fixed serves the n-th window of the same listing. |
| CallsRoute.NoFiltersKeepAll | app/api/calls/route.ts:34-59 | Without filter parameters the count is the table size, and the listing is a permutation of the table. |
| CallsRoute.PastTheEndIsEmpty | app/api/calls/route.ts:64-81 | When the store serves a page whose offset is at or past the count, the page has no rows and the full count is still reported. |
| CallsRoute.ZeroScoreIsEvaluated | app/api/calls/route.ts:55-59 | A human score of 0 passes the "evaluated" filter and fails "pending", although it is falsy. |
| CallOrder.SortCalls | app/api/calls/route.ts:61-62 | Ordering by a column is a permutation of the rows whose keys never decrease in the requested direction. Nulls come last ascending and first descending. |
| CallOrder.CallLeTotalPreorder | components/calls-table.tsx:21-29 | Each of the seven sortable columns, in either direction, gives a total preorder on calls. |
| Paging.CeilDiv | app/api/calls/route.ts:81 | `Math.ceil(n / d)`: the least q with `n <= q*d`, 0 exactly when n is 0. |
| Paging.Window | app/api/calls/route.ts:65-67 | The inclusive `range(from, to)` window: its length and its rows, taken from `from` on (or from 0 for a negative start). |
| Paging.PagingComplete | components/calls-table.tsx:133 | Concatenating pages 1..ceil(len/size) gives back the sequence. |
| Paging.LastPage | app/api/calls/route.ts:78-81 | The last page holds between 1 and size rows, namely what the earlier pages leave. |
| MetricsRoute.GetMetrics | app/api/metrics/route.ts:4-185 | A store error gives a 500 "Failed to fetch metrics", and a served read never does (every `created_at` is taken as a valid instant). The total is the number of in-scope rows (0 for `data: null`). A zero total gives the all-zero answer with empty breakdowns. Otherwise every figure is computed over exactly the rows that pass the clinic, assistant and `created_at` range filters. Both rates lie in [0, 1], and the gap figures are non-negative. |
| MetricsRoute.Headline | app/api/metrics/route.ts:54-93 | totalCalls is N. The success rate counts human scores (missing as 0) of at least 3, over N. The evaluated rate counts `evaluated` rows, over N. The two averages are sums with missing as 0, over N. The gap mean and the high-discrepancy share (gap ≥ 2) are over the rows with both scores truthy, or 0 when there are none. |
| MetricsRoute.Compute | app/api/metrics/route.ts:54-177 | The same figures, plus the per-day series and the two per-name breakdowns over the same rows. |
| MetricsRoute.Share | app/api/metrics/route.ts:62-71 | A rate lies in [0, 1]. It is 0 exactly when no row qualifies and 1 exactly when every row does. |
| MetricsRoute.GapMean | app/api/metrics/route.ts:74-83 | The mean absolute score difference is non-negative, and 0 exactly when every row's two scores (missing as 0) agree. |
| MetricsRoute.SortedDays | app/api/metrics/route.ts:96-102 | The distinct UTC days of the rows' `created_at`, strictly ascending, exactly the days some row falls on. |
| MetricsRoute.Timeline | app/api/metrics/route.ts:96-122 | `scoresOverTime` has one point per day on which some row was created, in strictly ascending day order. Each point holds the mean human and automatic scores (missing as 0) of that day's rows, and there is at least one such row. |
| MetricsRoute.ScoresBy | app/api/metrics/route.ts:124-164 | One entry per distinct name among the rows whose joined record has a name and whose human score is truthy, in order of first appearance. Each entry holds the mean human score of the rows under its name. |
| MetricsRoute.EntriesCountTotal | app/api/metrics/route.ts:126-137 | The map's count and total for a name are the number of rows rated under that name and the sum of their human scores. |
| MetricsRoute.RatesExtremes | app/api/metrics/route.ts:62-71 | The success rate is 1 (0) exactly when every (no) row succeeds. The evaluated rate is 1 exactly when every row is evaluated. |
| MetricsRoute.NoGapIffAgreement | app/api/metrics/route.ts:57-93 | The average gap is 0 exactly when every row with both scores has equal scores. With no such row, the high-discrepancy rate is 0. |
| MetricsRoute.HumanAveragesWithin | app/api/metrics/route.ts:65-67 | If every human score (missing as 0) lies in [lo, hi], so do the overall human average and every day's human mean. |
| MetricsRoute.NameAveragesWithin | app/api/metrics/route.ts:138-164 | No name appears twice in a breakdown. Each per-name average lies within the range of the truthy human scores. |
| MetricsRoute.NamesAreRatedNames | app/api/metrics/route.ts:125-137 | A name is listed exactly when some row in scope is rated under it. |
| Grouping.GroupBySpec | app/clinics/page.tsx:36-55 | Grouping entries by key gives one group per distinct key, in first-appearance order. Each group carries the name of its key's first entry, its entry count (at least 1) and its score total. The counts add up to the number of entries. |
| Rankings.Contributions | app/clinics/page.tsx:36-40 | Each contribution has a non-empty id and name, and there are no more contributions than rows. |
| Rankings.ContributionsPinned | app/clinics/page.tsx:33-51 | The contributions are exactly one entry per contributing row, in row order. A row contributes when its human score is non-null and its joined record has a non-empty id and name. Each entry carries that id and name and the row's score, with a null score read as 0. |
| Rankings.ContributionsCountTotal | app/clinics/page.tsx:42-51 | For every id, the contributions under it number exactly the rows contributing under it. Their scores add up to those rows' scores. |
| Rankings.ContributionsKeys | app/clinics/page.tsx:38-44 | An id appears among the contributions exactly when some row contributes under it. |
| Rankings.ContributionsFirst | app/clinics/page.tsx:42-49 | The first contribution under an id comes from the first row contributing under it, so it carries that row's joined name. |
| Rankings.Ranking | app/clinics/page.tsx:57-62 | The ranking is ordered by average, best first, and is a permutation of the per-id groups. Because the page drops the read's error, a failed or empty read shows no rows. |
| Rankings.RankingIds | app/clinics/page.tsx:42-49 | There is exactly one row per id under which some call row contributes, and no other: the ids are distinct, and an id is present exactly when some contributing row is joined to it. |
| Rankings.RankingRows | app/assistants/page.tsx:36-61 | Each row's `calls` is the number of call rows contributing under its id, which is at least 1. Its average is those rows' score total (a null score as 0) divided by that number. Its name is the joined name of the first row contributing under the id. The same facts hold against the contribution list. |
| Rankings.RankingSum | app/assistants/page.tsx:36-55 | The rows' call counts add up to the number of contributing call rows. |
| Rankings.RankingWithin | app/assistants/page.tsx:51-61 | Each average lies between the lowest and the highest contributing score. |
| CallsTable.FetchCalls | components/calls-table.tsx:41-113 | The count applies the same clinic, assistant, start-time and search predicate as the page read, and a failed count reads as 0. A failed page read records its message and keeps the old rows. `data: null` gives no rows. Otherwise the rows are exactly the window `range((page-1)*10, page*10-1)` of the sorted matches: at most 10 matching table rows in the table's sort order. |
| CallsTable.TableWindow | components/calls-table.tsx:101-104 | The page window `range((page-1)*10, page*10-1)` of the sorted matches holds at most 10 matching rows, in order. |
| CallsTable.HandleFilter | components/calls-table.tsx:119-122 | A new filter map replaces the old one and resets the page to 1. Nothing else changes. |
| CallsTable.HandleSort | components/calls-table.tsx:124-131 | The current column flips its direction. Another column becomes the sort column, ascending. Only the sort column and direction change; the page, filters, rows, count and error are kept. |
| CallsTable.SortTwiceRestores | components/calls-table.tsx:124-131 | Clicking the current column twice restores the state. |
| CallsTable.TotalPages | components/calls-table.tsx:133 | `Math.ceil(totalCount / 10)`: the fewest pages of 10 that hold the count, 0 exactly when the count is 0. |
| CallsTable.Previous | components/calls-table.tsx:340 | `Math.max(1, page - 1)`: above page 1 it goes back one page, from page 1 or below it goes to 1. Only the page changes. |
| CallsTable.Next | components/calls-table.tsx:349 | `Math.min(totalPages, page + 1)`: below the last page it moves on one page, from the last page or beyond it goes to the last page (0 when there are no pages). Only the page changes. |
| CallsTable.PagerKeepsRange | components/calls-table.tsx:340-349 | From a page in 1..totalPages, both buttons stay in 1..totalPages. |
| CallsTable.NextThenPrevious | components/calls-table.tsx:340-349 | Next then Previous returns to the same state whenever Next could move. |
| CallsTable.TablePagesComplete | components/calls-table.tsx:101-133 | After a served count, fetching pages 1..totalPages with the rest of the state fixed shows consecutive windows of one listing; read one after the other they list every matching row exactly once, in table order. |
| CallsTable.EvaluationStatus | components/calls-table.tsx:142-162 | "Evaluado" exactly when both scores are truthy, "En Proceso" exactly when only the human score is, and "Pendiente" otherwise. The badge colours follow the label. |
| CallsTable.ScoreBadge | components/calls-table.tsx:135-140 | The default badge exactly above 80 and the destructive badge exactly below 50. A missing or zero score, or one in 50..80, gets the secondary badge. |
| CallsTable.TableAgreesWithRoute | components/calls-table.tsx:56-67 | Without a search term, the table and the list endpoint select the same rows. The table ignores the evaluation status. |
| CallsFilter.Init | components/calls-filter.tsx:51-66 | A selection is made exactly when the initial filter has a non-empty value, and it is that value. The status is the initial one, or "all" when absent. Each date and the search text is the initial value, or "" when absent. |
| CallsFilter.HandleFilter | components/calls-filter.tsx:121-134 | The map has a clinic or assistant key exactly for a non-null selection, and a date key exactly for a non-empty date. It has a status key exactly when the status is not "all". It never has the search text. |
| CallsFilter.HandleReset | components/calls-filter.tsx:136-144 | Every selection returns to its default except the search text, and the empty map is emitted. |
| CallsFilter.Choice | components/calls-filter.tsx:153-156 | Choosing "all" clears the selection; any other value selects it. |
| CallsFilter.AssistantChoices | components/calls-filter.tsx:98-119 | With a clinic selected, the choices are exactly that clinic's assistants; otherwise they are all assistants, ordered by name. A failed or empty read offers none. |
| CallsFilter.InitThenFilter | components/calls-filter.tsx:51-134 | Opening the panel with F and filtering emits F without its search text, its "all" status and its empty values. |
| CallsFilter.FilterRoundTrip | components/calls-filter.tsx:121-134 | An emitted map is already normal, so reopening the panel with it and filtering again emits the same map. |
| CallsFilter.AllIsOmitted | components/calls-filter.tsx:153-178 | Choosing "all" in either select removes that key from the next emitted map. |
| CallsFilter.ResetThenFilter | components/calls-filter.tsx:121-144 | After "Clear", "Filter" emits the same empty map. |
| OptionsRoute.GetOptions | app/api/options/route.ts:4-46 | An error on either read, and only then, gives a 500 "Failed to fetch options". Otherwise both lists are ordered by name, the clinics are the clinic rows, and `data: null` gives an empty list. |
| OptionsRoute.ScopedAssistants | app/api/options/route.ts:19-29 | The assistant list is the `id, name` of the assistants that pass the clinic filter, reordered by name. |
| OptionsRoute.ScopedExactly | app/api/options/route.ts:20-27 | An option is listed exactly when some assistant of the given clinic has that id and name. |
| OptionsRoute.NoClinicOffersAll | app/api/options/route.ts:20-25 | Without a clinic, every assistant is offered. |
| OptionsRoute.SortByName | app/api/options/route.ts:10-13 | Ordering by name is a permutation whose names never decrease. |
| EvaluationAction.Evaluate | app/actions/calls.ts:17-22 | The human score, human comment and engineer comment are the given values, and `evaluated` is true. Every other column of the row is unchanged. |
| EvaluationAction.Apply | app/actions/calls.ts:15-23 | Every row whose id matches is evaluated, every other row is unchanged, and no row is added or removed. |
| EvaluationAction.UpdateCallEvaluation | app/actions/calls.ts:13-36 | The result is success exactly when the store reports no error. On an error the table is unchanged and the error is handed back. |
| EvaluationAction.SavedIsRowUpdate | app/actions/calls.ts:15-23 | On a table keyed by id, a saved evaluation is the single-row map update at that id, or no change when the id is absent. |
| EvaluationAction.MissingIdChangesNothing | app/actions/calls.ts:23 | An id that no row carries leaves the table unchanged, and the write still reports success. |
| EvaluationAction.SaveTwiceIsSaveOnce | app/actions/calls.ts:15-23 | Saving the same evaluation twice gives the same table as saving it once. |
| EvaluationAction.KeepsKeys | app/actions/calls.ts:17-22 | A table keyed by id stays keyed by id. |
| EvaluationAction.DifferentIdsCommute | app/actions/calls.ts:15-23 | Writes to different ids commute. |
| Utils.FormatDuration | lib/utils.ts:8-12 | For natural seconds the text is digits, a colon, then two more digits. Negative seconds give a leading minus, since the minutes round down. |
| Utils.FormatDurationRoundTrip | lib/utils.ts:8-12 | For natural seconds the text is the decimal minutes, a colon and two digits "00".."59". Reading it back gives the same number of seconds. |
| Utils.NegativeDuration | lib/utils.ts:8-12 | Negative input keeps JavaScript's signs: -61 gives "-2:-1". |
| Utils.JsRem | lib/utils.ts:10 | JavaScript's `%`: the remainder takes the dividend's sign, is smaller than the divisor in size, and is what is left after the quotient rounded toward zero. |
| Utils.PadTwo | lib/utils.ts:11 | `padStart(2, "0")` keeps longer strings and left-pads shorter ones with zeros to two characters. |
| Utils.ScoreColor | lib/utils.ts:23-27 | Green exactly above 0.8, red exactly below 0.5, and amber exactly in between. |
| Utils.ScoreBg | lib/utils.ts:29-33 | The same three bands for the background. |
| Utils.ColoursFollowBand | lib/utils.ts:23-33 | Both helpers are functions of one three-way band. |
| Utils.ColourAndBackgroundAgree | lib/utils.ts:23-33 | Two scores share a text colour exactly when they share a background. |
| Utils.CalculateDifference | lib/utils.ts:35-37 | The difference is non-negative, 0 exactly for equal arguments, and one of the two subtractions. |
| Utils.IsDifferenceSignificant | lib/utils.ts:39-44 | Significant exactly when the arguments differ by strictly more than 10. |
| Utils.DifferenceSymmetric | lib/utils.ts:35-44 | Both tests ignore the order of their arguments. |
| Records.DayOf | app/api/metrics/route.ts:98-100 | The day key is the UTC day containing the instant. |
| Records.OrZero | app/api/metrics/route.ts:63-70 | `score \|\| 0`: a truthy score is kept, and a missing or zero score is 0. |
| Text.ContainsIffOccurs | app/api/calls/route.ts:47-54 | The substring scan succeeds exactly when the term occurs at some position. |

## Left out

- The Supabase client, environment checks, the PostgREST query builder, `await`, `fetch`
  and `NextResponse`. Each store read is a `Reply` parameter; the rows are what the model
  computes from the table contents.
- PostgREST search syntax: the `or(...)` string, ILIKE wildcards and the unescaped
  interpolation of the term. Search is ASCII case-insensitive substring search.
- Collation. Names are ordered by code point.
- `revalidatePath` in the evaluation write: a cache side effect with no data semantics.
- React effects, loading flags, the race between overlapping fetches, and all JSX
  rendering, including the table's error view and the ranking tables.
- `formatDate` and `cn`: locale formatting and class-name merging.
- Date parsing. Parameters arrive as already-parsed instants. The table's date-input strings
  go through a `ToInstant` function parameter.
- Floating point. Averages and rates are exact reals, with no rounding, NaN or `toFixed`.
- The console logging of caught errors.
- CallsRoute.ListCalls: requires the resolved page and page size to be at least 1. The
  store's reply to a zero or negative page size and `parseInt` returning NaN are not modelled.
- CallsRoute.ListCalls: `sortBy` is one of the seven sortable columns. An arbitrary column
  name, and the store's error for an unknown one, are not modelled.
- Rankings.Ranking: groups are listed in first-appearance order before the stable sort.
  JavaScript's `Object.values` would list integer-like ids first; that reordering is not
  modelled, so ties in the average may appear in a different order.
- CallsTable.FetchCalls: the error message of a failed page read is a parameter. The
  choice between `err.message` and "An error occurred" is not modelled.
- CallsRoute.PagingCoversListing, CallsTable.TablePagesComplete: "every row exactly once"
  assumes the store orders tied rows the same way on every request. The sort has no
  tiebreak and each page is a separate request, so a store that orders ties differently
  could show a row on two pages and another on none; that freedom is not modelled.
- Paging.Window: a negative start offset is read as 0. The store's reply to a negative
  `range`, reachable at page 0 (Next with no pages, then a sort click that keeps the page),
  is not modelled.
- MetricsRoute.GetMetrics: every `created_at` is taken as a valid instant. A null or
  unparseable `created_at` makes `toISOString` throw (app/api/metrics/route.ts:99, 106), and
  the catch turns that into a 500 "Failed to fetch metrics"; that path is not modelled.
- CallsRoute.PastTheEndIsEmpty: the lemma is about a served reply, and the model lets the
  store serve any page. The store answers a range starting past the exact count with a
  "range not satisfiable" error, which the route returns as a 500; that reply is not modelled.
- Utils.FormatDurationRoundTrip: the round trip covers natural seconds. Fractional seconds
  are floating point and are not modelled.
- Utils.CalculateDifference: real arithmetic stands in for JavaScript numbers, so NaN and
  infinities are not modelled.
