# Top workplaces — a Dafny model

The script `server/src/scripts/top-workplaces.ts` reports the three active
workplaces with the most completed shifts. It does this in four steps:

1. It reads every page of the `/workplaces` and `/shifts` collections. Each
   response is `{ data, links: { next? } }`, and the script follows `next`
   until the link is absent or empty.
2. It keeps the workplaces whose `status` is 0.
3. It counts the shifts with a non-null `workerId` per `workplaceId`.
4. It maps each active workplace to `{ name, shifts }`, with a count of 0
   when the workplace has no completed shift. It sorts these entries by
   count, largest first; the sort is stable, so ties keep their fetch
   order. It keeps the first three.

The model has one module per concern:

- `Wrappers` is the `Option` type.
- `Seqs` holds `Min` and an order-preserving `Filter`.
- `Records` holds the record shapes, `IsActive` and `IsCompleted`.
- `Pagination` models the cursor-following loop shared by `fetchAllWorkplaces`
  and `fetchAllShifts`. It has the reference traversal `Walk`, the `while`
  loop `FetchAll`, and a description of a run as a sequence of requests.
- `ShiftCounts` models the tally map and checks it against an independent
  count, `CompletedAt`.
- `StableSort` is a stable insertion sort. It includes a proof that every
  stable descending sort gives the same result.
- `TopWorkplaces` holds the ranking pipeline `Rank` and the whole
  operation, `GetTopWorkplaces`.
- `Examples` works through concrete inputs.

The HTTP service is a parameter: a map from a page locator to the page it
returns. A locator the map has no entry for is a failed request. The service
is deterministic, so a loop that asks for the same locator a second time
would cycle forever. The model reports that case as `Endless` instead of
diverging.

## Model

| member | source | states |
|---|---|---|
| Pagination.NextLocator | server/src/scripts/top-workplaces.ts:34 | the loop stops exactly when `links.next` is absent or is the empty string; otherwise the link is the next locator |
| Pagination.Walk | server/src/scripts/top-workplaces.ts:27-37 | a traversal fails only at a non-empty locator the service does not answer; it is endless only at a non-empty locator the service does answer (one already requested) |
| Pagination.FetchAll | server/src/scripts/top-workplaces.ts:31-35 | the `while (nextUrl)` loop: whenever a run of requests from the start reaches the end of the links or a failing request, the loop returns what that run implies: the concatenation of every page's `data` in fetch order, or the failing locator. Whatever it returns is explained by such a run of requests |
| Pagination.RunsOfFetchAll | server/src/scripts/top-workplaces.ts:40-50 | the traversal agrees with every complete run of requests from its start, and some run explains every outcome. The same loop serves `fetchAllShifts` |
| Pagination.LeadsSuffix | server/src/scripts/top-workplaces.ts:31-35 | each request after the first one uses the `next` link of the page before it: every suffix of a run is itself a run |
| Pagination.LeadsDeterministic | server/src/scripts/top-workplaces.ts:31-35 | the loop has one path: two runs from the same locator agree on their common length |
| Pagination.RunsToTerminalAgree | server/src/scripts/top-workplaces.ts:31-35 | two runs from one locator that both end at the same stopping locator are equal |
| Pagination.LeadsDistinct | server/src/scripts/top-workplaces.ts:31-35 | a run that ends at a stopping locator never requests a locator twice |
| Pagination.WalkFollowsRun | server/src/scripts/top-workplaces.ts:31-37 | completeness: a run that ends with an absent link yields exactly its pages' items, and one that ends at a failing request yields that failure |
| Pagination.WalkHasRun | server/src/scripts/top-workplaces.ts:31-37 | soundness: each outcome comes from a run of requests; fetched items are that run's pages' data, and an endless outcome stopped at a locator already requested |
| Pagination.EmptySinglePage | server/src/scripts/top-workplaces.ts:31-37 | a single page with empty `data` and no usable `next` link gives an empty result and no error |
| Seqs.Filter | server/src/scripts/top-workplaces.ts:62 | `Array.prototype.filter`: the result keeps exactly the elements that pass the test, and is no longer than the input |
| Seqs.FilterMultiplicity | server/src/scripts/top-workplaces.ts:62-65 | `Array.prototype.filter` keeps every copy of an element that passes the test, and drops every copy of one that fails |
| Seqs.FilterAppend | server/src/scripts/top-workplaces.ts:62 | filtering a concatenation is the concatenation of the filtered parts, so the relative order is kept |
| Seqs.FilterIdempotent | server/src/scripts/top-workplaces.ts:62 | filtering twice with the same test is the same as filtering once |
| ShiftCounts.GetOrZero | server/src/scripts/top-workplaces.ts:69 | `shiftCounts.get(id) \|\| 0`: a stored count is returned as is. In a tally with no zero entries, the result is 0 exactly when `id` has no entry |
| ShiftCounts.Bump | server/src/scripts/top-workplaces.ts:69-70 | `get(id) \|\| 0` then `set(id, current + 1)`: the count at `id` goes up by one, and no other count changes |
| ShiftCounts.Tally | server/src/scripts/top-workplaces.ts:68-71 | the `forEach` over the shifts never puts a zero count into the map |
| ShiftCounts.CompletedAt | server/src/scripts/top-workplaces.ts:64-65 | reference count of the shifts that have a worker at workplace `id`: never more than the number of shifts, and 0 exactly when no such shift exists |
| ShiftCounts.TallyCompleted | server/src/scripts/top-workplaces.ts:65-71 | tallying the completed shifts adds exactly the reference count at every workplace id |
| ShiftCounts.CountCompleted | server/src/scripts/top-workplaces.ts:65-71 | the finished map holds the reference count for every workplace id. Its keys are exactly the workplaces that have at least one completed shift |
| ShiftCounts.UnassignedShiftsAddNothing | server/src/scripts/top-workplaces.ts:65 | shifts whose `workerId` is null never change any count |
| StableSort.Insert | server/src/scripts/top-workplaces.ts:79 | one insertion step: the result gains exactly the new entry, keeps a descending sequence descending, and puts the new entry before every entry of its own count |
| StableSort.Sort | server/src/scripts/top-workplaces.ts:79 | `.sort((a, b) => b.shifts - a.shifts)`: the result has the input's length and is in non-increasing order of count. For every count, its entries of that count are the input's entries of that count, in input order (stability) |
| StableSort.SortPermutes | server/src/scripts/top-workplaces.ts:79 | the sort only reorders: the result is a permutation of the input |
| StableSort.InsertPermutes | server/src/scripts/top-workplaces.ts:79 | an insertion adds the one entry and nothing else |
| StableSort.StableOrderUnique | server/src/scripts/top-workplaces.ts:79 | two descending sequences that have the same entries of each count, in the same order, are equal |
| StableSort.StableSortIsUnique | server/src/scripts/top-workplaces.ts:79 | every stable descending ordering of the input is exactly `Sort` of it, so the model's algorithm does not matter |
| StableSort.WithCountMembers | server/src/scripts/top-workplaces.ts:79 | the entries of a given count taken from a sequence are exactly its members with that count |
| StableSort.WithCountAppend | server/src/scripts/top-workplaces.ts:79-80 | the entries of a given count in a concatenation are those of the first part followed by those of the second |
| StableSort.HeadsAgree | server/src/scripts/top-workplaces.ts:79 | two stable descending orderings of the same entries start with the same entry |
| StableSort.FirstIsLargest | server/src/scripts/top-workplaces.ts:79 | in a descending sequence, the first count is at least every count that occurs |
| Records.IsActive | server/src/scripts/top-workplaces.ts:62 | the test `workplace.status === 0`: status 0 is the only active status |
| Records.IsCompleted | server/src/scripts/top-workplaces.ts:65 | the test `shift.workerId !== null`: a shift counts as completed exactly when a worker is assigned |
| TopWorkplaces.Active | server/src/scripts/top-workplaces.ts:62 | the filtered workplace list holds exactly the fetched workplaces whose status is 0 |
| TopWorkplaces.ActiveMultiplicity | server/src/scripts/top-workplaces.ts:62 | every active workplace stays in the list as often as it was fetched, and no inactive one is left |
| TopWorkplaces.Candidates | server/src/scripts/top-workplaces.ts:74-78 | there is one entry per active workplace, in fetch order: the workplace's name and its completed-shift count, or 0 when it has none |
| TopWorkplaces.Rank | server/src/scripts/top-workplaces.ts:61-80 | there are `min(3, #active)` entries. Each is an active workplace's name with its completed-shift count. The entries are in non-increasing order and are the first of each count in fetch order. They are drawn from the candidates, and every candidate left out has a count no larger than any reported one |
| TopWorkplaces.PrefixOfSorted | server/src/scripts/top-workplaces.ts:80 | `.slice(0, n)` of a descending sequence is still descending and keeps the first entries of each count. Nothing left behind is larger than a kept entry |
| TopWorkplaces.CandidateOrigin | server/src/scripts/top-workplaces.ts:74-78 | every candidate entry comes from an active workplace with its completed-shift count |
| TopWorkplaces.RankIsAnyStableSortTop | server/src/scripts/top-workplaces.ts:79-80 | the ranking is the first three entries of any stable descending sort of the candidates |
| TopWorkplaces.ActiveNeverDropped | server/src/scripts/top-workplaces.ts:74-77 | every active workplace has its entry among the candidates |
| TopWorkplaces.ZeroDefault | server/src/scripts/top-workplaces.ts:77 | `shiftCounts.get(id) \|\| 0`: an active workplace without completed shifts is a candidate with count 0 |
| TopWorkplaces.RankDependsOnCounts | server/src/scripts/top-workplaces.ts:65-80 | the ranking depends on the shifts only through the completed-shift count of each workplace |
| TopWorkplaces.OnlyCompletedShiftsMatter | server/src/scripts/top-workplaces.ts:65 | removing every shift without a worker leaves the ranking unchanged |
| TopWorkplaces.OnlyActiveWorkplacesMatter | server/src/scripts/top-workplaces.ts:62 | removing every inactive workplace leaves the ranking unchanged |
| TopWorkplaces.InactiveWorkplaceIgnored | server/src/scripts/top-workplaces.ts:62 | an inactive workplace, wherever it sits in the fetched list, never affects the ranking |
| TopWorkplaces.GetTopWorkplaces | server/src/scripts/top-workplaces.ts:53-82 | the run gives a ranking exactly when both traversals fetch everything, and the ranking is `Rank` of the two item lists. It fails exactly when one traversal hits a failing request, and it reports that request's locator, the workplaces' one first |
| Examples.EndToEnd | server/src/scripts/top-workplaces.ts:61-80 | on a sample with an inactive workplace, an unassigned shift and an active workplace with no shifts, the ranking is `[A: 2, C: 0]` |
| Examples.TiesKeepFetchOrder | server/src/scripts/top-workplaces.ts:79-80 | with counts 5, 5, 3, 5 in fetch order, the top three are the three entries with count 5, in fetch order |
| Examples.ThreePages | server/src/scripts/top-workplaces.ts:31-35 | three linked pages are concatenated in link order |

## Left out

- The HTTP client (`axios.get`) and `API_BASE_URL` (lines 1, 25, 29, 32, 42 and 45). The paginated service is a parameter, a map from locator to page, and the two start locators are parameters of `GetTopWorkplaces`. The model assumes the service answers a locator the same way every time.
- The service answers only finitely many locators, because it is a finite map. A service whose `next` links keep naming new locators, on which the `while (nextUrl)` loop (line 31) would run forever, cannot be expressed. `FetchAll` relies on this for termination.
- A request that does not fail but would loop forever (a `next` chain that returns to a locator already requested) is reported as `Endless`; in the script the loop never ends. A real service could answer a repeated request differently; the model does not cover that.
- `Promise.all` concurrency (lines 56-59). The two traversals run one after the other. When both fail, the script rejects with whichever request failed first in time; `GetTopWorkplaces` reports the workplaces' failure. When one traversal fails and the other would never end, both report the failure: `Promise.all` rejects at the first rejection, and the driver exits.
- Error contents and wrapping. A failed request is identified only by its locator. The `try`/`catch` that rewraps the error as `Failed to fetch top workplaces: …` (lines 83-85) is not modelled.
- The driver that prints the result as JSON or prints the error and exits with status 1 (lines 88-96).
- JavaScript numbers are modelled as unbounded integers. Counts are `nat`, and the comparator `b.shifts - a.shifts` is used only for its sign, so there is no floating-point or overflow behaviour to model.
- `workerId` is either `null` (`None`) or a number. A shift that leaves `workerId` out entirely has `undefined` there, which the script's `!== null` test counts as completed; the model has no such value.
- Record fields are taken as well-typed; the model does not cover responses whose `data` is missing or not an array.
- Duplicate records are kept as they come. A workplace listed twice is reported twice, with the same count each time. A shift listed twice is counted twice. The script does neither deduplication.
