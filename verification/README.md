# Trendstream: a verified model of exact trending queries

The service counts search queries over a sliding window and serves the most frequent ones.  An event is validated,
normalised, screened for private data, bots and the stop-list, and counted in the shard its query hashes to.  Each shard
is an exact window: a ring of time buckets recycled in place, with running totals per query and per (query, actor).  Once
a second a ranking of all shards, filtered by the stop-list, is published as an immutable snapshot that readers are
served from.

This project models that path and proves that what a reader is served is what was accepted: `Refresh.Rebuild` and
`EndToEnd.ServedIsRight` together say that, after any run of events and scans, in any interleaving, whose clock does
not go back, the list published at `now` holds, for every limit from 1 to 100, the most frequent unlisted queries of
the window with their numbers of accepted events, higher counts first, equal counts in code-point order, and misses
none. For any clock, no count served is too high (`Refresh.ServedNeverOvercounts`), and what the shards show is all of
what was accepted if and only if no operation lost an accepted event of the window (`Ingest.SeenIsAcceptedIffKept`,
`Ingest.AllKeptIffNothingLost`).

## How it is built

- `Text`, `Normalize`: Go's trimming and splitting, and the one-pass normaliser against split, clean, join.
- `Ordering`, `Selection`: sorting by a strict total order, the first `k`, and why merging per-shard lists is exact.
- `Arithmetic`, `Bags`, `Ring`: Go's truncating division, counter maps as bags, and the ring of buckets as a value: what
  each slot holds is the bag of accepted events counted in it.
- `History`: runs.  A history keeps, beside the ring, the log of accepted events and the latest instant the window was
  expired at; the theorems say when the ring agrees with the log.
- `WindowStore`, `AggregatorStore`: the window and the shards as objects with maps updated in place.  Every method is
  proved to step the history exactly as `History` says, so the theorems about runs are theorems about the objects.
- `Routing`: runs of the aggregator on queries as callers give them.
- `Ledger`: runs of the window on events as given, with counts and decisions read off the accepted events.
- `Contract`, `Privacy`, `Stoplist`, `Ingest`, `SnapshotStore`, `Refresh`: the remaining packages on the path.
- `EndToEnd`: from the events as they arrive to what a reader is served, without the state in between.

Instants are integers in nanoseconds and `now` is a parameter.  Theorems that need a clock that does not go back say so
(`Ordered`, `OrderedInputs`, `OrderedOps`, `Punctual`, `onTime`); all others hold for any sequence of `now` values.
Strings are sequences of Unicode scalar values; the character tables are a parameter of which only the laws in
`Text.Tables.Lawful` are used.  The hash, the JSON encoder and the e-mail pattern are parameters too.  Division is
defined by repeated subtraction to keep proofs linear; `Arithmetic.DivIsQuotient` and `Ring.BucketIndexIsEuclidean` tie
it to the usual operators, and `hide` keeps definitions out of proofs that go through lemmas.  The bodies of
`Window.AddAt` and `Window.ExpireAt` are each split over several methods, in the order of the source.

## What the code does that its documentation does not say

- The documentation promises the events inside `[T - W, T]` (`README.md:308-319`).  The code counts whole buckets, and
  keeps the promise in every run if and only if `T - W` is the first instant of a bucket
  (`History.PromiseHoldsIffAligned`).  With the default sizes it counts at 301.5 s an event from 1.2 s, 0.3 s before the
  window starts (`History.DefaultCountsOlderEvent`).  What is counted is less than one bucket too old
  (`History.TimeAccuracy`), with one exception: Go's division truncates toward zero, which makes the bucket at the epoch
  twice as wide, so that bound fails exactly when the window starts inside the first bucket after the epoch
  (`History.CountedIsNearlyInWindow`).
- `now` is read before the shard is locked (`internal/ingest/processor.go:64`, `internal/aggregator/shard.go:24-29`), so a
  shard can see it go back, and an event that is still live can be lost (`History.ClockRegressionLosesAnEvent`).  For any
  clock, a look at `now` shows the accepted events in the window if and only if no operation expired one of them or took
  its slot for another bucket (`History.LookAgreesIffNothingLost`); a look that is not behind any operation misses only
  events whose slot was taken (`History.LookAgreesIffNothingDisplaced`).  The window never overcounts.
- The aggregator routes by the query as given but stores it trimmed, so callers that do not trim can split a query over
  two shards (`AggregatorStore.UntrimmedQuerySplits`).  The merged ranking is that of one window if and only if no two
  accepted events in the window share a trimmed query and hash apart (`Routing.RunActsAsOneIffNotSplit`); callers that
  trim never cause that (`Routing.TrimmedNeverSplits`), and the ingest pipeline does not either (`Ingest.RunIsSound`).
- `snapshot.New` fails for options that ask to precompute a limit above 100 within their own maximum
  (`SnapshotStore.LargeLimitFails`); with a working encoder that and non-positive sizes are all it fails for
  (`SnapshotStore.BuildableIffServable`).

## Model

| member | source | states |
|---|---|---|
| Normalize.Query | internal/normalize/query.go:8-43 | the one-pass loop returns the split, cleaned and re-joined query, and fails exactly when no token is left |
| Normalize.SameFormIffSameTokens | internal/normalize/query.go:8-43 | two inputs normalise alike exactly when their cleaned token lists are equal |
| Normalize.NormalizedIsFixed | internal/normalize/query.go:37-42 | the canonical form is a fixed point of normalising and trimming, and joining its fields gives it back |
| Normalize.NormalizedIsCanonical | internal/normalize/query.go:17-42 | only plain runes and single inner blanks, non-empty, never longer than the trimmed input |
| Normalize.FixedIffCanonical | internal/normalize/query.go:8-43 | the fixed points of the normaliser are exactly the strings of canonical shape |
| Normalize.CleanSplit | internal/normalize/query.go:30-36 | cleaning deletes control runes and lowercases every other rune, one by one |
| Normalize.TokensSplit | internal/normalize/query.go:17-36 | every white-space rune separates tokens, and a stretch without any is one cleaned token, or none if nothing is left |
| Text.TrimSpaceCuts | internal/normalize/query.go:9 | trimming cuts off exactly the white space at both ends |
| Text.FieldsOfJoin | internal/stoplist/stoplist.go:90 | splitting tokens joined by one blank gives the tokens back |
| Text.FieldsSplit | internal/stoplist/stoplist.go:90 | every white-space rune separates fields, and a stretch without any is one field |
| Ring.CheckedIffUsable | internal/aggregator/window.go:57-86 | with defaults filled in, construction succeeds exactly for positive, divisible sizes and positive limits |
| Ring.CheckedInOrder | internal/aggregator/window.go:57-86 | which check is reported: sizes before limits, the first that fails |
| Ring.DefaultsFilled | internal/aggregator/window.go:346-374 | each setting that is zero takes its default: five minutes, one second, ten seconds, 1000000, 100000 and 3 |
| Ring.IdsAreQuotients | internal/aggregator/window.go:329-335 | one slot more than the window has buckets; bucket ids are quotients of the instant rounded toward zero |
| Arithmetic.DivIsQuotient | internal/aggregator/window.go:333-335 | on non-negative operands the model's division and remainder are the usual ones |
| Arithmetic.TruncIsQuotient | internal/aggregator/window.go:333-344 | below zero the quotient rounds toward zero and the remainder takes the sign of the dividend |
| Ring.LiveSpan | internal/aggregator/window.go:329-335 | the ids between the window's floor and now are fewer than the ring's slots, also below and across zero |
| Ring.BucketIndexIsEuclidean | internal/aggregator/window.go:337-344 | the fixed-up remainder is the Euclidean one |
| Ring.SameSlotSameId | internal/aggregator/window.go:337-344 | ids less than a ring apart never share a slot |
| Ring.ExpireContents | internal/aggregator/window.go:272-289 | expiry keeps exactly the events whose bucket reaches the floor, with their multiplicity |
| Ring.ExpireTwice | internal/aggregator/window.go:272-289 | expiring at two instants is expiring at the later one; expiry is idempotent |
| Ring.PutContents | internal/aggregator/window.go:291-311 | storing an event loses what the recycled slot held, nothing else, and loses nothing if and only if no live bucket is displaced |
| Ring.PutLimits | internal/aggregator/window.go:143-176 | an accepted event never breaks a cardinality or actor limit, also when its slot is recycled after the checks |
| WindowStore.NewWindow | internal/aggregator/window.go:57-96 | the first failing check is the error; otherwise a fresh empty window with defaults filled in |
| WindowStore.Window.AddAt | internal/aggregator/window.go:102-182 | decides as the ring and limits say, and steps the history: counted once, or left as expiry or nothing leaves it |
| WindowStore.Window.AddExpired | internal/aggregator/window.go:127-157 | age, actor and window limits in that order, on the expired window; a refusal changes nothing more |
| WindowStore.Window.AddToBucket | internal/aggregator/window.go:159-181 | the bucket limit, then one more event in the bucket, the totals and the log |
| WindowStore.Window.ExpireAt | internal/aggregator/window.go:272-289 | the buckets below the floor are emptied and the totals still index exactly what is left |
| WindowStore.Window.EnsureBucket | internal/aggregator/window.go:291-311 | the bucket handed out is this id's, made, kept or recycled, and the totals index what survives |
| WindowStore.Window.SubtractBucket | internal/aggregator/window.go:313-327 | both total maps lose exactly the bucket's counts, for every iteration order, and keep no zero entries |
| Bags.SubtractCounts | internal/aggregator/window.go:314-319 | subtracting counts key by key in any order yields the map of the bag difference |
| WindowStore.Window.TopFilteredAt | internal/aggregator/window.go:192-230 | the best admitted items of the live counts, higher counts first and ties by code points, whatever order the map is iterated in |
| WindowStore.Window.CountAt | internal/aggregator/window.go:232-236 | never more than the accepted live events for the query, and exactly those if none of them has been lost |
| WindowStore.Window.ActorCountAt | internal/aggregator/window.go:238-245 | the live accepted events of the actor for the query if none of them has been lost |
| WindowStore.Window.UniqueQueriesAt | internal/aggregator/window.go:247-251 | the number of live queries, within the limit |
| WindowStore.Window.ActorCountersAt | internal/aggregator/window.go:253-257 | the number of live (query, actor) pairs |
| WindowStore.Window.WindowEventsAt | internal/aggregator/window.go:259-270 | the number of live accepted events if none of them has been lost |
| WindowStore.TotalsAreBucketSums | internal/aggregator/window.go:170-176 | in every state the totals are the pointwise sums of the buckets and hold only positive counts |
| WindowStore.ActorsWithinQueries | internal/aggregator/window.go:170-176 | in every bucket of a window, and in its totals, a query's actor counts add up to at most its own count |
| History.RunInv | internal/aggregator/window.go:102-327 | for any clock, every reachable state files events under their bucket, respects all limits and counts no more than the log |
| History.RingRefinesLog | internal/aggregator/window.go:102-182 | looking at any instant of a run in clock order finds exactly the accepted events at or above the floor: per query, per actor and in total |
| History.NeverOvercounts | internal/aggregator/window.go:272-311 | for any clock, no count exceeds the live accepted events |
| History.LookBound | internal/aggregator/window.go:232-270 | on any reachable history a look never overcounts, and shows exactly the live accepted events if and only if all of them are still counted; the counts per query alone tell |
| History.RunKept | internal/aggregator/window.go:272-311 | for any clock, the events accepted at or above any bucket id are all still counted if and only if no operation of the run expired one or took its slot |
| History.LookAgreesIffNothingLost | internal/aggregator/window.go:125-135 | for any run and any clock, a look shows the accepted events in the window, per query, per actor and in total, if and only if no operation lost one of them |
| History.LookAgreesIffNothingDisplaced | internal/aggregator/window.go:291-311 | a look not behind any operation does so if and only if no accepted event took the slot of an accepted event still in the window |
| Ledger.LoggedAsGiven | internal/aggregator/window.go:102-182 | for every query and every actor that is not blank, a run logs as many events at or above a bucket as were accepted with that text once trimmed, and with that bucket by the time they carry, at most the instant of arrival |
| Ledger.SeenAsGiven | internal/aggregator/window.go:232-270 | a look shows these numbers for its window, if no operation lost one of the events |
| Ledger.DecidedAsGiven | internal/aggregator/window.go:102-168 | why an event is refused, read off the events accepted before: blank, early or late by itself; the actor, window and bucket limits, in this order, exactly when they are reached, if nothing was lost |
| Ledger.RefusedOnlyAtLimit | internal/aggregator/window.go:137-168 | for any clock a limit refuses an event only if the accepted events have reached it |
| History.OnTimeLosesNothing | internal/aggregator/window.go:125-135 | if every event was accepted at or above the floor of the latest expiry, nothing in the window is lost |
| History.OrderedIsOnTime | internal/aggregator/window.go:125-135 | a clock that does not go back meets that condition |
| History.OnTimeDisplacesNothing | internal/aggregator/window.go:303-308 | an event at or above the floor of the latest expiry never displaces a live bucket |
| History.ClockRegressionLosesAnEvent | internal/aggregator/window.go:291-311 | a concrete run in which a clock step back loses a live event |
| History.RejectionOnlyExpires | internal/aggregator/window.go:102-168 | a rejected event leaves the counts untouched or as plain expiry leaves them, for any clock |
| History.FullBucketWasNotRecycled | internal/aggregator/window.go:159-168 | the bucket limit can refuse only an event whose bucket was already in place |
| History.AcceptedCountsOnce | internal/aggregator/window.go:170-171 | after acceptance the query's count is one more than before, if and only if the recycled slot held nothing for it |
| History.OnTimeCountsOnce | internal/aggregator/window.go:170-171 | with a clock that has not gone back it always is |
| History.TimeAccuracy | internal/aggregator/window.go:114-135 | events from inside the window are all counted, and counted events are less than one bucket older than the window |
| History.CountedIsNearlyInWindow | internal/aggregator/window.go:329-335 | that bound holds if and only if the window does not start inside the first bucket after the epoch |
| History.CountedIsInWindow | internal/aggregator/window.go:329-335 | the counted buckets are exactly `[now - W, now]` if and only if the window starts on the first instant of a bucket |
| History.PromiseHoldsIff | README.md:308-319 | no run in clock order counts an event from before `now - W`, if and only if the last such instant the future check lets through is in a bucket below the floor |
| History.PromiseHoldsIffAligned | README.md:308-319 | for any future skew that does not refuse the whole window, that is if and only if the window starts on the first instant of a bucket |
| History.LoneEventIsCounted | internal/aggregator/window.go:114-135 | an event in a counted bucket is accepted by a fresh window and counted, also when it happened before the window |
| History.DefaultCountsOlderEvent | internal/aggregator/window.go:46-55 | a concrete run with the default sizes that counts an event from before the documented window |
| Ordering.RankedUnique | internal/aggregator/aggregator.go:136-144 | a bag has one sorted listing, so an unstable sort has no freedom |
| Ordering.StringLessIsCodePointOrder | internal/aggregator/aggregator.go:138-142 | the order of queries is that of code points: a proper prefix, or the smaller rune at the first difference |
| Ordering.TopIsBest | internal/aggregator/window.go:217-227 | the first `k` are sorted, from the bag, and beaten by nothing left out |
| Ordering.MergeTake | internal/aggregator/aggregator.go:75-87 | only the first `k` of one list can reach the first `k` of a merge |
| Ordering.TopAbsorbs | internal/aggregator/aggregator.go:75-87 | cutting one part to its own best first does not change the overall best |
| Selection.ItemBeforeIsStrictTotal | internal/aggregator/aggregator.go:136-144 | the ranking is a strict total order, and is higher count first, then code points |
| Selection.TopItemsIffBest | internal/aggregator/aggregator.go:75-87 | a list is the `k` best if and only if counts fall along it, equal counts are in code-point order, and no item left out has a higher count, or an equal one and an earlier query, than one listed |
| Selection.ItemsOfMember | internal/aggregator/window.go:196-215 | an item is listed once for each query the filter admits, with the query's count |
| Selection.CandidatesSuffice | internal/aggregator/aggregator.go:77-79 | adding a shard's best to the candidates ranks like adding all its items |
| Selection.ShardsActAsOne | internal/aggregator/aggregator.go:70-88 | with disjoint shards the merged items are those of one undivided window, under any filter |
| Selection.ShardsActAsOneIffDisjoint | internal/aggregator/aggregator.go:58-60 | and only with disjoint shards |
| AggregatorStore.NewAggregator | internal/aggregator/aggregator.go:31-52 | a bad shard count or window configuration is the error; otherwise that many fresh windows |
| AggregatorStore.IndexIsRemainder | internal/hash/hash.go:13-19 | the shard of a query is the remainder of its hash |
| AggregatorStore.Aggregator.AddAt | internal/aggregator/aggregator.go:58-60 | only the shard the query as given hashes to is stepped |
| AggregatorStore.Aggregator.TopFilteredAt | internal/aggregator/aggregator.go:70-88 | every shard is expired at `now` and the result is the best of all their admitted items, higher counts first and ties by code points |
| AggregatorStore.Aggregator.CountAt | internal/aggregator/aggregator.go:90-92 | the live count in the query's own shard |
| AggregatorStore.Aggregator.UniqueQueriesAt | internal/aggregator/aggregator.go:94-102 | the live queries of all shards, added up |
| AggregatorStore.Aggregator.ActorCountersAt | internal/aggregator/aggregator.go:104-112 | the live (query, actor) pairs of all shards, added up |
| AggregatorStore.DisjointUnique | internal/aggregator/aggregator.go:94-102 | when no query lives in two shards, the shards' numbers of queries add up to the number of different queries |
| AggregatorStore.GaugesAdd | internal/aggregator/aggregator.go:104-112 | the actor counters of several shards are added up, each shard counting its different (query, actor) pairs |
| AggregatorStore.UniqueQueriesBounded | internal/aggregator/aggregator.go:94-102 | at most shards times the per-shard limit in every reachable state |
| AggregatorStore.Aggregator.WindowEventsAt | internal/aggregator/aggregator.go:114-122 | the number of live events of all shards together |
| AggregatorStore.UntrimmedQuerySplits | internal/aggregator/aggregator.go:58-60 | two spellings of one key that hash apart are live in two shards |
| Routing.RunDelivers | internal/aggregator/aggregator.go:58-60 | in every run each shard logs exactly the accepted events whose query as given hashes to it, under the trimmed query |
| Routing.OverlapIsSplit | internal/aggregator/aggregator.go:132-134 | for any clock, two shards show one query only if two accepted events in the window share it trimmed and hash apart |
| Routing.DisjointIffNotSplit | internal/aggregator/aggregator.go:132-134 | and always then, if no shard lost an event of the window |
| Routing.RunActsAsOneIffNotSplit | internal/aggregator/aggregator.go:58-88 | in a run whose clock does not go back, the shards list like one undivided window if and only if no two accepted events in the window share a trimmed query and hash apart |
| Routing.TrimmedNeverSplits | internal/aggregator/aggregator.go:58-60 | if all queries arrive trimmed, no query is ever shown by two shards, for any clock |
| Stoplist.BuildSnapshot | internal/stoplist/stoplist.go:119-145 | all normalised terms, and exactly the single-word ones as tokens |
| Stoplist.TermSetMembers | internal/stoplist/stoplist.go:119-145 | a term is in the set exactly when some raw term normalises to it |
| Stoplist.ContainsMeaning | internal/stoplist/stoplist.go:33-45 | a query is suppressed exactly when its canonical form or one of its words is a term |
| Stoplist.ContainsMonotone | internal/stoplist/stoplist.go:81-97 | adding terms never un-suppresses a query, however it is spelt |
| Stoplist.ReplaceOwnTerms | internal/stoplist/stoplist.go:63-70 | publishing the listed terms again changes nothing |
| Stoplist.StopList.Terms | internal/stoplist/stoplist.go:47-61 | the sorted listing of the term set, for every iteration order |
| Stoplist.ListingMembers | internal/stoplist/stoplist.go:47-61 | that listing is strictly sorted and has exactly the set's members |
| Stoplist.ListingUnique | internal/stoplist/store.go:62 | any strictly sorted list with the same members is that listing |
| Stoplist.ContainsSorted | internal/stoplist/stoplist.go:167-170 | binary search finds a term exactly when it is listed |
| Stoplist.NormalizeTerms | internal/stoplist/store.go:45-62 | normalising, dropping duplicates and sorting yields the listing of the normalised set |
| Stoplist.FileStore.Load | internal/stoplist/store.go:30-65 | a missing file is an empty list, an unreadable or malformed one an error, else the listing of its normalised terms |
| Stoplist.FileStore.Save | internal/stoplist/store.go:67-138 | the file becomes the listing if every operation succeeds; if any fails it stays as it was, and a temporary file is left only if it was made and cannot be removed |
| Stoplist.NewService | internal/stoplist/service.go:13-23 | starts with disk and memory in step, or fails exactly when loading does |
| Stoplist.Service.Add | internal/stoplist/service.go:33-56 | inserts the normalised term on disk and in memory, or changes neither; the reply tells which |
| Stoplist.Service.Remove | internal/stoplist/service.go:58-88 | deletes the normalised term on disk and in memory, or changes neither; the reply tells which |
| Stoplist.StepInStep | internal/stoplist/service.go:33-88 | each call inserts, deletes or changes nothing in the abstract set and keeps disk, memory and index in agreement |
| Stoplist.SetAfterMembers | internal/stoplist/service.go:33-88 | term by term: a call that goes through makes the named term enter or leave, and every other term stays |
| Stoplist.ReplyMeans | internal/stoplist/service.go:33-88 | the reply names the normalised term and says whether the set changed; a blank term and a needed save that fails are the errors |
| Stoplist.RunStaysInStep | internal/stoplist/service.go:13-88 | so does every run with any save failures and restarts, and a restart rebuilds the same list |
| SnapshotStore.New | internal/snapshot/snapshot.go:53-90 | succeeds exactly when every wanted limit can be encoded; keeps the first items, and each payload encodes the response with the first items for its limit |
| SnapshotStore.PayloadEncodesResponse | internal/snapshot/snapshot.go:101-122 | limits below 1 and above 100 are refused; for any other the payload is the encoding of the window, the time and the first items |
| SnapshotStore.OptionDefaults | internal/snapshot/snapshot.go:165-181 | each option that is zero or empty takes its default: 300 seconds, 100 items, payloads for 10, 20, 50 and 100 |
| SnapshotStore.BuildableIffServable | internal/snapshot/snapshot.go:53-90 | with an encoder that never fails, `New` succeeds if and only if the sizes are positive and no limit to precompute lies above 100 within the maximum; with any encoder it needs that |
| SnapshotStore.LargeLimitFails | internal/snapshot/snapshot.go:75-85 | options that precompute 150 of at most 200 items make `New` fail |
| SnapshotStore.ResponseRanks | internal/snapshot/snapshot.go:101-143 | every limit from 1 to 100 is served the best items for that limit |
| Refresh.Rebuild | cmd/trendstream/main.go:198-219 | publishes a snapshot serving, at every limit, the best unlisted items of all shards at `now`, whose payloads for 10, 20, 50 and 100 encode exactly these lists, and sets the four gauges of the same instant; on failure the old one stays |
| Refresh.NothingListedIsServed | cmd/trendstream/main.go:201-203 | no served query is on the stop-list |
| Refresh.ServedIsAcceptedRanking | cmd/trendstream/main.go:198-210 | after any run of events and scans in clock order, what is served is the ranking of the accepted events in the window, filtered and cut |
| Refresh.ServedUnlessLost | cmd/trendstream/main.go:198-210 | for any clock, the same is served if no operation lost an accepted event of the window |
| Refresh.ServedNeverOvercounts | cmd/trendstream/main.go:198-210 | for any clock, no served count exceeds the accepted events for its query in the window |
| Refresh.FilterStopListedItems | cmd/trendstream/main.go:234-249 | compacts the unlisted items to the front in order and leaves the cells behind them alone |
| Refresh.FilterSplit | cmd/trendstream/main.go:240-248 | filtering keeps or drops item by item, in order |
| Refresh.FilterAfterCutIsPrefix | cmd/trendstream/main.go:234-249 | filtering after the cut yields only a prefix of what filtering before it yields |
| Privacy.LuhnValid | internal/privacy/filter.go:192-215 | the right-to-left loop decides the double-add-double check of ISO/IEC 7812-1, Annex B |
| Privacy.LuhnIsAnnexB | internal/privacy/filter.go:192-215 | a number passes if and only if it has 13 to 19 digits and its digits add up to a multiple of ten, every second one from the right doubled and the digits of the double added |
| Privacy.RaisedDigit | internal/privacy/filter.go:200-212 | raising a digit by one adds one, or two where it is doubled, or takes seven off a doubled 4 |
| Privacy.ZerosPass | internal/privacy/filter.go:192-215 | thirteen to nineteen zeros pass |
| Privacy.OneWrongDigitIsDetected | internal/privacy/filter.go:192-215 | changing one digit of an accepted number makes it rejected |
| Privacy.SwapIsDetected | internal/privacy/filter.go:192-215 | swapping two neighbours keeps it accepted if and only if they are equal or 0 and 9 |
| Privacy.CheckDigitIsUnique | internal/privacy/filter.go:192-215 | each prefix of 12 to 18 digits has exactly one accepting check digit |
| Privacy.AsciiDigits | internal/privacy/filter.go:180-190 | the loop collects exactly the ASCII digits, in order |
| Privacy.DigitsSplit | internal/privacy/filter.go:180-190 | rune by rune: a digit from 0 to 9 is kept, any other rune dropped |
| Privacy.ContainsSensitiveData | internal/privacy/filter.go:30-32 | sensitive exactly when the trimmed query matches the e-mail, card, digit-run, phone or digit-share rule |
| Privacy.Inspect | internal/privacy/filter.go:34-80 | the rule named is the first in order that matches, and none is named exactly when none matches |
| Privacy.FirstMatchMeans | internal/privacy/filter.go:34-80 | sensitive if and only if one of the five rules matches; they are tried in the order e-mail, card, digit run, phone, digit share |
| Privacy.RulesMean | internal/privacy/filter.go:48-76 | what each rule matches: the Annex B sum of the digits, nine ASCII digits in a row, the phone shape, 40 per cent digits |
| Privacy.PhoneMarkers | internal/privacy/filter.go:148-164 | of the five phone words two are redundant: they contain the first |
| Privacy.CharacterStats | internal/privacy/filter.go:88-103 | runes, digits and letters, a rune that is both counting as a digit |
| Privacy.CountSplit | internal/privacy/filter.go:88-103 | a rune adds one if it is of the kind counted |
| Privacy.LooksLikePhoneNumber | internal/privacy/filter.go:105-164 | ten to fifteen digits with a phone word, or with nothing but phone runes and no letter |
| Privacy.InsensitiveIsClean | internal/privacy/filter.go:34-80 | a query that passes carries no card number, no nine digits in a row, and no ten digits that make up 40 per cent of it |
| Contract.ActorKeyPrecedence | internal/contract/event.go:26-39 | the actor is the user, else the device, else the address, else the session |
| Contract.ValidMeans | internal/contract/validation.go:39-93 | an event is valid if and only if it has schema version 1, an id, a time at most ten seconds ahead and a query of 1 to 256 runes |
| Contract.InvalidMeans | internal/contract/validation.go:39-93 | each complaint is about one of these, the ones before it being in order |
| Ingest.AdmittedMeans | internal/ingest/processor.go:67-111 | an event reaches the aggregator if and only if it is valid, its canonical query is insensitive and neither listed nor has a listed word, and it is not a bot's; it is handed on with its time and its actor |
| Ingest.RefusedMeans | internal/ingest/processor.go:67-105 | which reason is given before the aggregator, and what the answer carries |
| Ingest.AnswerMeans | internal/ingest/processor.go:107-126 | an event that reaches the aggregator is accepted exactly when it is not dropped, and a drop reason is passed on as it is |
| Ingest.AdmittedIsPresentable | internal/ingest/processor.go:67-105 | an event that reaches the aggregator carries a canonical, trimmed, insensitive query of 1 to 256 runes |
| Ingest.PresentableIsClean | internal/privacy/filter.go:34-80 | no stored query carries a card number, nine digits in a row, or ten digits that make up 40 per cent of it |
| Ingest.Processor.ProcessAt | internal/ingest/processor.go:67-126 | answers and steps the shards exactly as the pipeline says: refused before, dropped by, or counted in the aggregator |
| Ingest.RunIsSound | internal/ingest/processor.go:67-126 | after any run of events and scans, for any clock and stop-list, every key of every shard is canonical, short enough, insensitive and only in its hash shard |
| Ingest.RunSplits | internal/ingest/processor.go:107-111 | the shards' logs together are the pipeline's log |
| Ingest.RunIsPunctual | internal/ingest/processor.go:107-111 | without clock regression no shard is ever handed an event late |
| Ingest.ShardIsRun | internal/aggregator/shard.go:24-29 | each shard goes through exactly the window run of the operations that reach it |
| Ingest.SeenIsAcceptedIffKept | internal/ingest/processor.go:67-126 | for any clock, all shards together never show more than the accepted queries in the window, each in one shard, and show all of them if and only if no shard lost one |
| Ingest.AllKeptIffNothingLost | internal/aggregator/window.go:272-311 | and that is so if and only if no operation that reached a shard expired such an event or took its slot |
| Ingest.SeenIsAccepted | internal/ingest/processor.go:67-126 | without clock regression all shards together show exactly the accepted queries in the window, each in one shard |
| Ingest.ReportedCount | internal/ingest/processor.go:121-125 | and an accepted answer's count is one more than a look before shows, the number of accepted events in the window |
| EndToEnd.LogIsAcceptances | internal/ingest/processor.go:67-126 | each logged entry stands for one accepted event, with its canonical query, trimmed actor and bucket; no accepted event was a bot's, malformed, sensitive or listed at its moment |
| EndToEnd.LogAsAccepted | internal/ingest/processor.go:107-126 | per canonical query, the log counts the events that were accepted |
| EndToEnd.OrderedLosesNothing | internal/ingest/processor.go:107-126 | a clock that does not go back loses nothing |
| EndToEnd.ServedIsRight | cmd/trendstream/main.go:198-210 | if nothing was lost, the list served for a limit holds the most frequent unlisted queries of the window with their numbers of accepted events, in order, and misses none |
| EndToEnd.GaugesAreRight | cmd/trendstream/main.go:213-217 | if nothing was lost, the gauges are the number of accepted events in the window and of different queries among them |
| EndToEnd.ReportedIsAccepted | internal/ingest/processor.go:121-125 | an accepted answer's count is the number of events accepted for its query in the window, this one included |
| EndToEnd.NotAcceptedChangesLittle | internal/ingest/processor.go:67-119 | an event refused before the aggregator changes nothing; one dropped there at most expires its own shard |

## Left out

- Kafka consumer, decoder, HTTP handlers, authentication, metrics, logging, configuration loading and server set-up.
- Mutexes and interleavings: each operation on a shard is one step, and a scan reads each shard in one step.
- The stop-list changing in the middle of one rebuild: the filter of a rebuild is fixed.
- Wrappers that only read the clock (`Add`, `Top`, `Process`), `Snapshot` and `Clone` of the stop-list, and nil receivers.
- The result observer of the processor, which only feeds metrics.
- 64-bit overflow of counters and instants outside the range of Go's `UnixNano`.
- Strings that are not valid UTF-8; Go replaces their bad bytes while normalising.
- JSON: encoding is a parameter, and the stop-list file is a cell holding its list of terms.
- Stoplist.FileStore.Save: a crash between two file operations and a half-written temporary file are not modelled.
- Refresh.Rebuild: the duration of a rebuild is not measured.
- Privacy.ContainsSensitiveData: the e-mail pattern and the digit and letter tables are parameters, and the share of
  digits is compared exactly, where the code compares a floating-point quotient with 0.40.
- Go's sorting algorithm: an insertion sort stands for it, and the sorted list is unique.
- A nil filter in `TopFilteredAt`: the filter that admits everything stands for it.
