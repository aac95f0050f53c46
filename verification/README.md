# PropVexis: a verified model

PropVexis is a trading journal. It takes trades in from brokers, aggregates them, watches the rules of
prop-firm challenges, and keeps the books of the accounts behind them. This project models the parts of it
whose correctness depends on several pieces agreeing, and proves that they do, or says exactly when they do
not.

- **Analytics** (`Trades`, `Perf`, `Groups`, `Streaks`, `Yearly`). The server computes in SQL what a slower
  JavaScript reference computes in loops. Each CTE is given a meaning over rows in (close_time, id) order
  and proved equal to the loop: gap-and-islands against the streak loops, `GROUP BY` with its two-stage ordering
  against `groupPerf`, the (month, setup) cells against direct aggregates.
- **Broker ingestion** (`Framing`, `Windows`, `Paging`, `Ingest`, `Origins`, `Backfill`, `BackfillCases`). A
  byte stream is cut into frames, a history into windows, a window into overlapping pages, deals into rows, rows
  into batches, and the upsert absorbs every overlap. The pieces compose into an exactly-once theorem.
- **The socket underneath** (`Connection`, `ConnectionLaws`, `Throttle`). Requests in flight, their settlement,
  what the socket has authorized, and the rate limit all accounts share.
- **The analytics cache** (`StatsCache`, `StatsBus`, `CacheCluster`). One worker's bounded map against an
  unbounded reference, then any number of workers with messages that may be late or lost.
- **Challenges** (`ChallengeStatus`, `Challenges`, `ChallengeInvariants`, `ChallengeLaws`, `ChallengeRuns`,
  `ChallengeCases`, `ChallengeStore`). Accounts, challenge rows and groups under fifteen kinds of committed step.
  `ChallengeStore` runs the statements on mutable tables, `ChallengeLaws` says what a step leaves in the rows, and
  the other modules prove what holds over every run.
- **Balance and drawdown** (`Drawdown`, `PropFigures`). The back-computed anchor, the merged stream of trades and
  payouts, the high-water mark, and what the reported figures are.
- **Provisioning** (`Provisioning`, `ProvisioningRuns`, `ProvisioningLaws`). Account creation, the login bound
  later, and the challenge cost charged once across two places.

`Prelude` holds the list vocabulary the modules share: selection, folding and a stable sort.

## How the model reads

A table is a map from key to row, a transaction one step, and a run any sequence of steps. Code that changes
fields or loops is a class or a method, tied by its `ensures` to a function of the old state; the theorems are
about those functions, and laws beside them say what each step does in the fields of its own inputs. Money and R
values are exact reals. Clocks, the broker's book and the engine's verdict are inputs. Every transaction is atomic;
where the code makes separate writes (bind, then charge; archive an account, then the two statements that reconcile
its group) or reads before it writes, the steps are separate and anything may happen between them. `deleteAccount`
is seen from two sides: `Challenges` follows the account, its challenges and its group, `Provisioning` the fees
filed under its login.

The broker's page contract is an assumption, written as `Paging.DealList`: a request for `[cursor, to]` returns
the oldest `maxRows` deals in that span, deals of one millisecond in one fixed order, and says whether any were
left out.

## Where the code departs from what it says

The code is kept as it is; each departure has a concrete input and its exact extent.

- The `streaks` comment calls it the twin of the CTE. The loop resets on a row with no value, the CTE drops the
  row first (`UnscoredRowSplitsARun`, `SameAnswerExactly`, `AgreeExactlyWhenNoRunInterrupted`).
- Groups are said to arrive in first-appearance order. `MIN(close_time)` and `MIN(id)` are taken independently, so
  groups that open at one instant can arrive the other way round (`TieInversionHappens`,
  `OrderedListsAgreeExactly`).
- In the yearly matrix a setup named `month` or `overall` overwrites that property of every row
  (`ComputeYearly`, `NamesClash`).
- "A resumed backfill starts where it stopped", but with a fresh budget of 122 windows: an account registered before
  the budget's reach, or with no registration date, is walked further than the first run would have gone. A window
  edge on the epoch itself, which takes a registration before 1970, reads as no cursor (`ResumeIsRemainder`,
  `ResumeWithoutFloorWalksOn`).
- Paging stops when a page ends where it began: a millisecond that fills a page hides what follows it in the
  window (`StallHappens`, `StallLosesRows`, `ReachesEndExactly`, `CompleteExactly`).
- "Direction comes from the opening deal": for a position held across a window edge there is none at hand, and the
  trade is filed as a buy opened when it closed, a short included (`ShortFiledAsLong`, `OpenerStoredExactly`,
  `UnopenedIsFiledAsBuy`).
- The read that hits a bad length throws away the payloads it had already completed, and only those
  (`OneReadOrTwo`, `DeliveredAndLost`, `ThrowLosesItsOwnRead`).
- A cache fill that spans an invalidation stores a stale answer, bounded only by the time to live
  (`SpanningProduceIsServedStale`).
- A rejected pass is recognised only without a reason: one settled by hand with a reason gets through
  (`ManualPassWithReasonSlipsThrough`).
- "A group is failed when an account in it breached" has two exceptions, an advance marked as a breach and the
  deletion of the breached account (`AdvanceLeavesBreachRunning`, `AdvanceBreachExactly`, `DeleteLeavesFailure`,
  `DeleteExactly`).
- "A challenge follows its accounts": an archive edit and the group's reconcile are separate writes, so between
  them, or after a failure there, the group lags (`ArchiveLags`, `ArchiveLagsExactly`, `GroupsFollowUnlessOwed`).
- "A dead socket has authorized nobody": a reply and a disconnect message in one read leave the authorization to
  be recorded after the set was cleared (`StaleAuthorization`, `SoundExactly`, `PromptExactly`).
- Deleting an account is meant to remove its rows. A charge still on its way, or a login bound after the deletion
  read it, leaves one behind (`FeeOutlivesItsAccount`, `OrphansAriseExactly`).

## Model

| member | source | states |
|---|---|---|
| `Trades.SnappedTwins` | src/domain/analytics/statsSql.js:38-58 | For every row, unit and rounding setting, the SQL value and outcome expressions over the stored row are the JavaScript value and outcome over the breakeven-snapped row, and a value is NULL exactly when the raw column is |
| `Perf.ShapedAggregatesArePerf` | src/domain/analytics/aggregations.js:62-92 | For every row list, unit and rounding setting, `shapePerf` of the SQL aggregates is `perf` of the snapped list: counts, rate and rounded sum |
| `Perf.OutcomesPartition` | src/domain/analytics/statsSql.js:62-67 | Wins, losses and breakevens partition the scored rows |
| `Perf.PerfMeans` | src/domain/analytics/aggregations.js:62-76 | Over any selection of rows, every row that carries a number in the display unit counts once, as a win, a loss or (within a tenth of zero under the rounding, or zero) a breakeven, and adds its own number to the sum; rate and sum are shown to the nearest hundredth, and the rate only when something was scored |
| `Groups.GroupPerf` | src/domain/analytics/aggregations.js:98-115 | The Map-filling loop returns exactly one row per non-empty key, with the figures of that key's rows; without an order list best result first, with one the keys outside it first and the others by their first place in it, and equals always in order of first appearance |
| `Groups.GroupTable` | src/domain/analytics/aggregations.js:94-115 | The same of the specified list: distinct keys, every non-empty key present, each pair of rows ordered by result or by place in the list and then by first appearance |
| `Groups.KeyedTablesAgree` | src/domain/analytics/statsSql.js:173-182 | As a keyed table the shaped SQL groups equal `groupPerf` of the snapped list, whatever the ids |
| `Groups.OrderedListsAgreeExactly` | src/domain/analytics/statsSql.js:165-186 | As ordered lists, stable sort included, the two are equal if and only if no two groups of equal rank open at the same instant with their lowest ids in the opposite order |
| `Groups.IdsInCloseOrderNeverInvert` | src/domain/analytics/statsSql.js:168-172 | Ids that increase with close order rule that inversion out, so the documented first-appearance order holds |
| `Groups.TieInversionHappens` | src/domain/analytics/statsSql.js:178-186 | For three trades whose lowest ids reverse a shared first close time, a query result that the two independent minima allow, and the two paths list its groups differently |
| `Streaks.ServerStreaks` | src/domain/analytics/aggregations.js:187-198 | The server loop, with its reset on an unscored row, computes the specified running tally |
| `Streaks.ClientStreaks` | frontend/src/lib/metrics.js:87-105 | The client loop finds the same best runs over scored trades, and its two backward scans give the live run that ends the list |
| `Streaks.Trailing` | frontend/src/lib/metrics.js:96-105 | The backward scan counts the outcomes at the end of the list |
| `Streaks.IslandsAreMaximalRuns` | src/domain/analytics/statsSql.js:262-266 | Two rows of one outcome get the same group number if and only if every row between them has that outcome: an island is one maximal run |
| `Streaks.GapAndIslands` | src/domain/analytics/statsSql.js:258-272 | For every outcome list, the maximum island length (0 when there is none) is the loop's best run, and the newest island is its live run, for wins and for losses |
| `Streaks.StreaksCteRefinesLoop` | src/domain/analytics/statsSql.js:255-272 | Over any trades in (close_time, id) order, what the `streaks` CTE selects from the scored rows is what the reference loop returns for them |
| `Streaks.UnscoredRowsNeverLengthen` | src/domain/analytics/aggregations.js:187-198 | On a list with unscored rows the reference loop never finds a longer run than the CTE |
| `Streaks.AgreeExactlyWhenNoRunInterrupted` | src/domain/analytics/aggregations.js:187-198 | The running tallies of loop and CTE stay equal on every prefix if and only if every unscored row arrives while no run is live |
| `Streaks.BestIsLongest` | src/domain/analytics/aggregations.js:187-198 | The maximum the loop returns is the longest stretch of consecutive rows of that outcome: one exists and none is longer |
| `Streaks.SameAnswerExactly` | src/domain/analytics/statsSql.js:258-272 | For wins and for losses separately, loop and CTE return the same maximum if and only if some longest run of the scored rows has no unscored row inside it |
| `Streaks.UnscoredRowSplitsARun` | src/domain/analytics/statsSql.js:260 | Win, unscored, win: the reference loop says 1, the CTE says 2 |
| `Yearly.TotalsAreDirect` | src/domain/analytics/aggregations.js:306-318 | Any selection of (month, setup) cells adds up to the direct aggregate over the trades it covers |
| `Yearly.CellsAddUp` | src/domain/analytics/aggregations.js:309-318 | `addCells` over cells with distinct keys is the aggregate over the union of their rows |
| `Yearly.IndexCells` | src/domain/analytics/aggregations.js:334-335 | The lookup Map holds a cell for every month and label among the cells, and only such cells |
| `Yearly.OrderSetups` | src/domain/analytics/aggregations.js:176-183 | Every named setup present gets a column and nothing else does, the catalog's in its order, then the rest collated, none twice unless the catalog repeats it |
| `Yearly.ColumnsAddUp` | src/domain/analytics/aggregations.js:338-347 | A month's or the year's setup columns and its trades without a setup add up to its overall aggregate |
| `Yearly.ComputeYearly` | src/domain/analytics/aggregations.js:322-350 | Each of the twelve month rows and the TOTAL row, built from cells, holds its label and the direct aggregate of its trades, overall and per setup; a setup named `month` or `overall` takes that property over, as the assignment order does |
| `Yearly.NamesClash` | src/domain/analytics/aggregations.js:339-347 | Two trades, one of a setup named `overall`: the total row's overall column counts one; with `month` instead, the row has lost its label |
| `Yearly.EquityEndsOnHeadline` | src/domain/analytics/statsSql.js:246-254 | The equity curve has one point per headline trade, each step adds exactly that trade's value, and its last unrounded point is the headline sum |
| `Yearly.BucketsPartition` | src/domain/analytics/statsSql.js:209-219 | The seven R buckets partition the rows that carry an R, and the breakeven bucket is the breakeven count |
| `Yearly.ColumnHolds` | src/domain/analytics/statsSql.js:209-219 | Each column counts exactly the rows whose rounded Fixed R falls in its band: up to -1, the other losses, zero, (0,1], (1,2], (2,3], and beyond 3 |
| `Framing.FrameReader.Push` | worker/ctrader/framing.js:35-51 | Appends, drains complete frames in order, keeps the remainder, and throws on an oversized length with the buffer starting at the bad frame |
| `Framing.WriteUInt32BE` | worker/ctrader/framing.js:19-23 | The four-byte prefix reads back as the length written |
| `Framing.FrameOnTheWire` | worker/ctrader/framing.js:18-24 | A frame is its payload behind four bytes that spell its length, most significant first, and is refused exactly when the length does not fit them |
| `Framing.DrainIsLossless` | worker/ctrader/framing.js:37-50 | Payloads out, framed again, followed by what stays buffered, are the bytes that were buffered; what stays holds no complete frame |
| `Framing.WhatStays` | worker/ctrader/framing.js:35-51 | The reader throws if and only if what it is left with announces more than 8 MiB; otherwise what stays is short of its own frame |
| `Framing.DrainInvertsStream` | worker/ctrader/framing.js:18-51 | Reading a framed list gives the list back with nothing left over |
| `Framing.CutsDoNotMatter` | worker/ctrader/framing.js:31-51 | Any chunking throws exactly when the whole stream would; if not it delivers the same payloads and remainder as one read, and if so it delivers them short of what the throwing read discarded |
| `Framing.DeliveredAndLost` | worker/ctrader/framing.js:35-51 | What was delivered followed by what the throwing read discarded is everything the stream holds ahead of its bad length |
| `Framing.Reassembly` | worker/ctrader/framing.js:18-51 | Every list of payloads within the limit, framed, concatenated and cut anywhere, comes out as that list with an empty buffer |
| `Framing.RunIsLossless` | worker/ctrader/framing.js:31-51 | On every run that did not throw, framed outputs followed by the buffer are the bytes received and no complete frame is waiting |
| `Framing.ThrowIsPermanent` | worker/ctrader/framing.js:41-45 | Once a stream throws, more bytes never make it recover |
| `Framing.ThrowLosesItsOwnRead` | worker/ctrader/framing.js:37-45 | For every idle buffer and every chunking, payloads are missing if and only if the read that throws also completed a frame |
| `Windows.BackfillWindows` | worker/ctrader/windows.js:37-54 | The loop returns the specified walk from the given top down to the floor; a missing value and 0 both read as absent |
| `Windows.BackfillTiles` | worker/ctrader/windows.js:28-54 | The windows are non-empty, newest first, contiguous, at most 30 days each, at most 122, and tile exactly `[max(floor, top - 122 windows), top]` |
| `Windows.WindowsAre` | worker/ctrader/windows.js:38-52 | From the three arguments: window `i` is the thirty days that end `i` times thirty days below the cursor, or now without one, cut off at the registration date or, without one, 122 windows down; at most 122 and short of that only at the floor |
| `Windows.TilesCover` | worker/ctrader/windows.js:46-52 | Every instant of the span lies in some window |
| `Windows.TilesInside` | worker/ctrader/windows.js:46-52 | No window reaches outside the span |
| `Windows.ResumeIsRemainder` | worker/ctrader/windows.js:38-52 | With a known floor, resuming from the lower edge of any window gives exactly the remaining suffix if and only if the edge is not 0 and the floor was within 122 windows; with a positive floor no edge is 0 |
| `Windows.ResumeWithoutFloorWalksOn` | worker/ctrader/windows.js:41-44 | Without a known floor a resume walks a full 122 windows again |
| `Paging.FetchWindow` | worker/ctrader/backfill.js:65-85 | The paging loop brings back exactly the deals the pages reach, overlap included, and nothing else |
| `Paging.Ask` | worker/ctrader/backfill.js:70-76 | One request returns the next slice of the window and its latest timestamp, under the stated page contract of the broker |
| `Paging.ReachesEndExactly` | worker/ctrader/backfill.js:65-85 | Within what the page cap gets through, the window is read to its end if and only if no millisecond fills a page by itself with more to come |
| `Paging.StallLosesRows` | worker/ctrader/backfill.js:80-82 | However many pages are allowed, none gets past such a millisecond |
| `Paging.CapNotHit` | worker/ctrader/backfill.js:68 | A window that never stalls and is within the capacity of the pages left is read to its end |
| `Paging.PageAdvances` | worker/ctrader/windows.js:56-65 | An unfinished page moves on by all its rows but those at its last timestamp: that is all the overlap re-reads |
| `Ingest.DealsToTrades` | worker/ctrader/backfill.js:95-118 | The loop over the deals sorted by time emits one row per closing deal with the opener seen so far |
| `Ingest.OpenerIsEarliest` | worker/ctrader/backfill.js:96-107 | The opener used is the earliest opening deal of its position, and none is missed |
| `Ingest.OneRowPerClosingDeal` | worker/ctrader/backfill.js:87-118 | Each closing deal has a row and every row is some closing deal's |
| `Ingest.SplitBatch` | src/domain/trades/batch.js:14-21 | The chunks concatenate to the list, none is empty or over the limit, and all but the last are full |
| `Ingest.UpsertColumns` | src/routes/trades.js:132-152 | After any run of payloads a row's mechanical columns hold the last payload's values, the preserved columns the last non-NULL value, and the user's own tags never move |
| `Ingest.OtherColumns` | src/routes/trades.js:132-152 | The same column by column for the owner, the MFE and the maximum R of a row |
| `Ingest.ReplayIsNoOp` | src/routes/trades.js:146-152 | Sending the same payloads again leaves the whole table unchanged |
| `Ingest.UpsertKeys` | src/routes/trades.js:146-152 | The table gains exactly the payloads' keys |
| `Ingest.TradeTable.IngestBatch` | src/routes/trades.js:301-312 | The batch loop stores exactly the rows that do not throw, in order, and reports one result per trade |
| `Ingest.TradeTable.PostAll` | worker/ctrader/backfill.js:166-170 | Posting in chunks, whichever rows are refused, leaves the table one pass over the accepted rows would leave, and counts every row sent |
| `Backfill.BackfillAccount` | worker/ctrader/backfill.js:127-175 | Walks the windows, stops early only after two empty windows in a row with no registration date, posts one row per closing deal reached, each made in one window with an opening deal of that window or none, and the table is what the rows not refused leave |
| `Backfill.ExactlyOnce` | worker/ctrader/backfill.js:127-175 | Composed: with complete windows the table ends with a row for exactly the closing deals of the span whose row was not refused, each with its deal's close time and figures and, where a window holds the opening deal too, the side and open time of that very deal; everything else untouched |
| `Backfill.NothingRefused` | src/routes/trades.js:301-312 | With nothing refused the keys gained are exactly the span's closing deals |
| `Backfill.OpenerStoredExactly` | worker/ctrader/backfill.js:87-118 | For the position's oldest opening deal, the stored row has its side and time if and only if some window holds it together with the closing deal |
| `Backfill.UnopenedIsFiledAsBuy` | src/domain/sync/connectors/ctrader.js:119-132 | Where no window that holds the closing deal holds an opening deal of its position, the row stored says buy, opened at the moment it closed |
| `BackfillCases.ShortFiledAsLong` | src/domain/sync/connectors/ctrader.js:111-132 | A short opened a millisecond before a window edge and closed a millisecond after it is stored as a long, whatever else is refused or was there |
| `Backfill.CompleteExactly` | worker/ctrader/backfill.js:65-85 | At the code's 200 pages of 1000 rows, a window within their capacity is complete if and only if no millisecond of it stalls |
| `Backfill.QuietWindowIsComplete` | worker/ctrader/backfill.js:65-85 | A sufficient condition on a window's deals for it to be complete within 200 pages |
| `Backfill.StalledWindowIsIncomplete` | worker/ctrader/backfill.js:80-81 | A stalling millisecond makes its window incomplete, whatever else the book holds |
| `BackfillCases.StallHappens` | worker/ctrader/backfill.js:80-81 | 1001 deals at one millisecond of a window well within capacity: the last of them is never read |
| `Backfill.BackfillKnownAccount` | worker/ctrader/backfill.js:127-175 | The whole pipeline in one call: with `registeredAt` known, at most 122 windows and quiet windows, a row is sent for every closing deal in `[registeredAt, now]`, the table gains exactly those not refused, and posting it all again changes nothing |
| `Backfill.ResumedExactlyOnce` | worker/ctrader/backfill.js:120-175 | A run killed after checkpointing a window, with any part of the next ones already posted, and the run resumed from that checkpoint leave together what one whole run leaves, openers included |
| `StatsCache.Cache.Get` | src/platform/statsCache.js:60-69 | A hit returns the live entry and moves it to the back; an expired entry is dropped; the counters add up |
| `StatsCache.Cache.Set` | src/platform/statsCache.js:71-79 | The entry is at the back, the oldest are evicted down to the bound, and evictions are counted |
| `StatsCache.Cache.InvalidateUser` | src/platform/statsCache.js:85-91 | What is left are, in order, exactly the entries of some other user, nothing at all for an unknown user, and the counters count the rest |
| `StatsCache.PurgeLeavesOthers` | src/platform/statsCache.js:85-91 | The purge that every invariant is stated with leaves exactly the entries owned by some other user |
| `StatsCache.BoundedAndFaithful` | src/platform/statsCache.js:54-91 | Over every run the cache holds at most `maxEntries` distinct keys and whatever it holds for a key is what an unbounded table that forgets only on expiry or invalidation remembers |
| `StatsCache.OrderIsRecency` | src/platform/statsCache.js:64-66 | Over every run the Map order is the order of the last set or hit of each key |
| `StatsCache.NotEvictedEarly` | src/platform/statsCache.js:74-78 | An entry still remembered is still held while fewer than `maxEntries` distinct other keys were touched since its own last touch |
| `StatsBus.Bus.Invalidate` | src/platform/statsBus.js:69-82 | The local purge happens first and whatever the transport does; at most one message leaves, and the counters say which |
| `StatsBus.Bus.OnMessage` | src/platform/statsBus.js:86-93 | Echoes and malformed messages change nothing, any other message purges locally, and nothing is ever published |
| `StatsBus.InvalidationReachesTheOthers` | src/platform/statsBus.js:28-43 | What a worker publishes is obeyed by every worker but itself, for the very user it was for |
| `CacheCluster.EveryRunIsSafe` | src/platform/statsBus.js:69-93 | Over all interleavings on any number of workers, every entry and every fill in flight that misses a committed write, where entry or write has no known user or both have the same one, has a cause: invalidate not yet called, message in flight, message lost, or a fill that spanned the invalidation |
| `CacheCluster.StaleHitHasCause` | src/platform/statsCache.js:60-100 | The same for any hit actually served, which is also inside its time to live |
| `CacheCluster.QuietClusterIsFresh` | src/platform/statsBus.js:84-93 | With every invalidation called and nothing in flight, lost or spanned, no entry misses a write |
| `CacheCluster.DeliveriesEnd` | src/platform/statsBus.js:84-93 | Deliveries publish nothing: any sequence of deliveries and losses takes one message off the channel each, so it ends |
| `CacheCluster.SpanningProduceIsServedStale` | src/platform/statsCache.js:94-100 | A fill whose query ran before a write and whose store runs after the invalidation leaves a stale entry that is then served |
| `CacheCluster.StepFills` | src/platform/statsCache.js:60-100 | What each step does to its one worker, the writes and the messages: a fill starts blind, reads every write committed so far and is stored with its owner for a minute at the back of at most 500 entries; a lookup moves a live entry to the back and drops an expired one; an invalidation leaves exactly somebody else's entries |
| `Challenges.LatestIsUnique` | src/domain/prop/challengeGroups.js:289-294 | The statement's ordering selects one row |
| `ChallengeLaws.EvaluationSettles` | src/domain/prop/challengeStatus.js:55-73 | A running, unsilenced row read with its rules ends passed, dated now, if and only if nothing is breached, the target is reached and the days are met; breached with the breach's reason, and its day for a daily-loss breach only, if and only if it is breached; and stays as it is otherwise |
| `ChallengeLaws.EvaluationNeedsRules` | src/domain/prop/challengeStatus.js:55-68 | Without a reading, without rules or without a running row an evaluation writes nothing |
| `ChallengeLaws.EvaluationTouchesNothingElse` | src/domain/prop/challengeGroups.js:211-252 | Besides that row an evaluation touches only the account's own group, and that one only on a breach of a running group, which it fails and dates |
| `ChallengeLaws.HandSettles` | src/domain/prop/challengeGroups.js:197-252 | A settlement by hand writes the stamp of its outcome, the reason of a breach only and the day of a daily-loss breach only; a silenced verdict writes nothing |
| `ChallengeLaws.ReopenedRow` | src/domain/prop/challengeGroups.js:272-312 | The latest settled row runs again with its dates and answer cleared, silencing what it had shown when asked to, and its account is open; no other row or account changes |
| `ChallengeLaws.ReopenedGroup` | src/domain/prop/challengeGroups.js:313-324 | The account's failed group runs again, undated, if and only if no other row in it is a breach, and no other group changes |
| `ChallengeLaws.AnsweredRow` | src/domain/prop/challengeGroups.js:355-389 | The latest unanswered row is answered now, and the account closes for that outcome unless it was closed already |
| `ChallengeLaws.SweptExactly` | src/domain/prop/challengeGroups.js:453-494 | The sweep closes an account if and only if it is open, not archived, runs no challenge and has a settlement unanswered for over seven days with no trade closed after it |
| `ChallengeLaws.AdvancedRows` | src/domain/prop/challenges.js:295-338 | The running row closes with the mark, its stamp and its reason, a fresh running row of the account starts, and no other row, account or group changes |
| `ChallengeLaws.EditLiftsSilence` | src/domain/prop/challenges.js:274-292 | A rules edit clears what the running row silenced and leaves every other row alone |
| `ChallengeLaws.EditedRowSpeaks` | src/domain/prop/challengeStatus.js:109-123 | After the edit the next evaluation settles the row on any verdict, the rejected one included |
| `ChallengeLaws.JoinsExactly` | src/domain/prop/challengeGroups.js:163-174 | A phase joins a named challenge if and only if it is the user's, not failed and not archived, and brings one fresh running row |
| `ChallengeLaws.ClosedByHand` | src/domain/accounts/accounts.js:289-296 | Closing by hand keeps the first closing date, taking it back clears date and reason, and only that account changes |
| `ChallengeLaws.OwedExactly` | src/routes/accounts.js:185-200 | A group is owed a reconcile from an archive edit by the owner of an account in it until the owner's archive statement or a deletion in it has been through |
| `ChallengeLaws.DeletedExactly` | src/domain/accounts/accounts.js:336-366 | The owned account and its challenge rows are gone and no other account or row is |
| `ChallengeLaws.OthersChangeNothing` | src/domain/prop/challenges.js:295-338 | A caller who does not own the account changes nothing by advancing, closing, archiving or deleting it |
| `ChallengeLaws.ArchiveDates` | src/domain/prop/challengeGroups.js:534-544 | A first archive dates the group, a later one keeps the date, an unarchive clears it |
| `ChallengeRuns.EveryRun` | src/domain/prop/challengeGroups.js:197-333 | Over every run of fifteen kinds of step: one active challenge per account, foreign keys and owners agree, rows and groups carry the dates of their state, every group has an account, every pass or breach closure is explained by an answered row |
| `ChallengeRuns.GroupsFollowUnlessOwed` | src/routes/accounts.js:185-200 | In every reachable state, between any two statements, a group is active exactly when one of its accounts is, unless an archive edit of one of them still owes it a reconcile |
| `ChallengeRuns.NothingOwedAllFollow` | src/domain/prop/challengeGroups.js:496-544 | With every reconcile through, every group follows its accounts |
| `ChallengeRuns.ArchiveLagsExactly` | src/routes/accounts.js:187-197 | Between the account's update and the reconcile its group stays in step if and only if the edit does not change whether some account is active |
| `ChallengeCases.ArchiveLags` | src/routes/accounts.js:187-197 | A two-step run to an active group without an active account, owed a reconcile |
| `ChallengeInvariants.ArchiveSettles` | src/domain/prop/challengeGroups.js:534-544 | The archive statement brings its group into step whatever it showed before |
| `ChallengeRuns.FailedIffBreached` | src/domain/prop/challengeGroups.js:235-243 | Over runs without account deletion and without an advance marked as a breach, a group is failed if and only if an account in it has a breached row |
| `ChallengeRuns.AdvanceBreachExactly` | src/domain/prop/challenges.js:295-328 | An advance marked as a breach keeps that rule if and only if it does not close a running row of a running group |
| `ChallengeCases.AdvanceLeavesBreachRunning` | src/domain/prop/challenges.js:309-315 | A two-step run to a running group with a breached row |
| `ChallengeRuns.DeleteExactly` | src/domain/accounts/accounts.js:336-366 | Deleting an account of a failed group keeps it if and only if it does not take the last breach and leave members behind |
| `ChallengeCases.DeleteLeavesFailure` | src/domain/accounts/accounts.js:336-366 | A four-step run to a failed group whose one remaining account never breached |
| `ChallengeRuns.ReopenUndoesSettle` | src/domain/prop/challengeGroups.js:254-333 | Reopening right after a settlement restores challenges, accounts and groups to what they were |
| `ChallengeRuns.SilenceHolds` | src/domain/prop/challengeStatus.js:82-123 | After a rejection no run of engine evaluations and other traffic settles the row on a verdict the rejection covers, until the rules are edited or the trader acts on the phase |
| `ChallengeRuns.RejectedStaysSilent` | src/domain/prop/challengeGroups.js:276-301 | From a suppressing reopen on, over any run that leaves the phase to the engine, the row runs or has settled on a verdict other than the one rejected |
| `ChallengeRuns.ScopeOfSilence` | src/domain/prop/challengeStatus.js:109-123 | An engine evaluation leaves the reopened row as it is if and only if it reaches no verdict or the one rejected: the same pass, the same undated breach, a dated daily-loss breach on that day only |
| `ChallengeRuns.OtherVerdictsSettle` | src/domain/prop/challengeGroups.js:211-232 | Every verdict the rejection does not cover settles the row |
| `ChallengeRuns.ManualPassWithReasonSlipsThrough` | src/domain/prop/challengeGroups.js:218-231 | A pass settled by hand with a reason is not the rejected pass to the comparison, and settles the row |
| `ChallengeRuns.SweepClosesExactlyTheRipe` | src/domain/prop/challengeGroups.js:453-494 | The sweep closes an account if and only if it was pending in its owner's list and has an unanswered settlement over seven days old with no later trade |
| `ChallengeRuns.SweepAnswersExactly` | src/domain/prop/challengeGroups.js:474-482 | A row is answered by the sweep if and only if its account is closed by it and the row is the latest ripe one |
| `ChallengeRuns.ReconcileTwice` | src/domain/prop/challengeGroups.js:528-557 | A second reconcile changes nothing |
| `ChallengeRuns.ArchiveDateStays` | src/domain/prop/challengeGroups.js:534-544 | The archive date does not move while a group stays archived, whatever the step |
| `ChallengeInvariants.KeepsFailedHasBreach` | src/domain/prop/challengeGroups.js:313-324 | Only an account deletion can leave a failed group without a breach |
| `ChallengeInvariants.KeepsBreachFails` | src/domain/prop/challenges.js:309-315 | Only an advance marked as a breach can leave a breach in a running group |
| `ChallengeStore.Store.ApplyChallengeOutcome` | src/domain/prop/challengeGroups.js:197-252 | The transaction, statement by statement, is the settle step or leaves all tables alone, and names the row it settled |
| `ChallengeStore.Store.ReopenChallenge` | src/domain/prop/challengeGroups.js:272-333 | The transaction is the reopen step on the latest settled row, or changes nothing |
| `ChallengeStore.Store.AcknowledgeOutcome` | src/domain/prop/challengeGroups.js:355-389 | The answer and the closure are written together, on the latest unanswered row, or not at all |
| `ChallengeStore.Store.AdvanceChallenge` | src/domain/prop/challenges.js:295-338 | For an owned account the running row is closed and the new one opened; otherwise nothing changes |
| `ChallengeStore.Store.DropEmptyGroup` | src/domain/prop/challengeGroups.js:528-532 | The owner's group goes if and only if it has no account |
| `ChallengeStore.Store.ArchiveGroup` | src/domain/prop/challengeGroups.js:534-544 | The owner's group becomes active exactly when an account in it is, keeping the date it was archived on |
| `ChallengeStore.Store.ReconcileGroup` | src/domain/prop/challengeGroups.js:546-557 | The two statements together are the reconcile step |
| `ChallengeStore.Store.RunCascade` | src/domain/accounts/accounts.js:344-363 | Deleting removes every row keyed on the login and no other, the account, its challenges and its empty group, or, for a caller who does not own the account, nothing |
| `ChallengeStore.CascadeDeleteStatements` | src/domain/accounts/cascade.js:65-77 | One delete per login-keyed table in order, none for a pending account, the owned account row last |
| `ChallengeStore.CascadeIs` | src/domain/accounts/cascade.js:65-77 | With a login every one of the six tables is deleted from, by that login; without one none is; the account's row goes last, by its id and its owner |
| `Drawdown.CurveDrawdown` | frontend/src/lib/metrics.js:114-116 | The loop returns the largest fall from any earlier point, zero start included, to a later one |
| `Drawdown.ReplayEvents` | frontend/src/lib/metrics.js:233-263 | The event loop's equity, trading marks and curve are the specified fold over the merged stream |
| `Drawdown.ComputeProp` | frontend/src/lib/metrics.js:179-306 | Absent for live capital; otherwise the figures `FiguresMean` is about: start, anchor, balance, net result, both drawdowns and the curve |
| `Drawdown.CurveLandsOnBalance` | frontend/src/lib/metrics.js:205-265 | With a live balance the unrounded curve ends exactly on it; without one, on start plus all trades and post-add withdrawals |
| `Drawdown.CurveAt` | frontend/src/lib/metrics.js:237-263 | The curve has one point more than there are events, each the anchor plus everything up to it |
| `Drawdown.HighWaterIsLargestFall` | frontend/src/lib/metrics.js:246-247 | The running peak and drawdown are the highest point and the largest fall from any point to itself or a later one |
| `Drawdown.MaxDrawdownIsHighWater` | frontend/src/lib/metrics.js:217-247 | The reported maximum drawdown is the largest fall of trading equity from the challenge start, the anchor or any earlier trade, payouts ignored |
| `Drawdown.DailyDrawdownIsTheDays` | frontend/src/lib/metrics.js:243-248 | Daily drawdown runs from the equity before the day's first trade to the day's lowest close, and is absent when no trade closed that day |
| `Drawdown.RedatingPayoutsChangesNoDrawdown` | frontend/src/lib/metrics.js:217-262 | Moving post-add payouts to any other dates among the trades changes neither maximum nor daily drawdown |
| `Drawdown.MergedTrades` | frontend/src/lib/metrics.js:229-234 | The trades keep their own order inside the merged, stably sorted stream |
| `PropFigures.FiguresMean` | frontend/src/lib/metrics.js:179-306 | What is reported: the balances add up from the rows' own money and the payouts since the account was added, the curve moves by each event and lands on the final balance, the maximum drawdown is the largest fall of trading equity, and the daily one is 0 when no trade closed today and otherwise the largest fall from the day's opening equity to a close of the day, never below 0 |
| `PropFigures.StreamIs` | frontend/src/lib/metrics.js:205-234 | The stream behind the curve is in date order and holds exactly the trades with money and the positive dated payouts not before the add point |
| `PropFigures.MarksGiveDailyLoss` | frontend/src/lib/metrics.js:243-279 | The used daily loss is at least the fall to every close of the day and equals 0 or one of those falls |
| `Provisioning.Database.ProvisionAccount` | src/domain/accounts/provision.js:350-502 | Replay, the three conflicts, the synthetic login and the charge, statement by statement: every refusal leaves all tables as they were, but for the id an insert used up |
| `Provisioning.Database.InsertFee` | src/domain/finance/fees.js:101-113 | Adds the row unless one with its login and reference is there |
| `Provisioning.Database.BindOrCheckLogin` | src/domain/accounts/accounts.js:452-483 | The four answers from a possibly stale read, and the best-effort charge on the bound branch only |
| `Provisioning.Database.DeleteFee` | src/domain/finance/fees.js:142-148 | Removes the caller's own row and no other |
| `Provisioning.Database.DeleteAccount` | src/domain/accounts/accounts.js:336-366 | Removes the fees filed under the login read beforehand and the owned account, or nothing |
| `ProvisioningLaws.ProvisioningIs` | src/domain/accounts/provision.js:350-502 | Each answer and its cause in the order the code asks, and every row written: the new account with its login, its challenge, job and credential, and its charge; a refusal writes nothing but the id it drew |
| `ProvisioningLaws.BindIs` | src/domain/accounts/accounts.js:452-483 | A bind wins exactly for a pending account, read as pending, whose login no other account holds, and then sets that login and puts the owed charge under way, nothing else |
| `ProvisioningLaws.BindSays` | src/domain/accounts/accounts.js:452-483 | Bound, taken and ok each exactly when, from the stored row and the login read before |
| `ProvisioningLaws.FeeSteps` | src/domain/finance/fees.js:115-139 | A fee typed in by hand adds one row that refers to no account; a deferred charge is filed unless its login and reference are there, and is no longer owed |
| `ProvisioningRuns.EveryRun` | src/domain/accounts/provision.js:350-502 | Over any interleaving: logins and keys pairwise distinct, synthetic logins are minus the id, a challenge exactly for a prop account, a job exactly for auto sync, every charge is the one its account asks for and none is filed twice |
| `ProvisioningRuns.LoginIsPermanent` | src/domain/accounts/accounts.js:456-461 | An account is deleted for good or stays itself, and a login once set never changes |
| `ProvisioningRuns.BindTellsTheTruth` | src/domain/accounts/accounts.js:428-483 | The answer is ok or bound exactly when the account ends on that login, and conflict exactly when it is pending and another holds it |
| `ProvisioningRuns.BoundOnlyOnce` | src/domain/accounts/accounts.js:457-479 | Only one bind of an account ever wins |
| `ProvisioningRuns.RetryIsReplay` | src/domain/accounts/provision.js:360-366 | The same user asking again with the same key replays, and writes nothing, for as long as the account exists |
| `ProvisioningRuns.SyntheticCollidesExactly` | src/domain/accounts/provisionQueries.js:107-117 | A synthetic login is taken if and only if a broker account holds that very negative number |
| `ProvisioningRuns.SyntheticNeverCollides` | src/domain/accounts/provisionQueries.js:107-117 | With positive broker logins no run ever refuses an account its synthetic login |
| `ProvisioningRuns.FiledAtMostOnce` | src/domain/finance/fees.js:75-99 | Over any run, deletions included, one account's cost is written at most once ever |
| `ProvisioningRuns.ChargedExactlyOnce` | src/domain/finance/fees.js:115-139 | Once no charge is on its way, exactly one row charges the account if and only if it has a login and a positive cost, the post got through and nobody deleted the row; pending or free accounts have none |
| `ProvisioningLaws.ChargedInFull` | src/domain/finance/fees.js:90-139 | That row is for the account's whole cost, to its login and owner, dated by its creation, an activation for a funded account and an evaluation otherwise |
| `ProvisioningRuns.OrphansAriseExactly` | src/domain/accounts/accounts.js:457-473 | A charge outlives its account if and only if the deferred post lands after the deletion, or the deletion read the login before the bind |
| `ProvisioningRuns.FeeOutlivesItsAccount` | src/domain/accounts/accounts.js:457-473 | A concrete run on which the first of those happens |
| `Connection.CtraderConnection.SendRequest` | worker/ctrader/connection.js:156-170 | The id is the next one; the request waits, or is rejected at once when it cannot be written |
| `Connection.CtraderConnection.Settle` | worker/ctrader/connection.js:226-233 | Settles a waiting request and nothing else; an unknown id is ignored |
| `Connection.CtraderConnection.OnDown` | worker/ctrader/connection.js:235-248 | Nothing when closed; otherwise every waiting request is rejected in order and every authorization forgotten |
| `Connection.CtraderConnection.Dispatch` | worker/ctrader/connection.js:190-224 | Each kind of message does the one transition `ConnectionLaws.NextMoves` spells out |
| `Connection.CtraderConnection.EnsureAccount` | worker/ctrader/connection.js:125-128 | Asks if and only if this very token is not already on the socket |
| `ConnectionLaws.NextMoves` | worker/ctrader/connection.js:118-255 | Field by field: a reply resolves the request of its id, an error rejects it with its code, an invalidation forgets exactly the accounts it names, a loss rejects everything waiting in order and forgets every authorization, and a resumed authorization records its account and token |
| `ConnectionLaws.RecordedTokenWasAccepted` | worker/ctrader/connection.js:118-128 | Over every run an account is recorded with a token only if an authorization of that account with that token was sent and answered by success or ALREADY_LOGGED_IN |
| `Connection.RequestsAreSettledOnce` | worker/ctrader/connection.js:156-170 | Over all orders of reply, error, timeout and socket loss, every id issued is waiting or settled, exactly once, and no other id is either |
| `Connection.SettlementsAreFinal` | worker/ctrader/connection.js:226-233 | What a request settled to never changes |
| `Connection.DownLeavesNothing` | worker/ctrader/connection.js:235-248 | After the loss of an unclosed connection's socket every id ever issued is settled and no account counts as authorized |
| `Connection.SoundExactly` | worker/ctrader/connection.js:109-116 | A step leaves an account counted as authorized without a grant on this socket if and only if it resumes an authorization whose grant was withdrawn meanwhile |
| `Connection.PromptExactly` | worker/ctrader/connection.js:205-217 | Such an authorization exists if and only if a loss or an invalidation overtook a reply's own continuation |
| `Connection.AuthorizedMeansGranted` | worker/ctrader/connection.js:118-128 | On runs without that, every account counted as authorized is one the broker granted on the socket in use |
| `Connection.SkippingIsSafe` | worker/ctrader/connection.js:125-128 | Then ensureAccount skips the request only while a socket is up on which the broker granted the account |
| `Connection.StaleAuthorization` | worker/ctrader/connection.js:180-217 | A concrete run, reply and disconnect message in one read, after which the next socket counts an account as authorized that it never authorized |
| `Throttle.HistoricalThrottle.NextSlotAt` | worker/ctrader/throttle.js:28-34 | Hands out the next slot of the specified sequence |
| `Throttle.HistoricalThrottle.BlockUntil` | worker/ctrader/throttle.js:24-26 | Records the back-off |
| `Throttle.SlotsAreSpaced` | worker/ctrader/throttle.js:29-34 | Slots are at least one spacing apart, and the next one will be |
| `Throttle.AtMostLimitPerSecond` | worker/ctrader/throttle.js:9-34 | For every sequence of reservations, back-offs and clock readings, however wild the clock, no half-open second holds more slots than the limit, and the slot `limit` calls later is a full second later |
| `Throttle.NoSlotInsideABackOff` | worker/ctrader/throttle.js:18-31 | A slot is never before its clock reading nor before any back-off announced earlier |
| `Throttle.SlotIsEarliest` | worker/ctrader/throttle.js:29-34 | No instant that respects the clock, the spacing and every back-off is earlier than the slot given |

## Left out

- Floating-point and database rounding: sums and running totals are exact; `round` is applied once, where the code
  applies it, in `shapePerf`, and not in the client's displayed figures. The client's cumulative curve is a
  list of given points.
- Row filters, scope and the projection of `baseCte` (`buildTradeWhere`, week and weekday labels): the row list is the input.
- Yearly.OrderSetups: locale-dependent comparison is an arbitrary ranking of names.
- Streaks.ClientStreaks: takes the trades already ordered; the client sorts by close time only, so trades of one instant keep the order they arrived in.
- `computeAdherence` and the rule engine it calls, the thunder score, the win-rate and profit-factor figures of
  `computeMetrics`, the MFE averages.
- The limits, floors, target and payout boxes of `computeProp`, its labels and its pre-tracking segment: arithmetic on the modelled figures.
- The TradeLocker worker (`worker/tradelocker/backfill.js`): the same paging idea as the modelled worker, over an
  order list whose pairing module is not part of this model.
- Symbols, lot sizes, assets and account facts fetched beside the deals, and the prices and money `dealToTrade` computes: one opaque `figures` value per deal.
- Backfill.OpenerStoredExactly: says nothing of a position whose opening deal shares its millisecond with its closing
  deal or with another of its opening deals.
- Backfill.BackfillKnownAccount: whether a row is refused depends on the row alone; a refusal that passes when the same row is sent again is not modelled.
- Candle requests, sockets events and MFE derivation inside `ingestOne`.
- `cacheKey`: two requests with one key are taken to be the same request.
- CacheCluster.EveryRunIsSafe: a fill reads the database once, at one instant; the code's producers may issue several queries.
- Notifications: their text, dedup and read markers; only the verdict and the settlement of `evaluateAccountAlerts`.
- The challenge engine (`challengeState`): its reading is an arbitrary input. Rule values, phases and the
  JSON of history payloads.
- `attachAccountToGroup`, which no modelled path calls.
- Races inside one statement under Postgres read-committed isolation.
- Provisioning.Database.ProvisionAccount: sealing the password, the ingest token and the copy of rule columns are not modelled; when both unique indexes are violated the login index is taken to be reported.
- ProvisioningRuns.EveryRun: accounts made by `createAccount`, which inserts a manual account and sets its synthetic login in a second statement, are not among the steps; between the two such an account is pending.
- The plan gate and payload validation before provisioning; group creation and joining are in `Challenges`.
- Connection.CtraderConnection.Dispatch: the execution, error and down events it emits are not modelled; the `retryAfter` of an error is the `Block` event of `Throttle`.
- Heartbeats and the half-open detector: each ends in the same loss of the socket. Opening a second socket while one is up is not modelled.
- Throttle.AtMostLimitPerSecond: for whole limits of at least 1; the code also accepts a fractional one.
- Encryption, tokens, HTTP, TLS, protobuf, Redis and the Postgres engine itself.
