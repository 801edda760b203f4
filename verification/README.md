# Cross-exchange arbitrage scanner: model and proofs

The scanner keeps local order books of two exchanges in step with their feeds, and walks the
depth of one book's asks against the other book's bids to find trades that pay after fees. This
project models that core in Dafny and proves what it promises.

| file | what it holds |
|---|---|
| `Ladders.dfy` | one side of a book: an ordered map from price to quantity, level lists, best levels |
| `OrderBooks.dfy` | the order book: snapshot, update, stale and gap rules, batching; class `OrderBook` |
| `LocalBookManagers.dfy` | the synchronisation protocol of one book; class `LocalBookManager`, for both exchanges |
| `ManagerProperties.dfy` | the protocol over whole runs: reachable states, the fate of every update, buffering, contiguous feeds |
| `Histories.dfy` | the local book against the exchange's own history, with full and depth-limited snapshots |
| `Walks.dfy` | the depth walk: one iteration, invariant, termination, lot-sized quantities |
| `Optimality.dfy` | the walk against every other way of trading the same books (linear-programming duality) |
| `DustStops.dfy` | on which books a dust level stops the walk, and what that loses |
| `NetProfit.dfy` | when the walk is also the best plan after fees |
| `DepthLimits.dfy` | what the depth limit can change |
| `Sorting.dfy` | ordering of results |
| `Engines.dfy` | fees, filters, both directions, top of book; class `ArbitrageEngine` |
| `LiveProtocol.dfy` | the live scan as atomic steps of exchanges, feeds, synchroniser and scanner |
| `LiveSafety.dfy` | safety over all interleavings; when a synchronisation attempt succeeds |
| `ScanReports.dfy` | what a direction, a symbol and a whole store report, said of the books and the configuration alone |
| `LiveDeliveries.dfy` | the live scan followed by its messages and steps: what is stored, tried, reported and counted |
| `LiveScans.dfy` | class `LiveScan`: the sections under the mutex, the store copy, the scan |

## How to read it

- **State in place, meaning beside it.** `OrderBook`, `LocalBookManager`, `ArbitrageEngine` and
  `LiveScan` are classes whose methods change fields and loop as the program does. Each method is
  proved to do what a function on values says, and the theorems are about those functions.
- **Books.** A side is the sorted sequence that iterating over the program's ordered map yields. It is
  proved to be determined by its quantities (`Canonical`), so equal quantities mean equal books.
- **Snapshot synchronisation** is specified by the simple form: load the snapshot into a ready manager
  and deliver the buffered updates to it one by one by the live rule (`AfterSnapshot`). The class
  drops a stale prefix, checks the bridge and drains the buffer, and is proved equal to it, counters
  and gap cases included.
- **History.** The exchange's book is a function from version, side and price to quantity. Honest updates
  and snapshots are defined against it. Runs may lose, repeat and reorder messages, overflow the buffer,
  apply snapshots at any time and reset.
- **Optimality.** A plan is any way of filling the levels within their quantities that buys as much as it
  sells and spends at most the cap. For each way the loop can stop there is a pair of dual prices under
  which no plan beats the walk. `CapSlack` is what the unspent cap could still have earned at the pair the
  walk stopped at; `NegligibleSlack` says that this cap is at most `EPSILON`, or `EPSILON` times the ask, or
  that no pair that pays is left.
- **Dust.** A level of at most `EPSILON` stops the walk (src/engine/ArbitrageEngine.cpp:112-114) although
  later levels may pay; `DustLevelDefeatsTheWalk` gives such books. On books without such a level the walk is
  optimal but for a negligible unspent cap and `EPSILON` times the best price difference for each level it
  passed (`GreedyNearlyOptimal`). At a dust stop some plan earns more if more than dust is left on both sides
  of a pair that pays; if not, none earns more than `EPSILON` times the best price difference for each level
  (`DustStopDichotomy`). On books whose quantities are whole lots or dust the stop, and the loss, can be read
  off the two sides and the cap beforehand (`DustStopsExactlyWhen`, `OptimalUnlessDustCosts`).
- **Fees.** The walk compares prices without fees and goes on while they pay, so it does not always maximise
  net profit; `WalkNetsLess` is an input on which it even loses money while a plan earns some, and
  `DustCostsNetProfit` one on which a dust level keeps it from trading at all. On books of whole lots or dust
  some plan nets more in exactly two cases, both read off the two sides and the cap (`LosesAfterFees`): the walk
  comes to a pair of levels that pays before fees but not after them, or to a dust level with more than dust
  left of a pair that pays after fees. Otherwise no plan nets more, but for a negligible unspent cap or, at a
  harmless dust stop, `EPSILON` times the best price difference after fees for each level
  (`NetBeatenByTheBooks`).
- **Answers.** What each operation reports is stated apart from the function that specifies it: outcomes by ids and
  changes of state (`DeliveryMeaning`, `SnapshotMeaning`), reports by the configured fees and limits and the equations
  of their figures (`Reports`), lists by how often each element occurs and in which order, the stored books by the
  updates delivered to them (`StoreMissesNothing`), counters by the messages they count (`FeedCounts`).
- **Numbers.** Prices, quantities and notionals are exact reals. Update ids are 64-bit in the classes, where
  the successor wraps; their specifications use unbounded arithmetic, and the methods are proved to agree with
  it for all ids, because the stale test or the stale-prefix drop answers first at the top of the range.
- **Counters.** The program's `binance_gaps` and `mexc_gaps` count messages that find their book in need of a
  resync, not gaps (src/main.cpp:2559-2561); `FeedAfter` follows the code.

Nothing was executed; everything stated here is what the verifier establishes about the model.

## Model

| member | source | states |
|---|---|---|
| Ladders.LastWriteWins | src/core/OrderBook.cpp:134-158 | whatever level list is applied, a side stays strictly price-sorted with positive quantities, and at each price holds the list's last mention (nothing if that is not positive), or what it held before |
| Ladders.ApplyLevelsConcat | src/core/OrderBook.cpp:134-158 | applying two lists in turn is applying their concatenation |
| Ladders.Canonical | src/core/OrderBook.hpp:58-59 | two sides with the same quantity at every price are the same side |
| Ladders.ReloadRoundTrip | src/core/OrderBook.cpp:5-18 | listing a side and applying the list to an empty side rebuilds it |
| Ladders.TopIsBest | src/core/OrderBook.cpp:67-109 | the first k levels are the k best: a price with a quantity is missing only below k strictly better ones |
| OrderBooks.MergeTwo | src/core/OrderBook.cpp:20-39 | two updates that apply in succession equal one merged update, which applies |
| OrderBooks.BatchingDoesNotMatter | src/core/OrderBook.cpp:20-39 | any regrouping of an applied feed into merged batches applies and ends in the same book and id |
| OrderBooks.RedeliveryIsStale | src/core/OrderBook.cpp:25-27 | every update of an applied feed is stale when delivered again, so that it changes nothing |
| OrderBooks.ApplyUpdateValid | src/core/OrderBook.cpp:20-39 | an update keeps both sides sorted and positive and never lowers the id; the id stays exactly when the book stays |
| OrderBooks.LastWriteWinsOverall | src/core/OrderBook.cpp:5-39 | after any sequence of snapshots, updates (stale, with gaps, or too early) and clears, a side is sorted and positive and holds at each price what was last written there since the last snapshot |
| OrderBooks.ApplyLevelList | src/core/OrderBook.cpp:134-158 | the loop over a level list computes `ApplyLevels`, for either side |
| OrderBooks.FirstLevels | src/core/OrderBook.cpp:67-87 | the counting loop copies exactly the first `limit` levels |
| OrderBooks.OrderBook.ApplySnapshot | src/core/OrderBook.cpp:5-18 | replaces both sides by the snapshot's, takes its id and initialises the book, whatever was there |
| OrderBooks.OrderBook.ApplyUpdate | src/core/OrderBook.cpp:20-39 | the result by the ids alone, and the new state, are those of the unbounded specification, although the successor of the id is computed in 64 bits; only an applied update changes the book |
| OrderBooks.OrderBook.BestBid | src/core/OrderBook.cpp:41-52 | of a valid book: nothing exactly when no bid price has a quantity; otherwise a price with its quantity, and no higher price has any |
| OrderBooks.OrderBook.BestAsk | src/core/OrderBook.cpp:54-65 | of a valid book: nothing exactly when no ask price has a quantity; otherwise a price with its quantity, and no lower price has any |
| OrderBooks.OrderBook.TopBids | src/core/OrderBook.cpp:67-87 | the first `limit` bids |
| OrderBooks.OrderBook.TopAsks | src/core/OrderBook.cpp:89-109 | the first `limit` asks |
| OrderBooks.OrderBook.Clear | src/core/OrderBook.cpp:127-132 | the state of a new book |
| LocalBookManagers.LocalBookManager.constructor | src/exchanges/BinanceLocalBookManager.cpp:7-12 | a fresh manager waits with an empty book, buffer and counters |
| LocalBookManagers.LocalBookManager.OnUpdate | src/exchanges/BinanceLocalBookManager.cpp:14-38 | new state and result of a delivery in each of the three statuses, as `DeliveryMeaning` characterises them; keeps the reachable-state invariant |
| ManagerProperties.DeliveryMeaning | src/exchanges/BinanceLocalBookManager.cpp:14-38 | each answer holds exactly when the ownership and ids of the update and the status say so, and exactly when the book or the counter it names has changed |
| LocalBookManagers.LocalBookManager.DropStale | src/exchanges/BinanceLocalBookManager.cpp:53-60 | dropping the covered prefix does not change what replaying the buffer live would end in |
| LocalBookManagers.LocalBookManager.Drain | src/exchanges/BinanceLocalBookManager.cpp:89-103 | draining the rest ends in exactly what replaying it live ends in, and stops at the first gap |
| LocalBookManagers.LocalBookManager.ApplySnapshot | src/exchanges/BinanceLocalBookManager.cpp:40-104 | drop, bridge check and drain together equal one replay of the buffer by the live rule; rejected when nothing could be applied, a gap when something was |
| ManagerProperties.SnapshotMeaning | src/exchanges/BinanceLocalBookManager.cpp:40-104 | applied exactly when the manager ends ready; rejected, with nothing on top of the snapshot, exactly when the first buffered update it does not cover starts behind the next id; a gap exactly when one is found after the book moved on |
| LocalBookManagers.LocalBookManager.ApplyUpdateToReadyBook | src/exchanges/BinanceLocalBookManager.cpp:154-180 | result, status and counters for each verdict of the book, one by one |
| LocalBookManagers.LocalBookManager.Reset | src/exchanges/BinanceLocalBookManager.cpp:134-140 | waiting, with an empty uninitialised book, no buffer and zero counters |
| ManagerProperties.ResetForgets | src/exchanges/BinanceLocalBookManager.cpp:134-140 | whatever happened before a reset, what follows it is what would follow on a new manager |
| LocalBookManagers.ResyncAbsorbs | src/exchanges/BinanceLocalBookManager.cpp:21-23 | once a resync is needed no delivery changes anything |
| ManagerProperties.RunValid | src/exchanges/BinanceLocalBookManager.cpp:14-140 | over every run: waiting exactly while the book is uninitialised, a buffer only while waiting, within its limit and counted, holding only own updates |
| ManagerProperties.AfterBalanced | src/exchanges/MexcLocalBookManager.cpp:14-134 | every step keeps each received update in exactly one place, and a gap is counted exactly on entering NeedResync |
| ManagerProperties.EveryUpdateAccountedFor | src/exchanges/BinanceLocalBookManager.cpp:14-104 | over every run the own updates received since the last reset are, as a multiset, those applied, stale, buffered, overflowed and discarded at or after a gap; the counters of applied and stale updates are the sizes of these, and the gap counter is the number of entries into NeedResync |
| ManagerProperties.WaitingBuffers | src/exchanges/BinanceLocalBookManager.cpp:25-34 | a waiting manager holds exactly the newest of its own updates: the last of them, up to the limit |
| ManagerProperties.BufferingCommutes | src/exchanges/BinanceLocalBookManager.cpp:25-103 | buffering and then applying the snapshot ends in the same state, counters included, as applying the snapshot and then delivering the retained updates live |
| ManagerProperties.NoFalseGaps | src/exchanges/BinanceLocalBookManager.cpp:53-103 | for a contiguous buffer a snapshot at n synchronises exactly when the buffer is empty, covered, or starts by n + 1; the id is then the newer of the two |
| ManagerProperties.ContiguousFeedStaysReady | src/core/OrderBook.cpp:25-31 | after that, a continuing contiguous feed never leaves Ready; with nothing buffered, exactly if it reaches back to the snapshot |
| Histories.SnapshotCovers | src/core/OrderBook.cpp:5-18 | an honest snapshot leaves only true levels, complete down to its worst one |
| Histories.UpdateCovers | src/core/OrderBook.cpp:20-39 | an honest update keeps that, at the new version; stale ones and gaps leave it untouched |
| Histories.DepthLimitedRefinement | src/exchanges/BinanceLocalBookManager.cpp:14-140 | after any run of honest messages an initialised book holds only levels of the exchange's book at its id, and all of them inside the last snapshot's window |
| Histories.HistoryRefinement | src/exchanges/BinanceLocalBookManager.cpp:14-104 | when the snapshots of its own book are full, the book is the exchange's book at exactly its id, price by price, whatever arrives for other books |
| Histories.TopInsideWindow | src/main.cpp:513-536 | best levels inside the window of a depth-limited snapshot are exactly the exchange's best levels |
| Histories.BestLevelsAreHonest | src/main.cpp:513-536 | a response with the best `limit` levels of each side is an honest snapshot and is loaded as listed |
| Walks.TerminationBound | src/engine/ArbitrageEngine.cpp:85-140 | the loop runs at most asks + bids - 1 times, whatever the quantities |
| Walks.IterationMeaning | src/engine/ArbitrageEngine.cpp:85-139 | an iteration happens exactly under the guard and the breaks of the loop, matches as much as the two levels and the cap allow, and moves on past levels with at most EPSILON left |
| Walks.EveryIteration | src/engine/ArbitrageEngine.cpp:76-140 | in every iteration the per-level fills fit, sum to the base quantity on both sides, leave at most EPSILON of a passed level and make up both notionals; spent plus remaining cap is the cap |
| Walks.NoDustOnLots | src/engine/ArbitrageEngine.cpp:122-139 | when quantities are whole lots or dust, nothing is left of a passed level unless the cap cut the last match short |
| Optimality.NothingBeatsTheWalk | src/engine/ArbitrageEngine.cpp:66-140 | no plan earns more gross profit than the walk plus the unspent cap's worth and what residues can have forgone |
| Optimality.StopCertificate | src/engine/ArbitrageEngine.cpp:85-114 | for each way the loop stops there are dual prices that certify it |
| Optimality.GreedyNearlyOptimal | src/engine/ArbitrageEngine.cpp:66-140 | for arbitrary positive quantities, no plan beats the walk by more than the unspent cap's worth and EPSILON times the best price difference per passed level; on books without a dust level that cap is negligible |
| Optimality.GreedyOptimal | src/engine/ArbitrageEngine.cpp:66-140 | with lot-sized quantities the walk is optimal but for a negligible unspent cap |
| DustStops.DustLevelDefeatsTheWalk | src/engine/ArbitrageEngine.cpp:112-114 | two books on which a dust level stops the walk before it trades while a plan earns 10 |
| DustStops.LivePairBeatsTheWalk | src/engine/ArbitrageEngine.cpp:104-114 | a pair that pays and has more than dust left on both sides can be traded on top of the walk: a plan that earns more by the price difference times what the pair and the cap allow |
| DustStops.DustStopDichotomy | src/engine/ArbitrageEngine.cpp:104-114 | at a dust stop some plan earns more if such a pair is left, and otherwise none earns more than EPSILON times the best price difference per level |
| DustStops.DustStopsExactlyWhen | src/engine/ArbitrageEngine.cpp:85-140 | on books of whole lots or dust, dust stops the walk exactly when trading up to the first dust level leaves both sides at a pair that pays, with more than EPSILON of the cap and of what it buys; the walk has then filled just that much |
| DustStops.OptimalUnlessDustCosts | src/engine/ArbitrageEngine.cpp:66-140 | a condition on the two sides and the cap: where it holds some plan beats the walk, where it does not none does, but for a negligible unspent cap or dust per level |
| Optimality.WalkIsFeasible | src/engine/ArbitrageEngine.cpp:66-140 | the walk's fills are one of the plans and attain its gross profit |
| Optimality.CumulativeCurves | src/engine/ArbitrageEngine.cpp:116-120 | in every iteration no other fills of the same size buy cheaper or sell dearer |
| DepthLimits.DepthLimitHarmless | src/engine/ArbitrageEngine.cpp:66-140 | a walk that left levels over on both sides ends the same under any larger limit |
| DepthLimits.SameOpportunityDeeper | src/engine/ArbitrageEngine.cpp:59-184 | then the reported opportunity is the same too |
| DepthLimits.MoreDepthNeverEarnsLess | src/engine/ArbitrageEngine.cpp:66-140 | on lots, a larger limit never lowers gross profit but for the negligible unspent cap |
| Sorting.SortSorts | src/engine/ArbitrageEngine.cpp:48-54 | sorting by a key yields a descending rearrangement |
| Engines.ArbitrageEngine.WalkDepth | src/engine/ArbitrageEngine.cpp:73-140 | the loop over mutable locals ends with the totals of `Final` |
| Engines.ArbitrageEngine.Assess | src/engine/ArbitrageEngine.cpp:142-196 | an opportunity exactly when the totals exceed dust, reach the minimum notional and keep the minimum spread after the taker fee of its own exchange on each leg; its figures each satisfy the equation that defines them |
| Engines.ArbitrageEngine.EvaluateDirection | src/engine/ArbitrageEngine.cpp:59-184 | the whole of one direction, as `DirectionMeaning` characterises it |
| ScanReports.DirectionMeaning | src/engine/ArbitrageEngine.cpp:59-184 | a direction reports exactly when the walk through the first `max_depth_levels` levels of both sides trades and passes the filters, and then that walk |
| ScanReports.NothingBeatsTheDirection | src/engine/ArbitrageEngine.cpp:59-184 | on lots no plan on those levels earns more than the direction reports, but for the negligible unspent cap |
| ScanReports.DirectionReports | src/main.cpp:267-279 | under the configuration a direction reports an opportunity exactly when it has the totals of the walk through 50 levels within the cap, charges each leg its own taker fee, satisfies the equations of its figures and passes the minimum notional and spread |
| ScanReports.DirectionReportsWhen | src/engine/ArbitrageEngine.cpp:142-166 | there is one exactly when the totals of that walk pass the configured filters after those fees |
| Engines.ArbitrageEngine.ScanSymbol | src/engine/ArbitrageEngine.cpp:17-57 | both directions of two initialised books, sorted; nothing otherwise |
| Engines.PricedFigures | src/engine/ArbitrageEngine.cpp:150-162 | every reported figure satisfies the equation that defines it: averages, both fees, the three spreads |
| Engines.OpportunityMeaning | src/engine/ArbitrageEngine.cpp:142-184 | an opportunity is backed by concrete fills within the levels and the cap, passes the filters, and buys and sells at averages between the best prices and each other |
| Engines.ReportedExactlyWhen | src/engine/ArbitrageEngine.cpp:142-166 | there is an opportunity exactly when the walk traded, reached the minimum notional and keeps the minimum spread after fees |
| Engines.NothingBeatsTheOpportunity | src/engine/ArbitrageEngine.cpp:66-184 | on lots no plan earns more than the reported gross profit, but for the negligible unspent cap |
| Engines.ScanOrdered | src/engine/ArbitrageEngine.cpp:22-56 | a scan lists exactly the opportunities of the two directions, best net spread first |
| ScanReports.ScanMeaning | src/engine/ArbitrageEngine.cpp:17-57 | the scan of a symbol holds each opportunity that one of the two directions of two initialised books offers, once, best net spread first |
| ScanReports.NothingBeatsTheScan | src/engine/ArbitrageEngine.cpp:17-184 | on lots no plan on the levels a direction looks at earns more than the scan reports for it, but for the negligible unspent cap |
| NetProfit.NetNearlyOptimal | src/engine/ArbitrageEngine.cpp:66-155 | for arbitrary positive quantities, when the last matched pair still pays both fees or nothing was matched, no plan nets more than the walk by more than the unspent cap's worth after fees and EPSILON times the best price difference after fees per passed level; on books without a dust level that cap is negligible |
| NetProfit.LastPairLoses | src/engine/ArbitrageEngine.cpp:97-155 | on any books, if the last matched pair does not pay both fees, taking some of it back nets more |
| NetProfit.NetDustDichotomy | src/engine/ArbitrageEngine.cpp:104-155 | for arbitrary positive quantities, at a dust stop whose last pair pays both fees: some plan nets more if more than dust is left of a pair that pays both fees, and otherwise none nets more than EPSILON times the best price difference after fees per level |
| NetProfit.NetBeatenExactlyWhen | src/engine/ArbitrageEngine.cpp:66-155 | on books of whole lots or dust the walk's exit decides: some plan nets more if its last pair does not pay both fees, or if dust stopped it with more than dust left of a pair that does; otherwise none does, but for dust per level at a dust stop and a negligible cap elsewhere |
| NetProfit.OpportunityBeatenExactlyWhen | src/engine/ArbitrageEngine.cpp:66-184 | the same decision about the net profit the engine reports |
| NetProfit.NetBeatenByTheBooks | src/engine/ArbitrageEngine.cpp:85-155 | the same decided by the two sides, the cap and the fees before the walk: whether it comes to a pair that pays before fees but not after them, or to a dust level in front of one that pays after them |
| NetProfit.WalkNetsLess | src/engine/ArbitrageEngine.cpp:97-155 | two books on which the walk loses money after fees while stopping one level earlier makes some |
| NetProfit.DustCostsNetProfit | src/engine/ArbitrageEngine.cpp:112-155 | two books on which a dust level stops the walk before it trades while a plan nets more than 9 after fees |
| Engines.AtMostOneDirection | src/engine/ArbitrageEngine.cpp:17-57 | books that are not themselves crossed never offer both directions |
| Engines.TopSpreadMeaning | src/main.cpp:141-210 | the spread exists exactly when all four best levels do with positive asks, quotes them, and is the better direction's |
| ScanReports.TopSpreadQuotes | src/main.cpp:141-210 | a spread is computed exactly when it quotes the four best levels, takes the direction with the greater fraction of its ask, Binance on a tie, and has the figures of that direction less both fees |
| Engines.TopDominatesDepth | src/main.cpp:141-210 | no opportunity exceeds the top-of-book spread net, nor gross in its own direction; a top net spread below the threshold means no opportunities |
| LiveSafety.PerformInv | src/main.cpp:2532-2562 | every step of every participant keeps the invariant |
| LiveSafety.EndToEndSafety | src/main.cpp:2885-2909 | over all interleavings every stored book is the exchange's at a version already reached, as far down as its snapshot went, and every reported opportunity is carried out by fills of levels both exchanges really had |
| LiveSafety.EndToEndExact | src/main.cpp:2885-2909 | in every run, where the snapshots of the two sides walked reach as deep as the walk looks or to the last level there is, one direction finds between two stored books exactly what it would find between the exchanges' own books at those versions |
| LiveSafety.ScanIsExact | src/main.cpp:299-372 | in every run, where that holds of both sides of every pair in the store, scanning the store reports exactly what scanning the exchanges' own books at those versions would |
| LiveSafety.DirectionGenuine | src/main.cpp:345-349 | what one direction finds between two stored books was there to be taken |
| LiveSafety.WaitThenFetchSucceeds | src/main.cpp:2728-2756 | waiting for a buffered update before fetching makes the attempt succeed on a lossless feed, whatever is delivered in between |
| LiveDeliveries.SyncOrderMeaning | src/main.cpp:2467-2480 | the books are all configured symbols on both exchanges, Binance first, in configured order |
| LiveDeliveries.StartingManagers | src/main.cpp:2467-2480 | every one of them starts waiting and empty, with room for 10000 updates |
| LiveDeliveries.StoreMissesNothing | src/main.cpp:1196-1227 | over every run the copied store holds exactly the configured books that have been loaded and that no update they were told since goes beyond, and the books as they stand |
| LiveDeliveries.ScanAddsOffers | src/main.cpp:299-372 | a scan adds to the reports each opportunity as often as stored pairs of the configured symbols offer it, best net spread first, and changes nothing else but the store |
| LiveDeliveries.EveryBookTried | src/main.cpp:2710-2770 | over every run each book is tried at most three times, and when the synchroniser is done each has been synchronised or tried exactly three times |
| LiveDeliveries.NeverStuck | src/main.cpp:2710-2770 | in every reachable state the synchroniser, or else the scanner, has a step it may take |
| LiveDeliveries.SynchronisationEnds | src/main.cpp:2710-2770 | no run has more than twelve synchronisation steps for each symbol on each exchange |
| LiveDeliveries.FeedCounts | src/main.cpp:2534-2562 | over any messages a feed counts all of them, those with an update, those without a book to go to, and those that find their book in need of a resync or put it there |
| LiveScans.NewManagers | src/main.cpp:2467-2480 | one fresh manager per exchange and symbol, sharing nothing |
| LiveScans.LiveScan.constructor | src/main.cpp:2467-2508 | managers, engine settings and counters at the start |
| LiveScans.LiveScan.HandleMessage | src/main.cpp:2534-2562 | a message changes its own manager by the live rule and no other, and the feed's counters as the handler counts |
| LiveScans.LiveScan.BeginAttempt | src/main.cpp:2720-2726 | the second and third attempts start from a fresh manager, the first from what is there |
| LiveScans.LiveScan.BufferSeen | src/main.cpp:2658-2669 | the wait is over exactly when the manager exists and holds an update |
| LiveScans.LiveScan.ApplyFetched | src/main.cpp:2741-2756 | applies the snapshot to its own manager only; reports whether it is ready |
| LiveScans.LiveScan.BuildLiveStore | src/main.cpp:1196-1227 | new copies of exactly the ready books; which those are is `StoreMissesNothing` |
| LiveScans.LiveScan.ScanPair | src/main.cpp:310-356 | for one symbol: whether it is a ready pair, its top spread and its opportunities |
| LiveScans.LiveScan.ScanLiveStoreOnce | src/main.cpp:299-372 | ready pairs, spreads and opportunities over all symbols, each list sorted |
| ScanReports.StoreScanMeaning | src/main.cpp:299-372 | the opportunities of a store: each as often as there are positions in the configured symbols at which the two stored, initialised books offer it, best net spread first |
| ScanReports.StoreSpreadsMeaning | src/main.cpp:299-372 | the same of the top-of-book spreads, and the number of ready pairs |

## Left out

- Floating point: rounding, NaN and infinities of `double`; prices, quantities and notionals are exact reals.
- Optimality.GreedyOptimal: asks for quantities in whole lots larger than EPSILON; for arbitrary quantities `GreedyNearlyOptimal` gives the bound with residues, and for lots mixed with dust `OptimalUnlessDustCosts` gives the condition.
- DustStops.DustStopsExactlyWhen: asks for quantities in whole lots or dust; on other books residues of up to EPSILON a level shift where the walk stands, and only its exit state tells (`DustStopDichotomy`).
- NetProfit.NetBeatenExactlyWhen: asks for quantities in whole lots or dust, and for fees from 0 to below 100 percent; on other books `NetNearlyOptimal` and `NetDustDichotomy` give the bounds with residues, and `LastPairLoses` the loss.
- LiveSafety.WaitThenFetchSucceeds: about one attempt under stated conditions on the feed and the snapshot; no claim that the feed meets them or that a wait ends, and the live scan never resynchronises after its initial attempts.
- Wrap-around of the event counters, which are natural numbers here; only update ids are 64-bit.
- The two manager classes are one class with the exchange as a field, and the two manager tables one table keyed by exchange and symbol.
- The order of equal keys, which the program's sort leaves open and the model's sort keeps stable.
- Timestamps of updates and snapshots, and `max_book_age_ms`, which the scan does not use.
- Printing: the scan's results are modelled, not which of them are logged.
- The end of the feeds and exceptions that end the program; a failed wait or request is a step of its own.
- JSON and protobuf parsing, sockets, HTTP, configuration files, subscription planning: the model starts from parsed updates, snapshots and settings.
- Freshness in time: nothing is said about how old a scanned book is, only that it is a version the exchange had reached.
