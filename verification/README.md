# A verified model of the order-book core

This project models the core of a limit-order-book toolkit and proves properties about that model. The toolkit has:

- a C++ price-time-priority matching engine, built over two interchangeable price-ladder implementations;
- a Python client that keeps a local mirror of an exchange's depth book in sync with a diff stream;
- a C++ replayer that samples top-of-book quotes on a fixed time grid;
- a TAQ-style CSV writer.

The model has one module per part of the program:

| file | module | what it models |
|---|---|---|
| `types.dfy` | `Types` | Sides, the 64-bit `Tick` range and its min/max sentinels, `Option`. |
| `ascii.dfy` | `Ascii` | `tolower`/`str.lower` on ASCII letters and `isspace` in the "C" locale. |
| `price_levels.dfy` | `PriceLevels` | `PriceLevelsContig` (class over an `array` of levels, one slot per tick of the band) and `PriceLevelsSparse` (class over a `map`), each with cached `best_bid`/`best_ask` fields, plus the specifications of their next-level searches. |
| `book_spec.dfy` | `BookSpec` | The book as a value: two ladders of FIFO levels and the id index. It holds `match_against`, `submit_market`, `submit_limit`, `cancel` and `modify` as functions, with the lemmas about them. |
| `book_core.dfy` | `Engine` | `BookCore` as a class over two mutable sparse ladders. Every method is proved to leave the object in exactly the state the matching `BookSpec` function computes, and to keep both cached bests exact. |
| `depth_sync.dfy` | `DepthSync` | `LocalBook.apply_diff` as a class method with two loops, and the receive loop of `_consumer_depth_and_trades` as a pure step over the mirror state. A `Capture` class performs the same step in place, and the lemmas are about the step. |
| `taq_writer.dfy` | `Taq` | `TaqWriter` (open/close, row-writer guards, last-timestamp bookkeeping, warnings; files are sequences of rows) and `esc`, proved against RFC 4180 quoting with a round trip. |
| `replay.dfy` | `Replay` | `trim`, `parse_type`, `parse_side`, `align_up`, `LevelBook`, and the cadence loop of `Replayer::run`. The loop is proved to emit quotes at exactly the grid times, each sampled before the event that passes it. |

Modelling choices that run through the project:

- **Orders and levels.** An order carries a `node` number, which stands for the identity of its `OrderNode`. `cancel` and `modify` find an order through the index by that identity, so duplicate order ids behave as in the C++.
  - A second resting order with an existing id takes over the index entry.
  - The earlier order then stays in its level but can no longer be cancelled.
- **Level totals.** A level's `total_qty` is the sum of its orders' quantities (`PriceLevels.TotalQty`).
- **The top sentinel.** As in the C++, an ask resting at the largest tick cannot be told apart from the "empty" sentinel, so matching never reaches it.
- **Re-syncing the mirror.** When the diff stream has a gap, the mirror fetches a new snapshot but does not clear its bids and asks. Price levels absent from the new snapshot therefore survive the resync. `DepthSync.ResyncKeepsStaleLevels` shows one such case.
- **Prices in the replayer and the mirror.** Prices and sizes are ordered `real` keys and values, not doubles. An empty side's NaN best price is `None`.

## Model

| member | source | states |
|---|---|---|
| PriceLevels.SparseLadder.constructor | cpp/include/lob/price_levels.hpp:140-142 | A fresh sparse ladder has no levels, best bid at the min sentinel and best ask at the max sentinel. |
| PriceLevels.SparseLadder.GetLevel | cpp/include/lob/price_levels.hpp:106 | Returns the level at px, which is empty for an untouched price. Afterwards px is a key holding the same level as before (`map_[px]` inserts), and the cached bests are unchanged. |
| PriceLevels.SparseLadder.PutLevel | cpp/include/lob/price_levels.hpp:106 | Writing through the returned reference replaces only the level at px. The bests are unchanged. |
| PriceLevels.SparseLadder.HasLevel | cpp/include/lob/price_levels.hpp:108-111 | True exactly when px holds a non-empty level. |
| PriceLevels.SparseLadder.SetBestBid | cpp/include/lob/price_levels.hpp:116 | Changes only the cached best bid; the levels and best ask are unchanged. |
| PriceLevels.SparseLadder.SetBestAsk | cpp/include/lob/price_levels.hpp:117 | Changes only the cached best ask; the levels and best bid are unchanged. |
| PriceLevels.SparseLadder.NextAskAfter | cpp/include/lob/price_levels.hpp:120-125 | The loop returns the least non-empty price strictly above px, or the max sentinel when there is none. |
| PriceLevels.SparseLadder.NextBidBefore | cpp/include/lob/price_levels.hpp:128-137 | The leftward walk returns the greatest non-empty price strictly below px, or the min sentinel. |
| PriceLevels.LeastAbove | cpp/include/lob/price_levels.hpp:46-48 | The interface contract of `next_ask_after`: the least member above px, or the max sentinel when none exists. |
| PriceLevels.GreatestBelow | cpp/include/lob/price_levels.hpp:46-49 | The interface contract of `next_bid_before`: the greatest member below px, or the min sentinel when none exists. |
| PriceLevels.ContigLadder.constructor | cpp/include/lob/price_levels.hpp:55-59 | The array has max_tick-min_tick+1 slots, every level is empty, and the bests are the two sentinels. |
| PriceLevels.ContigLadder.GetLevel | cpp/include/lob/price_levels.hpp:61 | For an in-band px, reads the slot px-min_tick. |
| PriceLevels.ContigLadder.PutLevel | cpp/include/lob/price_levels.hpp:61 | For an in-band px, writing the level changes only the slot px-min_tick. |
| PriceLevels.ContigLadder.HasLevel | cpp/include/lob/price_levels.hpp:63-66 | True exactly when the slot's level is non-empty. |
| PriceLevels.ContigLadder.SetBestBid | cpp/include/lob/price_levels.hpp:71 | Changes only the cached best bid. Every level and the best ask stay as they were. |
| PriceLevels.ContigLadder.SetBestAsk | cpp/include/lob/price_levels.hpp:72 | Changes only the cached best ask. Every level and the best bid stay as they were. |
| PriceLevels.ContigLadder.NextAskAfter | cpp/include/lob/price_levels.hpp:74-80 | The slot scan returns the least non-empty price above px, or the max sentinel. |
| PriceLevels.ContigLadder.NextBidBefore | cpp/include/lob/price_levels.hpp:82-89 | The downward scan (slot 0 returns the sentinel at once) returns the greatest non-empty price below px, or the min sentinel. |
| PriceLevels.LaddersAgree | cpp/include/lob/price_levels.hpp:27-50 | For an in-band px, two ladders with the same non-empty prices give the same `has_level`, `next_ask_after` and `next_bid_before` answers. |
| PriceLevels.BestAfterReplace | cpp/src/book_core.cpp:51-56 | Replacing the level at a non-empty px moves the best only when that level became empty and was the best; the best then moves to the next non-empty price beyond px. |
| PriceLevels.BestAfterRest | cpp/src/book_core.cpp:123-130 | Resting at a tick px moves the same-side best to px exactly when px is strictly better. |
| PriceLevels.TotalQtyRemove | cpp/src/book_core.cpp:69 | Erasing an order lowers the level's total by that order's quantity. |
| PriceLevels.TotalQtyUpdate | cpp/src/book_core.cpp:197 | Replacing an order's quantity changes the level total by new minus old. |
| BookSpec.Match | cpp/src/book_core.cpp:25-31 | When the loop stops, filled+want is conserved, the taker cannot trade (nothing wanted, sentinel, or no cross), the taker's own side is untouched and no id enters the index. |
| BookSpec.MatchStepDecreases | cpp/src/book_core.cpp:44-79 | Each pass removes a level, shortens the best level, or ends the wanting, so the loop terminates. |
| BookSpec.StepFacts | cpp/src/book_core.cpp:44-79 | One pass works on the crossing best opposite level and leaves a FIFO remainder of it. An STP pass fills nothing. A trading pass records one fill of min(want, head qty) against the head. `StepLevelEffect` states how much the level loses. |
| BookSpec.MatchQty | cpp/src/book_core.cpp:61-65 | From a non-negative want, filled never decreases and want never goes negative, so filled never exceeds the want. |
| BookSpec.MatchFills | cpp/src/book_core.cpp:60-79 | The fills extend the log, filled equals the sum of the fill quantities, and every fill is positive and at a crossing price. With STP, no fill is against the taker's own user. |
| BookSpec.MatchFifo | cpp/src/book_core.cpp:33-79 | Matching keeps the ladder's prices, leaves every non-crossing level unchanged, and leaves each level as a FIFO remainder: its head may shrink, and only orders at the front are taken. |
| BookSpec.StepLevelEffect | cpp/src/book_core.cpp:44-79 | An STP head leaves the level whole, with no trade. A head that stays keeps its place, and its qty falls by exactly the traded amount. The level's total falls by the cancelled qty or by the traded amount. A head that leaves the level, cancelled or filled, also leaves the id index (`id_index_.erase`). |
| BookSpec.SideQtyUpdate | cpp/include/lob/price_levels.hpp:21-25 | Replacing one level changes the side's resting quantity by the change in that level's total_qty. |
| BookSpec.MatchSideQty | cpp/src/book_core.cpp:33-79 | Matching takes off the opposite side exactly the quantity it filled plus the quantity that STP cancelled. |
| BookSpec.StpCancelledNone | cpp/src/book_core.cpp:44-57 | Without STP, matching cancels nothing, so the opposite side loses exactly what was filled. |
| BookSpec.MatchFillsOrdered | cpp/src/book_core.cpp:25-33 | Fills are in price priority: no fill is at a better price than an earlier one. |
| BookSpec.MatchWellFormed | cpp/src/book_core.cpp:9-83 | Matching keeps the book well formed: non-empty levels sit at ticks, and every resting order has a positive quantity and an allocated node. |
| BookSpec.SubmitMarketSound | cpp/src/book_core.cpp:85-96 | qty ≤ 0 returns (0,0) and changes nothing. Otherwise filled+remaining = qty and nothing rests on the taker's side. Any remaining quantity means the opposite best is at its empty sentinel. |
| BookSpec.SubmitLimitSound | cpp/src/book_core.cpp:98-135 | qty ≤ 0 returns (0,0). Otherwise `filled` is what matching at the limit filled. remaining = 0 iff all was filled, and then the book is the matched book. If not, the remainder rests at o.price on the matched book, whose opposite best no longer crosses. |
| BookSpec.RestFacts | cpp/src/book_core.cpp:107-132 | The remainder is appended at the tail of the level at o.price, and the level total rises by it. The id is indexed to the new node, no other level changes, and the best moves to o.price only if strictly better. |
| BookSpec.SubmitLimitWellFormed | cpp/src/book_core.cpp:98-135 | submit_limit at a tick keeps the book well formed. |
| BookSpec.Position | cpp/src/book_core.cpp:143-150 | Locates the index entry's node in its level: the first slot holding that node, or None when the node is not there. |
| BookSpec.CancelSound | cpp/src/book_core.cpp:137-162 | Returns true iff the id is indexed and its node is in its level. An unknown id changes nothing at all. If false, the book holds the same resting orders (`SameOrders`): the index and node counter are unchanged, every level is kept, and only an empty level created by `get_level` may be added. If true, exactly that order leaves its level and the index, the total falls by its quantity, and no other level changes. |
| BookSpec.CancelFound | cpp/src/book_core.cpp:137-162 | A cancel whose node is found at slot i erases that slot and the id, and returns true. |
| BookSpec.CancelWellFormed | cpp/src/book_core.cpp:137-162 | cancel keeps the book well formed. |
| BookSpec.CancelAfterRest | cpp/src/book_core.cpp:107-162 | Cancelling an order just rested restores the book apart from the touched empty level and the used node number. |
| BookSpec.ModifyToZeroIsCancel | cpp/src/book_core.cpp:178-194 | Same price with qty ≤ 0 is exactly a cancel, with no fills. |
| BookSpec.ModifyInPlace | cpp/src/book_core.cpp:195-202 | Same price with qty > 0 changes only that order's qty, ts and flags, in its queue position. The total changes by new minus old, and there are no fills. |
| BookSpec.ModifyNewPriceIsCancelThenLimit | cpp/src/book_core.cpp:205-227 | A new price is a cancel, then a submit_limit on the original side (losing time priority, possibly trading). |
| BookSpec.ModifyUnknownId | cpp/src/book_core.cpp:168-176 | Modify of an unknown id is a no-op returning (0, 0). If the node is not in its level, it returns (0, 0) and the book holds the same resting orders. |
| BookSpec.ModifyFound | cpp/src/book_core.cpp:164-228 | With the node found at slot i, modify is the three branches: resubmit, cancel, or in-place change. |
| Engine.BookCore.constructor | cpp/include/lob/book_core.hpp:21-22 | The engine is built over two distinct ladders that start empty, with their bests at the sentinels. It starts valid, with an empty book, an empty id index and no nodes allocated. |
| Engine.BookCore.MatchHead | cpp/src/book_core.cpp:33-79 | One pass of the loop body on the object equals one `BookSpec.MatchStep`, and the cached bests stay exact. |
| Engine.BookCore.MatchAgainst | cpp/src/book_core.cpp:9-83 | The in-place loop leaves the book and `filled` exactly as `BookSpec.Match` computes. |
| Engine.BookCore.SubmitMarket | cpp/src/book_core.cpp:85-96 | The new state and the result equal `BookSpec.SubmitMarket` of the old state. |
| Engine.BookCore.SubmitLimit | cpp/src/book_core.cpp:98-135 | The new state and the result equal `BookSpec.SubmitLimit` of the old state. |
| Engine.BookCore.RestOrder | cpp/src/book_core.cpp:107-133 | Resting the leftover leaves exactly the `BookSpec.Rest` book, with exact bests. |
| Engine.BookCore.Cancel | cpp/src/book_core.cpp:137-162 | The new state and the result equal `BookSpec.Cancel` of the old state. |
| Engine.BookCore.Modify | cpp/src/book_core.cpp:164-228 | The new state and the result equal `BookSpec.Modify` of the old state. |
| DepthSync.ApplyChangesAt | python/olob/crypto/binance.py:33-41 | After a list of changes, the quantity at p is the last change's at p (absent if that was zero), else as before. |
| DepthSync.ApplyChangesIdempotent | python/olob/crypto/binance.py:33-41 | Applying the same diff list twice is applying it once. |
| DepthSync.ApplyChangesConcat | python/olob/crypto/binance.py:33-41 | Applying a+b is applying a, then b. |
| DepthSync.ApplyChangesNoZero | python/olob/crypto/binance.py:36-37 | A ladder with no zero quantities keeps none. |
| DepthSync.LocalBook.constructor | python/olob/crypto/binance.py:28-31 | Empty bids and asks, last_update_id 0. |
| DepthSync.LocalBook.ApplyDiff | python/olob/crypto/binance.py:33-41 | The two loops leave bids and asks as the bid and ask change lists give, independently. last_update_id is unchanged. |
| DepthSync.Initial | python/olob/crypto/binance.py:83-94 | The start state satisfies the invariant, is unsynced, and has logged the initial snapshot. |
| DepthSync.StepInvariant | python/olob/crypto/binance.py:108-150 | Each pass keeps the invariant. When synced, pending is empty. When unsynced, every buffered frame is newer than last_update_id. No zero level is ever stored. |
| DepthSync.RunInvariant | python/olob/crypto/binance.py:108-150 | The whole loop keeps the invariant. |
| DepthSync.StepLogs | python/olob/crypto/binance.py:114-150 | The loop breaks exactly on CLOSED or ERROR. A depthUpdate is logged before any check. A trade only grows the trade log. Every other message changes nothing. |
| DepthSync.RunLogs | python/olob/crypto/binance.py:108-150 | Until the socket closes, the logs are exactly every depthUpdate and every trade received, in order. |
| DepthSync.StaleDiscarded | python/olob/crypto/binance.py:118-120 | A diff with u ≤ last_update_id only grows the depth log. |
| DepthSync.BufferedWhileUnsynced | python/olob/crypto/binance.py:121-131 | While unsynced, a newer non-covering diff is only buffered (and logged). |
| DepthSync.SyncOnCover | python/olob/crypto/binance.py:121-130 | A covering diff while unsynced fixes each price: by the buffered diffs (this one included) in arrival order, else by the snapshot, else as before. last_update_id becomes u, pending is cleared, and the mirror is in sync. |
| DepthSync.AppliedInSync | python/olob/crypto/binance.py:133-135 | While synced, a covering diff is applied and last_update_id strictly increases, to u. |
| DepthSync.GapResyncs | python/olob/crypto/binance.py:136-142 | While synced, a gap unsyncs and clears pending. It takes the fresh snapshot and its lastUpdateId and logs the snapshot. The book is not cleared. |
| DepthSync.SyncedMonotone | python/olob/crypto/binance.py:119-142 | A pass that ends synced never lowers last_update_id, and leaves the book unchanged when last_update_id did not move. |
| DepthSync.ResyncKeepsStaleLevels | python/olob/crypto/binance.py:136-142 | An example: a level present before a gap and absent from the resync snapshot is still there after the gap and the next sync. The general fact follows from `GapResyncs` and `SyncOnCover`. |
| DepthSync.Capture.constructor | python/olob/crypto/binance.py:83-94 | The capture starts in `Initial` of the first snapshot. |
| DepthSync.Capture.ReplayPending | python/olob/crypto/binance.py:124-128 | Applies the snapshot, then every pending diff in order. last_update_id ends as the last pending u. |
| DepthSync.Capture.HandleDepth | python/olob/crypto/binance.py:114-142 | The depthUpdate branch performed in place equals `OnDepth` of the old state. |
| DepthSync.Capture.Handle | python/olob/crypto/binance.py:109-152 | One received message performed in place equals `Step`, including whether the loop breaks. |
| DepthSync.Endpoints | python/olob/crypto/binance.py:12-18 | Succeeds exactly for "binance" or "binanceus" in any ASCII case. |
| DepthSync.EndpointsIgnoreCase | python/olob/crypto/binance.py:13 | The endpoints depend only on the lower-cased name. |
| Ascii.Lower | cpp/src/replay.cpp:31 | Same length, each character passed through tolower. |
| Ascii.LowerIdempotent | cpp/src/replay.cpp:42 | Lower-casing twice is lower-casing once. |
| Replay.SkipSpaces | cpp/src/replay.cpp:24 | The first non-space index at or after i; everything skipped is space. |
| Replay.BackSpaces | cpp/src/replay.cpp:25 | The end after dropping trailing spaces down to lo; everything dropped is space. |
| Replay.TrimmedShape | cpp/src/replay.cpp:22-27 | trim removes exactly the leading and trailing whitespace; the result has none at either end. |
| Replay.TrimmedIdempotent | cpp/src/replay.cpp:22-27 | Trimming twice is trimming once. |
| Replay.Trim | cpp/src/replay.cpp:22-27 | The two index loops compute exactly the trimmed string. |
| Replay.ParseType | cpp/src/replay.cpp:29-35 | Book iff the lower-cased text is "book", Trade iff "trade", else rejected. |
| Replay.ParseTypeIgnoresCase | cpp/src/replay.cpp:29-35 | Case does not matter ("Trade" is accepted), and surrounding spaces are not stripped (" book" is rejected). |
| Replay.SideWordsDisjoint | cpp/src/replay.cpp:44-52 | The bid and ask word lists are disjoint, and the accepted side ignores case. |
| Replay.ParseSide | cpp/src/replay.cpp:37-55 | Empty gives Ask; b/bid/buy give Bid; a/ask/sell/s give Ask, in any case; anything else fails. |
| Replay.CRem | cpp/src/replay.cpp:190 | C++ truncating %: ts minus the remainder is a multiple of step. The remainder lies in [0, step) for ts ≥ 0 and in (-step, 0] for ts < 0, so it is the truncated remainder. |
| Replay.AlignUp | cpp/src/replay.cpp:188-192 | The corrected align_up (see Findings). step ≤ 0 gives ts. Otherwise the result is a multiple of step in [ts, ts+step). |
| Replay.AlignUpLeast | cpp/src/replay.cpp:188-192 | It is the least multiple of step that is ≥ ts. |
| Replay.AlignUpAgreesOnNonNegative | cpp/src/replay.cpp:188-192 | For ts ≥ 0 the code as written computes exactly AlignUp. |
| Replay.AlignUpNegativeOvershoots | cpp/src/replay.cpp:190-191 | For a negative ts off the grid, the code as written returns one step past the least multiple. |
| Replay.AlignUpMinusFive | cpp/src/replay.cpp:190-191 | align_up(-5, 3) returns 0 as written, where -3 is the least multiple ≥ -5. |
| Replay.SetLevelEffect | cpp/src/replay.cpp:136-144 | A total ≤ 0 removes px (a no-op if absent), any other total stores it. Other prices and the other side are untouched, and positivity is kept. |
| Replay.BestPrice | cpp/src/replay.cpp:146-154 | None iff the side is empty; otherwise a price of the side, the highest bid or the lowest ask. |
| Replay.BestSize | cpp/src/replay.cpp:156-164 | 0 on an empty side, otherwise the size at the best price. |
| Replay.BestSizePositive | cpp/src/replay.cpp:156-164 | With positive sizes, the best size is positive iff the side is non-empty. |
| Replay.LevelBook.constructor | cpp/src/replay.cpp:134-144 | A new level view has no bids and no asks. |
| Replay.LevelBook.SetLevel | cpp/src/replay.cpp:136-144 | The in-place update equals `SetLevelSpec` of the old view. |
| Replay.LevelBook.Clear | cpp/src/replay.cpp:166-168 | Both sides become empty. |
| Replay.SamplesOnGrid | cpp/src/replay.cpp:294-301 | The i-th quote before an event is sampled at next + i·cadence from the book before the event. |
| Replay.SamplesUpTo | cpp/src/replay.cpp:294-301 | The inner loop emits every grid time ≤ t and stops at the first grid time after t. |
| Replay.ReplayGrid | cpp/src/replay.cpp:283-320 | Over a whole replay, quote rows are written at start, start+cadence, … with none skipped or repeated, and next_sample_ns is the grid time after the last. |
| Replay.Replayer.constructor | cpp/src/replay.cpp:185-186 | The replayer keeps a reference to the writer it is given. Its `levels` parameter stands for the replayer's own member `level_book_`. The `BookCore&` argument is dropped together with the engine half of `apply_book_event`. |
| Replay.Replayer.EmitDue | cpp/src/replay.cpp:294-301 | The inner while loop writes exactly the due samples, in order, and leaves next_sample_ns past t. |
| Replay.Replayer.Run | cpp/src/replay.cpp:275-325 | Empty input returns false and leaves the level view and the writer unchanged. The message the code prints to stderr in that case is not modelled. Otherwise it returns true, and the view and writer equal the replay that starts at the corrected `AlignUp` of the first ts and runs over all events. For a first ts ≥ 0 this is the code's own start (`AlignUpAgreesOnNonNegative`). |
| Taq.OpenOutcome | cpp/src/taq_writer.cpp:10-29 | open succeeds iff both files open, and then writes exactly one header row to each. A failed trades file leaves the quotes file closed again. Both last timestamps are reset. |
| Taq.WriteQuoteOutcome | cpp/src/taq_writer.cpp:62-116 | A no-op when the quotes file is closed. Otherwise it appends one row and sets the last ts to the row's ts, even a smaller one. A warning naming both timestamps is added iff the ts is below the previous one; otherwise stderr is unchanged. The trades file is untouched. |
| Taq.WriteTradeOutcome | cpp/src/taq_writer.cpp:118-136 | A no-op when the trades file is closed. Otherwise it appends exactly one row with the ts, price, qty and side character, after the earlier rows. The last ts is set to the row's ts. A warning naming both timestamps is added iff the ts is below the previous one; otherwise stderr is unchanged. The quotes file is untouched. |
| Taq.OperationsKeepValid | cpp/include/lob/taq_writer.hpp:37-42 | Every operation keeps the writer consistent. An open file starts with one header followed only by rows, a set last ts is that of the file's last row, and a closed file has no last ts. |
| Taq.WriteQuotesRows | cpp/src/taq_writer.cpp:62-116 | Writing quotes to an open file appends exactly their rows, in order. |
| Taq.WriteQuotesLast | cpp/src/taq_writer.cpp:74 | The last ts is the last quote's. |
| Taq.WriteQuotesQuiet | cpp/src/taq_writer.cpp:69-74 | Non-decreasing quote times produce no warning. |
| Taq.SideChar | cpp/src/taq_writer.cpp:134 | The side character is the given one when it is non-zero, and is never NUL. |
| Taq.QuotedLength | cpp/src/taq_writer.cpp:43-49 | The quoted form has length \|s\| + 2 + the number of `"` in s. |
| Taq.EscapedRoundTrip | cpp/src/taq_writer.cpp:38-50 | Reading the field back, per RFC 4180 section 2 rules 6–7, recovers s. |
| Taq.TaqWriter.constructor | cpp/include/lob/taq_writer.hpp:37-42 | A new writer has both files closed and no last timestamps. |
| Taq.TaqWriter.Close | cpp/src/taq_writer.cpp:31-36 | Both files are closed and both last timestamps reset. |
| Taq.TaqWriter.Open | cpp/src/taq_writer.cpp:10-29 | The new state and the result equal `OpenSpec`. |
| Taq.TaqWriter.WriteQuoteRow | cpp/src/taq_writer.cpp:62-116 | The new state equals `WriteQuote`. |
| Taq.TaqWriter.WriteTradeRow | cpp/src/taq_writer.cpp:118-136 | The new state equals `WriteTrade`. |
| Taq.TaqWriter.Esc | cpp/src/taq_writer.cpp:38-50 | The two loops compute `Escaped(s)`: s itself when it has no `,` `"` `\n` `\r`, else the quoted form with each `"` doubled. |

## Left out

- Floating point. Prices, sizes and quantities in the mirror, the replayer and the writer are exact `real`s.
  - `float(px_s)` parsing, `fprint_double`, and the mid, spread and microprice columns are not modelled.
  - A quote row is recorded as its argument record.
- I/O. `fopen` outcomes are parameters of `Open`, and the files and stderr are sequences of rows and warnings.
  - The REST snapshot fetched on a gap is an input of each step.
  - The websocket, JSON decoding, gzip persistence and the periodic `snapshot_task` are not modelled; that task never feeds the book.
- The wall-clock deadline of the receive loop, and realtime sleeping in `Replayer::run`.
  - The loop is modelled over the messages that arrive before the deadline.
  - `Replay.Replayer.Run` writes the same rows whether or not the replayer sleeps.
- Replay.Replayer.Run: on empty input the code prints "Replayer: no events provided." to stderr (cpp/src/replay.cpp:276-279). That process stderr is not the writer's warning log, and the message is not modelled.
- Replay.Replayer.constructor: the level view is passed in, not owned. In the code, `level_book_` is a member of the replayer (cpp/src/replay.cpp:203, 295-298). `Run` therefore starts from whatever view it is handed, and the model does not say that view is private to the replayer.
- Replay.Replayer.Run: only the level-view half of `apply_book_event` (`set_level` with a negative size clamped to 0) is modelled.
  - The engine half uses `level_key` hashing, double-to-`Tick` casts and hash-derived order ids.
  - `emit_trade_taq` is modelled as the trade call it makes.
- Replay.Replayer.Run: the sample grid starts at the corrected `AlignUp` of the first timestamp, not at the code's `align_up` (cpp/src/replay.cpp:283). The two agree for a first timestamp ≥ 0 (`Replay.AlignUpAgreesOnNonNegative`). For a negative first timestamp off the grid, the code starts one cadence later (see Findings). The model then writes a quote row at that earlier grid time, which the code does not write.
- Replay.Replayer.Run: `next_sample_ns` is an unbounded integer. In the code it is int64, and `next_sample_ns += cadence_ns` (cpp/src/replay.cpp:294-301) overflows when an event's timestamp lies within one cadence of INT64_MAX. The sum then wraps negative, `e.ts_ns >= next_sample_ns` stays true, and the inner loop never ends. The model instead terminates there.
- Replay.Replayer.Run: requires cadence > 0, which `main` enforces (cpp/src/replay.cpp:381). With cadence ≤ 0 the inner loop of the code never ends.
- Replay.AlignUp: does not model int64 overflow when ts is within one step of the int64 maximum.
- Engine.BookCore.MatchHead: the branch for an empty level at the cached best (cpp/src/book_core.cpp:35-42) cannot occur, because the model keeps both cached bests exact. It is a dead branch there.
- Engine.BookCore: built over the sparse ladder only. `PriceLevels.LaddersAgree` shows that the contiguous ladder answers the same queries for in-band prices, but the engine is not re-proved over it.
- PriceLevels.ContigLadder.GetLevel: requires an in-band price, as the code's own `idx` comment assumes. An out-of-band index is undefined behaviour in the code.
- The fill log of matching is ghost. `match_against` only sums the fills, and the log exists to state properties.
- `erase`, `enqueue` and `types.hpp` are not part of this model.
  - Levels are sequences, so enqueue appends and erase removes one element.
  - `total_qty` is the derived sum of the quantities.
  - The STP flag is a named member of a flag set.
- The order-id index is not proved to point at live orders. `cancel` and `modify` handle an id whose node is missing as the code's null-node check does, returning false or acting as a no-op.
- BookSpec.CancelAfterRest: the submit-then-cancel round trip is stated in two steps, with `BookSpec.SubmitLimitSound` giving the rested book.
- DepthSync.Endpoints: `str.lower` is modelled on ASCII letters only.
- The bench tools, the backtester, the CLI glue, CSV loading and the replay tool's snapshot files are not modelled.

## Findings

| source | as written | input that shows it | evidently intended | confidence | as-written member | corrected member |
|---|---|---|---|---|---|---|
| cpp/src/replay.cpp:188-192 | `align_up` uses C++'s truncating `%`, so for a negative ts off the grid it adds `step - r` with r < 0 and overshoots by one step | align_up(-5, 3) returns 0 | the least multiple of step ≥ ts, here -3, as for non-negative ts | low (timestamps are normally non-negative), not executed | Replay.AlignUpNegativeOvershoots | Replay.AlignUpLeast |
