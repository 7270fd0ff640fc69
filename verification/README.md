# Price-time-priority matching engine, modelled in Dafny

This project models the in-memory matching engine of the Matching-Engine
repository, together with the order book it changes and the WebSocket
subscription registry of its API server.

An incoming order is matched against the opposite side of its symbol's book:

- Levels are visited best price first. Asks ascend for a buy and bids descend for a sell.
- Within a level, resting orders are taken FIFO.
- Every trade executes at the resting (maker) order's price. Its quantity is the smaller of the two remaining quantities.

The order type decides the rest:

- A market order may trade at any level.
- A limit, IOC or fill-or-kill (FOK) order trades only at levels within its price.
- A FOK order is first checked for feasibility against the marketable liquidity. If that is too small, the order is killed without trading.
- Only what is left of a limit order rests on the book.

The model is layered as follows:

- **orders.dfy** (`Orders`, `Trades`): the order and trade records as values. Includes the order-type and side enums with their string values, and `Remaining()`.
- **ladder.dfy** (`Ladders`): one side of a book as a value. It is a map from price to FIFO queue, plus the list of those prices sorted best first.
  - The side invariant `WellFormed`: the list is strictly sorted and lists exactly the map's keys, no level is empty, and every order sits at its own price on its own side.
  - The book's own operations: append to a level, remove an order, delete a level, best price.
  - The two-sided `BookState`.
- **matching.dfy** (`Matching`): the matching rules as functions, with the properties proved about them.
  - `FillQueue` is the inner loop over one level.
  - `Walk` is the outer loop over the sorted levels.
  - `Available` is the FOK pre-check's sum.
  - `Submit` is one whole order: pre-check, walk, residual rule.
- **order_book.dfy** (`OrderBooks`): the `OrderBook` class. It holds the two sides and the cached best bid and offer, updated in place.
- **engine.dfy** (`Engine`): the engine's loops as imperative methods, each proved equal to its specification function. Also the `MatchingEngine` class, with its map of books keyed by symbol and its audit log of trades.
- **subscriptions.dfy** (`Subscriptions`): the two mirrored dictionaries-of-sets of the server's subscription registry, and the three operations on them.
- **scenarios.dfy** (`Scenarios`): the repository's unit-test scenario, proved for all orders of that shape.

The engine reads the book through a sorted-price interface: `asks_map`/`bids_map`, `asks_prices`/`bids_prices`, `_remove_*_price` and `best_bid()`/`best_ask()` (engine/matching_engine.py:41-46,130-137,162-163). engine/order_book.py offers none of these. It has only price-to-deque maps, `add_order`, `remove_order`, `update_bbo` and `get_best_*`. The model keeps one book that serves both views:

- Each side is a map plus the sorted list the engine walks.
- `add_order`/`remove_order` follow order_book.py. They also keep the sorted list in step with the map.
- The engine's `best_bid()`/`best_ask()` are the book's cached `get_best_bid()`/`get_best_ask()`. The cache is refreshed after the walk has deleted emptied levels, and again when a residual limit order rests.

Prices and quantities are decimals in the engine, and its decimal context rounds every result to 18 significant digits (engine/matching_engine.py:9). Here they are integers in a fixed scale, and the model assumes every value is small enough that nothing rounds. An order's id and timestamp come from uuid4 and the clock; here they are supplied by the caller. A socket is a natural number naming a connected client.

## Model

| member | source | states |
|---|---|---|
| Orders.ParseOrderType | engine/order.py:8-12 | an order-type value maps to the type whose value it is; an unknown string maps to none |
| Orders.ParseSide | engine/order.py:14-16 | a side value maps to the side whose value it is; an unknown string maps to none |
| Orders.ParseOrderTypeRoundTrip | engine/order.py:8-12 | looking up an order type's value gives back that type |
| Orders.ParseSideRoundTrip | engine/order.py:14-16 | looking up a side's value gives back that side |
| Orders.NewOrder | engine/order.py:18-27 | a new order has filled 0, so its remaining quantity is its quantity; every other field, timestamp included, is as given; the price defaults to None, as for a market order |
| Orders.Order.Remaining | engine/order.py:29-31 | what is left to fill plus what is filled is the order's quantity |
| Orders.HasPrice | api/schemas.py:26-28 | a market order needs no price and a limit order must carry one (widened to IOC and FOK by the same predicate) |
| Orders.Fill | engine/matching_engine.py:117-119 | filling `qty` lowers the remaining quantity by exactly `qty` and changes no other field |
| Orders.Opposite | engine/matching_engine.py:39-47 | the side matched against is never the order's own side |
| Trades.SumQuantityAppend | engine/matching_engine.py:114-115 | the traded quantity of two runs of trades is the sum of the two |
| Ladders.RemoveFirst | engine/order_book.py:18-19 | removing an order from a queue drops its first occurrence and keeps the orders before and after it in their FIFO order; an absent order changes nothing |
| Ladders.InsertPrice | engine/matching_engine.py:40-47 | a new price enters the sorted list once, and a list sorted best first (ascending asks, descending bids) stays sorted |
| Ladders.Append | engine/order_book.py:11-13 | the order is appended at the back of the queue at its price, the level is created if absent, and every other level is unchanged |
| Ladders.AppendWellFormed | engine/order_book.py:11-13 | resting an order of this side keeps the side invariant: sorted list equal to the map's keys, no empty level |
| Ladders.AppendLive | engine/order_book.py:11-13 | resting an order with something left keeps every resting order live |
| Ladders.AppendBest | engine/order_book.py:11-14 | after resting an order, the best price is the better of the old best and the order's price |
| Ladders.RemoveOrder | engine/order_book.py:16-21 | a resting order is removed from the queue at its price and every other level is unchanged; an order not in the book changes nothing |
| Ladders.RemoveOrderWellFormed | engine/order_book.py:16-21 | removing an order keeps the side invariant: an emptied level is deleted from the map and the sorted list |
| Ladders.DeleteLevel | engine/matching_engine.py:126-137 | deleting a level removes its key from the map and its price from the sorted list; deleting the best level drops the head of the list |
| Ladders.DeleteLevelWellFormed | engine/matching_engine.py:126-137 | deleting a level keeps the side invariant |
| Ladders.DropBestIsDeleteLevel | engine/matching_engine.py:126-139 | deleting the best level from the map and the list is popping the front of the sorted list |
| Ladders.DropBestWellFormed | engine/matching_engine.py:126-139 | deleting the best level keeps the side invariant |
| Ladders.SortedRemoveFirst | engine/matching_engine.py:130-137 | removing a price from a sorted price list keeps it sorted |
| Ladders.RemoveFirstSorted | engine/matching_engine.py:130-137 | a sorted list holds a price once, so removing the price removes it entirely |
| Ladders.Best | engine/matching_engine.py:162-163 | the best price is None exactly when the sorted list is empty, and otherwise a listed price; on a well-formed side it is None exactly when no level exists |
| Ladders.Contains | engine/order_book.py:18 | an order counts as resting only if it has a price that is a level of the side, and on a well-formed side it is an order of that side |
| Ladders.BestIsExtreme | engine/order_book.py:24-26 | the front of the sorted list is the highest bid or the lowest ask of the map, and is None exactly when the side is empty |
| Ladders.QueuedFront | engine/matching_engine.py:83-99 | a side's orders in price-time order are its best level's queue followed by the rest of the side |
| Ladders.QueuedFrame | engine/matching_engine.py:83-99 | price-time order depends only on the levels whose prices are listed |
| Ladders.AddToBook | engine/order_book.py:11-13 | a buy rests on the bids and a sell on the asks; the other side is unchanged |
| Ladders.RemoveFromBook | engine/order_book.py:16-21 | removal works on the order's own side; the other side is unchanged |
| Ladders.AddToBookValid | engine/order_book.py:11-14 | adding an order keeps both sides well formed |
| Ladders.RemoveFromBookValid | engine/order_book.py:16-22 | removing an order keeps both sides well formed |
| Matching.Marketable | engine/matching_engine.py:50-59 | a market order may trade at any level; any other order only at a level at or better than its price, as the opposite side ranks prices |
| Matching.MakeTrade | engine/matching_engine.py:101-113 | a trade is at the maker's price for the given quantity, names the maker and taker ids, and carries the taker's symbol and side as aggressor |
| Matching.Available | engine/matching_engine.py:62-71 | the pre-check counts only marketable levels: with none among the listed prices it is 0 |
| Matching.Counter | engine/matching_engine.py:39-47 | on a valid book the side an order trades against is the well-formed opposite side |
| Matching.Submit | engine/matching_engine.py:28-163 | processing an order changes nothing of the incoming order but its filled quantity |
| Matching.FillQueue | engine/matching_engine.py:98-123 | matching one level changes only the incoming order's filled quantity |
| Matching.Walk | engine/matching_engine.py:80-142 | matching a side changes only the incoming order's filled quantity |
| Matching.FillQueueAccounting | engine/matching_engine.py:98-123 | at one level, the incoming order's fill and the level's remaining quantity both change by the traded quantity; the order never overfills; an order with nothing left trades nothing; the loop leaves a level only when it is empty or the order is done |
| Matching.FillQueuePriced | engine/matching_engine.py:98-123 | what is left of a level still holds only priced orders |
| Matching.FillQueueFifo | engine/matching_engine.py:98-119 | the k-th trade at a level is against the k-th queued order, at that order's price, for the smaller of the two remaining quantities |
| Matching.LevelAfterPop | engine/matching_engine.py:118-123 | a maker that the first trade fills completely is popped before the rest of the queue is consumed |
| Matching.FillQueueShape | engine/matching_engine.py:118-123 | every maker traded before the last one was filled exactly by its trade and popped; the last one is popped only when its trade filled it completely, and otherwise stays at the front with its fill raised by exactly the trade quantity and something still left |
| Matching.FillQueueAtPrice | engine/matching_engine.py:99-101 | every trade at a level is at that level's price |
| Matching.TradesFollowConcat | engine/matching_engine.py:83-123 | consuming one queue in full and then another is consuming their concatenation |
| Matching.QueueRemainingAppend | engine/matching_engine.py:65-71 | the remaining quantity of two queues together is the sum of the two |
| Matching.WalkSuffix | engine/matching_engine.py:83-139 | the walk keeps the side and removes levels only from the front of the sorted list |
| Matching.WalkAccounting | engine/matching_engine.py:83-142 | over the walk, the incoming order's fill grows by exactly the traded quantity and never passes its quantity; an order with nothing left trades nothing; the walk only removes levels from the front of the sorted list |
| Matching.WalkStep | engine/matching_engine.py:83-139 | one turn of the outer loop is the fills at the best level followed by the walk from what is left; a level stays only when the order is done |
| Matching.WalkInvariant | engine/matching_engine.py:122-139 | the walk keeps the side invariant, so no empty level survives, and keeps every resting order live |
| Matching.WalkPriority | engine/matching_engine.py:83-123 | price-time priority over a whole side: the trades consume the resting orders best level first and FIFO within a level, each at the maker's price for the smaller remaining quantity |
| Matching.WalkLeaves | engine/matching_engine.py:118-139 | what the walk leaves is the rest of the side in price-time order: every maker traded before the last was filled exactly and is gone, and the last is gone only when filled completely, otherwise it is still first with its fill raised by the trade |
| Matching.WalkConservesLiquidity | engine/matching_engine.py:118-123 | the quantity resting on the side shrinks by exactly the quantity traded |
| Matching.MarketableMonotone | engine/matching_engine.py:50-59 | marketability only worsens down a side's sorted list |
| Matching.AvailableBeyond | engine/matching_engine.py:65-71 | past the first non-marketable level the pre-check counts nothing more |
| Matching.AvailableFrame | engine/matching_engine.py:65-71 | the pre-check's sum depends only on the listed levels and the order's price, not on its fill |
| Matching.WalkStops | engine/matching_engine.py:83-89 | a walk that ends with quantity left has used every marketable level and stopped at a non-marketable level or an empty side; what is left is the entry quantity less the pre-check's sum |
| Matching.FokFeasibleFills | engine/matching_engine.py:62-74 | when the pre-check finds enough marketable quantity, the walk fills the order completely |
| Matching.WalkTradePrices | engine/matching_engine.py:86-102 | every trade is at a marketable price that was on the side, and at least as good as the best price left afterwards |
| Matching.TradePricesPrepend | engine/matching_engine.py:86-102 | trades at the best price followed by trades deeper in the list stay within the list |
| Matching.NoTradeThrough | engine/matching_engine.py:88-89 | no trade is at a price worse than any price still resting on the side afterwards |
| Matching.WalkBestWorsens | engine/matching_engine.py:83-139 | the walk never improves the best price left on the side it consumes |
| Matching.SubmitKeepsBook | engine/matching_engine.py:28-163 | processing an order keeps both sides well formed and every resting order live |
| Matching.SubmitConserves | engine/matching_engine.py:83-119 | the incoming order's fill grows by exactly the traded quantity, which never exceeds its remaining quantity at entry; an order with nothing to fill trades nothing and changes nothing |
| Matching.SubmitFillOrKill | engine/matching_engine.py:62-74 | an infeasible FOK order trades nothing and leaves the book as it was; a feasible one ends fully filled and nothing of it rests |
| Matching.SubmitResidual | engine/matching_engine.py:145-159 | only a limit order with quantity left rests, at the back of its own side; a market, IOC, FOK or filled order leaves its own side unchanged; the opposite side is what the walk left |
| Matching.SubmitKeepsUncrossed | engine/matching_engine.py:145-159 | a book with no bid at or above an ask stays so after any order |
| OrderBooks.OrderBook.constructor | engine/order_book.py:5-9 | a new book has two empty sides and no best bid or ask |
| OrderBooks.OrderBook.AddOrder | engine/order_book.py:11-14 | the book becomes the old book with the order appended on its own side, and stays valid with a refreshed cache |
| OrderBooks.OrderBook.RemoveOrder | engine/order_book.py:16-22 | the book becomes the old book with the order removed from its own side, and stays valid with a refreshed cache |
| OrderBooks.OrderBook.UpdateBbo | engine/order_book.py:24-26 | the cached bid is the highest bid price or None, and the cached ask is the lowest ask price or None |
| OrderBooks.OrderBook.GetBestBid | engine/order_book.py:28-29 | returns the cached bid, which is the highest bid price or None, and changes nothing |
| OrderBooks.OrderBook.GetBestAsk | engine/order_book.py:31-32 | returns the cached ask, which is the lowest ask price or None, and changes nothing |
| Engine.AvailableQuantity | engine/matching_engine.py:62-71 | the loop sums the remaining quantity over every marketable level, as the pre-check's specification does |
| Engine.MatchQueue | engine/matching_engine.py:98-123 | the inner loop computes exactly the level's fills: the queue left, the order with its fills and the trades in order |
| Engine.MatchLevels | engine/matching_engine.py:80-142 | the outer loop over the snapshot of the sorted list computes exactly the walk: the side left, the order with its fills and the trades in order |
| Engine.MatchStep | engine/matching_engine.py:83-139 | one turn of the outer loop keeps its invariants: the side left by the turn resumes the walk with the turn's trades appended |
| Engine.MatchOrder | engine/matching_engine.py:36-163 | the book becomes exactly what `Submit` describes, the returned trades and order are those of `Submit`, the returned quotes are the book's best bid and ask afterwards, and the book stays sound |
| Engine.Execute | engine/matching_engine.py:80-163 | for an order the pre-check lets through, the matching loops, the quote refresh and the residual rule produce the book, trades and order that `Submit` describes |
| Engine.MatchingEngine.StateOf | engine/matching_engine.py:18-21 | the state of a symbol's book, empty before the symbol is seen, is valid, live and uncrossed |
| Engine.MatchingEngine.constructor | engine/matching_engine.py:12-16 | a new engine has no books and an empty audit log |
| Engine.MatchingEngine.GetBook | engine/matching_engine.py:18-21 | a symbol's first request creates and files an empty book; later requests return the same book and change nothing |
| Engine.MatchingEngine.Bbo | engine/matching_engine.py:23-26 | returns the best bid and ask of the symbol's book, both None for a new symbol, and changes no book |
| Engine.MatchingEngine.ProcessOrder | engine/matching_engine.py:28-163 | the symbol's book becomes what `Submit` describes; the audit log grows by exactly the returned trades in order; the returned quotes are read after all changes; other symbols' books are untouched |
| Subscriptions.Insert | api/server.py:35-36 | adding to the set under a key adds to that set alone, creates the entry if needed, and creates no empty entry |
| Subscriptions.Discard | api/server.py:40-47 | discarding from the set under a key removes from that set alone and prunes an entry that becomes empty |
| Subscriptions.InsertKeepsMirror | api/server.py:29-36 | registering keeps the two maps mirror images |
| Subscriptions.DiscardKeepsMirror | api/server.py:29-47 | unregistering keeps the two maps mirror images |
| Subscriptions.InsertIdempotent | api/server.py:35-36 | registering the same pair twice is the same as once |
| Subscriptions.DiscardAbsent | api/server.py:40-44 | unregistering a pair that is not registered changes nothing |
| Subscriptions.DiscardInsert | api/server.py:33-47 | unregistering a pair just registered restores both maps |
| Subscriptions.Registry.constructor | api/server.py:29-31 | the registry starts with two empty maps |
| Subscriptions.Registry.Register | api/server.py:33-36 | the pair joins the socket's set and the socket joins the pair's set; no other subscription changes; the maps stay mirrored with no empty entry |
| Subscriptions.Registry.Unregister | api/server.py:38-47 | the pair leaves both maps, an emptied entry is pruned, no other subscription changes, and the maps stay mirrored |
| Subscriptions.Registry.UnregisterAll | api/server.py:49-51 | the socket loses every subscription and its entry, no other socket's subscriptions change, and the maps stay mirrored |
| Subscriptions.Registry.Subscribers | api/server.py:56 | the index lists exactly the sockets subscribed to a feed of a symbol |
| Scenarios.SellRests | tests/test_matching_engine.py:11-14 | a limit sell of 1 at 100 on an empty book trades nothing and rests alone |
| Scenarios.BuyCrosses | tests/test_matching_engine.py:16-24 | a limit buy of 1 at 105 against it trades once for 1 at 100 and leaves both sides empty |
| Scenarios.LimitOrderMatching | tests/test_matching_engine.py:10-24 | end to end from an empty book: one trade at 100 for 1, and no bid or ask afterwards |

## Left out

- I/O and concurrency are not modelled: the FastAPI endpoints, JSON shaping, `broadcast_to_feed`, `safe_send` and the per-symbol `asyncio.Lock`. The model assumes a single sequential caller.
- Persistence (engine/persistence.py), `top_n`, `__repr__` and `Trade.to_dict` are left out. `to_dict` is JSON shaping. `top_n` does not exist in engine/order_book.py.
- The pydantic validators of api/schemas.py are left out. Their rule that a limit order needs a price is kept, widened to IOC and FOK, as the `HasPrice` precondition of processing an order, since those types compare against the price too.
- Ids and timestamps come from uuid4 and the clock. They are parameters of `NewOrder`, and trades carry no trade id or timestamp.
- Rounding to 18 significant digits is not modelled. Prices and quantities are exact scaled integers. With a quantity of more than 18 significant digits, the engine's `remaining` can round to a tiny non-zero value, such as -1E-19, that no fill clears. A resting order whose remaining stays non-zero after its fill is never popped, so the inner loop may never end. The model's termination and conservation results hold only when nothing rounds.
- The BBO's string formatting is left out: a quote is `Option<int>`.
- Orders are values, not shared objects. The in-place `filled +=` on a resting order becomes replacing that order at the front of its queue, and on the incoming order it becomes returning the order with its fills. Aliasing of one order object between two places is not modelled.
- The engine appends each trade to `self.trades` as it is made. `MatchingEngine.ProcessOrder` appends the whole run after matching, so the audit log's final contents and order are modelled, but not its intermediate states.
- The matching loops work on a copy of the opposite side, which is written back to the book before the quotes are refreshed. The source updates the book's deques in place; the resulting book is the same.
- The branch at engine/matching_engine.py:91-95 is not modelled as reachable. It skips a listed price whose queue is missing or empty, and under the side invariant every listed price has a non-empty queue. `Walk` deletes such a level instead.
- The FOK early return calls `self.bbo(order.symbol)`, which fetches the same book again. `Engine.MatchOrder` reads that book's quotes directly.
- A trade's aggressor side is kept as a `Side` rather than its string value.
- OrderBooks.OrderBook.AddOrder: requires the order to carry a price. Adding a market order, which the engine never does, would file it under a `None` key.
