# Limit-order book with an event-driven driver, in Dafny

This project models the core of a small limit-order-book engine and the
driver that feeds it events.

- **`datatypes.dfy`** (module `Datatypes`): the records the engine exchanges.
  These are orders (id, price, remaining quantity, side tag +1 / -1, timestamp),
  trades (maker id, taker id, price, quantity, timestamp) and cancel requests.
- **`order_book.dfy`** (module `OrderBook`): the fixed-depth book.
  - Each side is a ladder of `MaxLevels` = 200 slots, held as two parallel
    arrays: prices and quantities.
  - An index maps each order id to a signed slot code: +(slot+1) for a bid,
    -(slot+1) for an ask.
  - Class `Book` holds the four arrays and the index. Its methods update them
    in place: `init_book`, `add_limit`, `cancel`, `match_incoming` and
    `process_market`.
  - The module-level methods `ShiftDown`, `ShiftUp`, `SweepInPlace`,
    `TradeAtTop` and `InsertLevel` work in place on one ladder's two arrays.
  - Each method is proved to leave exactly the state computed by a ghost
    specification function over the value `BookState`: `AddLimitSpec`,
    `CancelSpec`, `Sweep`/`MatchSpec` and `ProcessMarketSpec`.
  - Lemmas about those functions state what the engine promises:
    - where a rested order lands, and that the time priority among equal bids
      is kept;
    - what a cancel changes;
    - that every trade respects the taker's limit and carries its id and
      timestamp;
    - that traded quantity is conserved;
    - that trades come out best price first;
    - that every operation keeps the ladders ordered.
- **`event_queue.dfy`** (module `EventQueue`): the timestamp-ordered queue.
  - The class keeps its contents as a multiset of (timestamp, event) pairs.
  - `PopUntil` removes every pair due by a bound and returns them in
    non-decreasing timestamp order.
- **`simulator.dfy`** (module `Simulator`): `run_simulation` and the demonstration run.
  - The driver preloads every event, then advances a clock from 0 in steps of 1.
    At each step it drains the due events into the book until the queue is
    empty.
  - Its specification is `Replay`, a left fold of the per-event handling
    `DispatchSpec` over the events.
  - `RunSimulation` is proved to do four things:
    - dispatch every event exactly once, in non-decreasing timestamp order;
    - return exactly the trades of replaying them in that order on an empty
      book;
    - return only trades that come from an order event of the input, with
      maker -1, that order as taker, its timestamp and a positive quantity;
    - stop its clock one past the larger of 0 and the last timestamp, or
      at 0 when there are no events.
  - The four-order demonstration is proved to produce exactly two trades:
    the crossing bid lifts the resting ask at 100 for 10, then the market
    sell hits the resting bid at 99 for 5.

Behaviour kept as the code has it:

- **Freed ask slots.** `_shift_up` resets the freed last slot to price -1
  on both sides, so a freed ask slot gets -1, not the infinite price.
  - The ask ladder is therefore sorted only up to a tail of (-1, 0) slots.
    The invariant `AsksShaped` says exactly that.
  - Bids are sorted with no exception (`BidsOrdered`).
  - A sell priced at or above -1 and at or above every ask slot before the
    freed tail (cancelled slots included) also passes the tail. It is then dropped,
    although the tail slots hold no quantity (`FreedAskTailDropsSell`).
- **Cancel.** A cancel zeroes a slot's quantity without compacting the
  ladder. A matching loop stops at a zeroed top slot
  (`CancelledTopAskBlocksBuys`).
- **Stale index.** Index entries are not updated when a ladder shifts, so
  an entry can name a slot whose level has since moved.
- **Trade fields.** Trades always carry maker id -1, and their timestamp
  is the taker's.

## Model

| member | source | states |
|---|---|---|
| `OrderBook.ShiftedDown` | core/order_book.py:37-44 | after the shift, slots up to `start` keep their value, every deeper slot holds its predecessor, and the length is unchanged |
| `OrderBook.ShiftedUp` | core/order_book.py:47-57 | after the shift, slot i holds old slot i+1 and the last slot holds the reset value |
| `OrderBook.ShiftDown` | core/order_book.py:37-44 | the in-place loop leaves the arrays equal to `ShiftedDown` of their old contents |
| `OrderBook.ShiftUp` | core/order_book.py:47-57 | the in-place loop leaves the arrays equal to `ShiftedUp` of their old contents, with (-1, 0) in the last slot |
| `OrderBook.Book.constructor` | core/order_book.py:60-78 | fresh ladders of MaxLevels slots: bids at -1, asks at the infinite price, all quantities 0, empty index; the book is well formed and ordered |
| `OrderBook.InitState` | core/order_book.py:71-78 | the book `init_book` returns is well formed, has an empty index and holds no quantity on either ladder |
| `OrderBook.InitStateOrdered` | core/order_book.py:71-75 | the initial book is well formed, bids are ordered and the asks are shaped |
| `OrderBook.DecodeSlot` | core/order_book.py:132-135 | a positive code decodes to a bid slot and a negative one to an ask slot, and a code within ±MaxLevels to a slot within the ladder |
| `OrderBook.SlotCode` | core/order_book.py:98-108 | the code stored for slot `pos` is nonzero and decodes back to a bid or ask slot at `pos`, by side |
| `OrderBook.DecodeThenEncode` | core/order_book.py:130-135 | decoding a nonzero code as cancel does, then encoding the slot as add_limit does, gives back the code |
| `OrderBook.InsertionPoint` | core/order_book.py:89-102 | the scan stops at the first slot the order does not pass, and passes every slot before it |
| `OrderBook.InsertLevel` | core/order_book.py:88-107 | the loop returns `InsertionPoint`; when the scan reaches MaxLevels the ladder is untouched, otherwise it is the shifted ladder with the order's price and quantity written at the stop slot |
| `OrderBook.AddLimitSpec` | core/order_book.py:82-108 | `add_limit` on book values: the result is well formed; where the order lands, when it is dropped and that the ladders stay ordered are the contracts of `AddLimitPlacement`, `AddLimitDropsWhenFull` and `AddLimitKeepsOrdered` |
| `OrderBook.Book.AddLimit` | core/order_book.py:82-108 | the new book state is `AddLimitSpec` of the old one, and the book stays valid and ordered |
| `OrderBook.AddLimitDropsWhenFull` | core/order_book.py:93-94 | when the order passes every level of its own ladder, nothing changes |
| `OrderBook.FreedAskTailDropsSell` | core/order_book.py:101-104 | on an ask ladder with a non-empty freed tail of (-1, 0) slots, a sell priced at or above -1 and at or above every slot before that tail, cancelled slots included, is dropped (nothing changes) although the last slot is empty |
| `OrderBook.AddLimitPlacement` | core/order_book.py:88-108 | otherwise the id maps to a code for its own side that decodes to an in-range slot holding the order's price and quantity; every slot ahead of it keeps its price and quantity and is one the order passes; the old level at its slot is the first one it does not pass; deeper slots took the price and quantity of the slot above them; other index entries and the opposite ladder are unchanged |
| `OrderBook.BuyLandsBehindEqualBids` | core/order_book.py:90-92 | on an ordered bid ladder a rested buy lands behind every bid at or above its price and ahead of every lower bid (time priority among equal prices) |
| `OrderBook.InsertKeepsBidsOrdered` | core/order_book.py:88-97 | inserting a bid at its scan point keeps the bid ladder non-increasing |
| `OrderBook.InsertKeepsAsksShaped` | core/order_book.py:99-107 | inserting an ask at its scan point keeps the ask ladder a sorted run followed by a (-1, 0) tail |
| `OrderBook.AddLimitKeepsOrdered` | core/order_book.py:82-108 | `add_limit` keeps both ladders ordered |
| `OrderBook.BestBid` | core/order_book.py:111-113 | returns slot 0; on an ordered bid ladder its price is the highest bid price |
| `OrderBook.BestAsk` | core/order_book.py:116-118 | returns slot 0; on a shaped ask ladder its price is at or below the price of every slot holding quantity |
| `OrderBook.AsksShapedBest` | core/order_book.py:116-118 | on a shaped ask ladder no slot holding quantity is priced below slot 0 |
| `OrderBook.CancelSpec` | core/order_book.py:121-137 | found iff the id is indexed; if not, nothing changes; if so, its entry is removed and the quantity of the decoded slot becomes 0; no other quantity and no price changes |
| `OrderBook.Book.Cancel` | core/order_book.py:121-137 | the result and new state are `CancelSpec` of the old state, and the book stays valid and ordered |
| `OrderBook.CancelKeepsOrdered` | core/order_book.py:121-137 | cancel keeps both ladders ordered |
| `OrderBook.Sweep` | core/order_book.py:145-172 | the matching loop on one ladder: lengths and non-negative quantities kept, the taker changes only in quantity, which stays in [0, old]; afterwards the taker is filled, the top slot is empty, or its price does not cross; with nothing to trade nothing changes |
| `OrderBook.SweepStep` | core/order_book.py:147-158 | one round: trade min(remaining, top quantity) at the top price with maker -1, then sweep the ladder with slot 0 reduced, shifted up if it emptied |
| `OrderBook.TradeAtTop` | core/order_book.py:151-158 | the in-place round: the taker's quantity strictly decreases, quantities stay non-negative, and the round's trade followed by the sweep of the new arrays is the sweep of the old ones |
| `OrderBook.SweepInPlace` | core/order_book.py:145-172 | the in-place loop ends with exactly the ladder, taker and trades that `Sweep` computes from the old arrays |
| `OrderBook.SweepTradeRecords` | core/order_book.py:151-154 | every trade of a sweep has maker -1, the taker's id and timestamp, a positive quantity, and a price within the taker's limit |
| `OrderBook.SweepConservesQuantity` | core/order_book.py:151-156 | the traded quantities add up to what the taker lost |
| `OrderBook.ShiftUpKeepsBidsOrdered` | core/order_book.py:47-57 | shift-up keeps the bid ladder ordered |
| `OrderBook.ShiftUpKeepsAsksShaped` | core/order_book.py:47-57 | shift-up keeps the ask ladder shaped, with the run one slot shorter |
| `OrderBook.SweepBids` | core/order_book.py:161-172 | a sell's sweep keeps the bids ordered; its trades are priced at or below the old best bid and never rise |
| `OrderBook.SweepKeepsAsksShaped` | core/order_book.py:147-158 | a buy's sweep keeps the ask ladder shaped |
| `OrderBook.SweepAsksBestFirst` | core/order_book.py:147-158 | a buy's trades are priced at or above the old best ask and never fall |
| `OrderBook.MatchSpec` | core/order_book.py:140-172 | a buy sweeps the asks, anything else the bids; the index and the taker's own ladder are untouched and the taker changes only in quantity |
| `OrderBook.Book.MatchIncoming` | core/order_book.py:140-172 | the new state, taker and trades are `MatchSpec` of the old state, and the book stays valid and ordered |
| `OrderBook.MatchKeepsOrdered` | core/order_book.py:140-172 | matching keeps both ladders ordered |
| `OrderBook.MatchTrades` | core/order_book.py:145-172 | a match's trades add up to what the taker lost; each has maker -1, the taker's id and timestamp, a positive quantity, and a price at or below a buy's limit or at or above a sell's |
| `OrderBook.CancelledTopAskBlocksBuys` | core/order_book.py:147-150 | after cancelling the order indexed at top ask slot 0, a buy trades nothing and changes nothing |
| `OrderBook.ProcessMarketSpec` | core/order_book.py:175-181 | the taker is repriced to +infinity for a buy and -infinity otherwise; the index and its own ladder are untouched |
| `OrderBook.Book.ProcessMarket` | core/order_book.py:175-181 | the new state, taker and trades are `ProcessMarketSpec` of the old state, and the book stays valid and ordered |
| `EventQueue.EventQueue.constructor` | core/event_queue.py:21-23 | a new queue is empty |
| `EventQueue.EventQueue.Length` | core/event_queue.py:38-39 | the length is zero exactly when the queue is empty |
| `EventQueue.EventQueue.Push` | core/event_queue.py:26-28 | the contents gain exactly the pushed pair and the length grows by one |
| `EventQueue.EventQueue.Peek` | core/event_queue.py:35 | the head pair has the smallest timestamp queued |
| `EventQueue.EarliestExists` | core/event_queue.py:35-36 | a non-empty queue always has a pair of smallest timestamp |
| `EventQueue.EventQueue.HeadDue` | core/event_queue.py:35 | the loop guard holds iff the queue is non-empty and its earliest pairs are due by the bound; when it fails, nothing queued is due |
| `EventQueue.EventQueue.PopEarliest` | core/event_queue.py:36 | removes exactly one pair, and it has the smallest timestamp queued |
| `EventQueue.DrainStep` | core/event_queue.py:35-36 | popping a due earliest pair keeps the drain state: nothing lost, everything popped due and in order, nothing queued earlier than the last pop |
| `EventQueue.DrainFinished` | core/event_queue.py:30-36 | a drain removes as many pairs as it returns, and returns nothing when nothing was due |
| `EventQueue.EventQueue.PopUntil` | core/event_queue.py:30-36 | the returned pairs plus what remains are the old contents; everything returned is due, in non-decreasing timestamp order; nothing remaining is due; the length drops by the number returned; nothing is removed when nothing is due |
| `EventQueue.SortedPermutationUnique` | core/event_queue.py:30-36 | when the timestamps are distinct, ascending time order is unique: a sorted ordering of the same pairs equals the strictly sorted one |
| `Simulator.MarketNeverRests` | simulator.py:56-58 | a price-0 order goes to process_market and never rests: the index and its own ladder are unchanged; a non-order event changes nothing and trades nothing |
| `Simulator.DispatchSpec` | simulator.py:56-62 | handling one event keeps the book well formed; what it does per kind of event is the contract of `MarketNeverRests`, `LimitRestsOnlyRemainder` and `DispatchTrades` |
| `Simulator.LimitRestsOnlyRemainder` | simulator.py:59-62 | any other order is matched first; a fully filled order leaves exactly the matched book; only a positive remainder is rested, by `add_limit`; the trades are the match's |
| `Simulator.DispatchKeepsOrdered` | simulator.py:56-62 | handling an event keeps both ladders ordered |
| `Simulator.DispatchTrades` | simulator.py:56-62 | every trade from an order event has that order as taker, maker -1, its timestamp and a positive quantity; a limit order never trades through its price |
| `Simulator.Dispatch` | simulator.py:56-62 | the live book and trades after one event are `DispatchSpec` of the old book, and the book stays valid |
| `Simulator.DispatchAll` | simulator.py:55-62 | dispatching a sequence of events in order leaves the book and trades that `Replay` computes |
| `Simulator.Step` | simulator.py:55-62 | one drained event keeps a well-formed book well formed, and every trade it makes has maker -1, a positive quantity, and that event's order id and timestamp |
| `Simulator.ReplayAppend` | simulator.py:55-62 | replaying one more event continues from the book the earlier ones left and appends its trades after theirs |
| `Simulator.ReplayConcat` | simulator.py:53-68 | replaying two pieces one after the other is replaying the whole stream |
| `Simulator.Replay` | simulator.py:53-68 | the clock loop's effect on the book, as a left fold of `Step` over the dispatched events: from a well-formed book every book it reaches is well formed |
| `Simulator.ReplayKeepsOrdered` | simulator.py:53-68 | every book the driver reaches is ordered |
| `Simulator.ReplayTradeOrigins` | simulator.py:55-66 | every trade of a replay has maker -1, a positive quantity, and the id and timestamp of one of the replayed order events |
| `Simulator.ReplaySkipsNonOrders` | simulator.py:56 | replaying a stream is replaying its order events alone |
| `Simulator.DrainDue` | simulator.py:55-62 | one clock step pops exactly the due events and leaves nothing due; the popped events come from the queue in non-decreasing timestamp order; book and trades are those of replaying them |
| `Simulator.LastTick` | simulator.py:51-68 | the last clock value with an event due: non-negative, at least every timestamp, and 0 or an actual timestamp |
| `Simulator.ClockStart` | simulator.py:47-51 | after preloading, at tick 0, every event is queued and none is dispatched |
| `Simulator.ClockStep` | simulator.py:53-68 | one turn of the clock loop on a non-empty queue keeps the loop invariant at the next tick, and the clock had not passed the last tick |
| `Simulator.DrainedInOrder` | simulator.py:55-68 | appending the events drained at a tick to those dispatched before it keeps the dispatch order sorted |
| `Simulator.ClockEnd` | simulator.py:53-70 | when the queue is empty every event has been dispatched, and the clock stands one past the last tick, or at 0 with no events |
| `Simulator.RunSimulation` | simulator.py:35-70 | every event is dispatched exactly once, in non-decreasing timestamp order; the trades are those of replaying that order on an empty book; each has maker -1, a positive quantity, and the id and timestamp of an order event of the input; the clock ends one past the larger of 0 and the last timestamp (at 0 with no events) |
| `Simulator.DemoSellRests` | simulator.py:76-77 | the sell at 100 trades nothing and rests at ask slot 0 |
| `Simulator.DemoBuyLiftsAsk` | simulator.py:78-79 | the buy at 101 trades 10 at 100 against maker -1 and empties the top ask |
| `Simulator.DemoBuyRests` | simulator.py:80-81 | the buy at 99 trades nothing and rests at bid slot 0 |
| `Simulator.DemoMarketHitsBid` | simulator.py:82-83 | the market sell trades 5 at 99 |
| `Simulator.DemoReplay` | simulator.py:75-86 | replaying the demonstration stream yields exactly its two trades |
| `Simulator.DemoDispatchOrder` | simulator.py:75-86 | the demonstration's timestamps are distinct, so the driver dispatches it in stream order, producing its two trades |
| `Simulator.RunDemo` | simulator.py:74-86 | running the driver on the demonstration stream returns exactly the two trades |

## Left out

- Prices are `int`, not float64:
  - the empty bid price is -1 and the infinite price is 10^18;
  - a market order is one whose price is 0;
  - float rounding and comparisons with NaN are not modelled.
- 64-bit integer limits on ids, quantities and timestamps are not modelled.
- Numba compilation, the NumPy array types and the typed dictionary are not modelled. The dictionary is a Dafny `map`.
- Orders are values:
  - `match_incoming` and `process_market` return the updated taker, where the source writes `quantity` and `price` into the shared object;
  - aliasing of one order object that appears twice in a stream is not modelled.
- `match_incoming` returns the trades it produced, and the driver appends them. The source appends to a list passed in.
- `SweepInPlace` and `InsertLevel` are single loops over one ladder, tested by side. The source writes the buy and sell loops out twice.
- `OrderBook.Book.AddLimit` requires a non-negative quantity:
  - the source accepts any quantity;
  - its one caller rests only a positive remainder;
  - well-formedness of the book includes non-negative quantities.
- `Order.is_filled` is the predicate `IsFilled`. It has no contract of its own; `Sweep` uses it to state when the loop stops.
- The `__main__` self-test in `core/datatypes.py` is not part of this model.
- The record constructors `Order`, `Trade` and `Cancel` are plain datatypes with no contract.
- The binary-heap layout of the queue is not modelled. The queue is a multiset, and every removal takes some pair of smallest timestamp.
- Ties between equal timestamps:
  - on a tie `heapq` compares the events themselves, and two `Order` objects define no ordering, so `push` or `pop_until` raises a type error on such inputs;
  - the model does not compare events and does not fail: it leaves the order among equal timestamps open, so proofs hold for every order;
  - `RunSimulation`'s guarantees for inputs with equal timestamps therefore describe inputs on which the source raises instead of returning.
- `EventQueue.EventQueue.PopUntil` returns all due pairs at once instead of yielding them lazily. The driver consumes the whole generator, and dispatching never touches the queue, so the two agree.
- `Simulator.RunSimulation`:
  - it does not take the optional strategy callback (`strategy.on_event`), which is code the engine does not define;
  - `dispatched` and `ticks` are ghost outputs that name the dispatch order and the final clock.
- The driver handles only `Order` events:
  - any other event (modelled as `CancelEvent`) is popped and ignored, as the source's type check does;
  - `cancel` is never called by the driver.
- `Simulator.Step` applies `DispatchSpec` only to well-formed books. Every book the driver reaches is well formed (the contract of `Simulator.Replay`).
- The printing of the demonstration's trades in `__main__` is left out; `RunDemo` returns the trades instead.
