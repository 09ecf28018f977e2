// Fixed-depth limit-order book: two ladders of parallel price/quantity arrays,
// a signed-index map for cancels, and the price-priority matching loop.
//
// The ghost functions over `BookState` are the specification: each method of
// `Book` is proved to produce exactly the state the corresponding function
// computes from the old state, and the lemmas state what those functions
// promise (placement, cancel effect, trade records, conservation, ordering).

module OrderBook {
  import opened Datatypes

  /** Number of price levels on each side. */
  const MaxLevels: nat := 200
  /** Price of an empty ask slot; a market buy is repriced to it, a market sell to its negation. */
  const InfPrice: int := 1_000_000_000_000_000_000
  /** Price of an empty bid slot. A shift-up writes it into the freed last slot of EITHER side. */
  const EmptyPrice: int := -1

  function Min(a: int, b: int): (m: int)
    ensures m <= a && m <= b && (m == a || m == b)
  {
    if a <= b then a else b
  }

  // ---------------------------------------------------------------------
  // Ladders as values

  /** The ladder after `_shift_down(start)`: slots 0..start keep their values,
      slot j > start takes old slot j-1, and the old last slot is discarded. */
  ghost function ShiftedDown(s: seq<int>, start: nat): (r: seq<int>)
    requires start < |s|
    ensures |r| == |s|
    ensures forall j :: 0 <= j <= start ==> r[j] == s[j]
    ensures forall j :: start < j < |s| ==> r[j] == s[j - 1]
  {
    s[..start + 1] + s[start..|s| - 1]
  }

  /** The ladder after `_shift_up`: slot i takes old slot i+1 and the last
      slot receives `fill`. */
  ghost function ShiftedUp(s: seq<int>, fill: int): (r: seq<int>)
    requires |s| > 0
    ensures |r| == |s|
    ensures forall i :: 0 <= i < |s| - 1 ==> r[i] == s[i + 1]
    ensures r[|s| - 1] == fill
  {
    s[1..] + [fill]
  }

  /** Abstract value of the book: the four arrays and the id index. */
  datatype BookState = BookState(bidsP: seq<int>, bidsQ: seq<int>, asksP: seq<int>, asksQ: seq<int>, idx: map<int, int>)

  ghost predicate NonNegative(q: seq<int>) {
    forall i :: 0 <= i < |q| ==> q[i] >= 0
  }

  /** An index value is +(slot+1) for a bid or -(slot+1) for an ask. */
  predicate ValidCode(code: int) {
    code != 0 && -(MaxLevels as int) <= code <= MaxLevels
  }

  /** Shape every reachable book has: full-depth ladders, no negative
      quantity, every index value in range. (Nothing more: index entries
      may point at slots that have since moved.) */
  ghost predicate Wf(b: BookState) {
    && |b.bidsP| == MaxLevels && |b.bidsQ| == MaxLevels
    && |b.asksP| == MaxLevels && |b.asksQ| == MaxLevels
    && NonNegative(b.bidsQ) && NonNegative(b.asksQ)
    && forall id :: id in b.idx ==> ValidCode(b.idx[id])
  }

  /** The state `init_book` returns. */
  ghost function InitState(): (b: BookState)
    ensures Wf(b) && b.idx == map[]
    ensures forall i :: 0 <= i < MaxLevels ==> b.bidsQ[i] == 0 && b.asksQ[i] == 0
  {
    BookState(seq(MaxLevels, _ => EmptyPrice), seq(MaxLevels, _ => 0),
              seq(MaxLevels, _ => InfPrice), seq(MaxLevels, _ => 0), map[])
  }

  // ---------------------------------------------------------------------
  // The signed slot code of the index

  datatype Slot = BidSlot(level: nat) | AskSlot(level: nat)

  /** The code `add_limit` stores for an order of `side` placed at `pos`. */
  function SlotCode(side: int, pos: nat): (code: int)
    ensures code != 0
    ensures DecodeSlot(code) == if side == OrderSideBuy then BidSlot(pos) else AskSlot(pos)
  {
    if side == OrderSideBuy then pos + 1 else -(pos + 1)
  }

  /** How `cancel` reads a code: +idx is bid slot idx-1, -idx is ask slot -idx-1. */
  function DecodeSlot(code: int): (s: Slot)
    requires code != 0
    ensures s.BidSlot? <==> code > 0
    ensures ValidCode(code) ==> s.level < MaxLevels
  {
    if code > 0 then BidSlot(code - 1) else AskSlot(-code - 1)
  }

  /** Decoding then re-encoding gives back the code. */
  lemma DecodeThenEncode(code: int)
    requires code != 0
    ensures var s := DecodeSlot(code);
            SlotCode(if s.BidSlot? then OrderSideBuy else OrderSideSell, s.level) == code
  {
  }

  ghost predicate InRange(s: Slot) {
    s.level < MaxLevels
  }

  ghost function SlotPrice(b: BookState, s: Slot): int
    requires Wf(b) && InRange(s)
  {
    if s.BidSlot? then b.bidsP[s.level] else b.asksP[s.level]
  }

  ghost function SlotQty(b: BookState, s: Slot): int
    requires Wf(b) && InRange(s)
  {
    if s.BidSlot? then b.bidsQ[s.level] else b.asksQ[s.level]
  }

  // ---------------------------------------------------------------------
  // Ladder ordering kept by every operation

  /** Bid prices never increase with depth and never drop below the empty price. */
  ghost predicate BidsOrdered(p: seq<int>) {
    && (forall i, j :: 0 <= i < j < |p| ==> p[i] >= p[j])
    && (forall i :: 0 <= i < |p| ==> p[i] >= EmptyPrice)
  }

  /** The ask ladder is a non-decreasing run of k slots followed by slots
      holding (EmptyPrice, 0): a shift-up frees the last ask slot with the
      bid-side empty price rather than InfPrice, so the asks are sorted only
      up to that tail. */
  ghost predicate AsksShapedAt(p: seq<int>, q: seq<int>, k: nat) {
    && k <= |p| && |q| == |p|
    && (forall i, j :: 0 <= i < j < k ==> p[i] <= p[j])
    && (forall i :: k <= i < |p| ==> p[i] == EmptyPrice && q[i] == 0)
  }

  ghost predicate AsksShaped(p: seq<int>, q: seq<int>) {
    exists k: nat :: AsksShapedAt(p, q, k)
  }

  ghost predicate Ordered(b: BookState) {
    BidsOrdered(b.bidsP) && AsksShaped(b.asksP, b.asksQ)
  }

  /** The initial book is well formed and ordered. */
  lemma InitStateOrdered()
    ensures Wf(InitState()) && Ordered(InitState())
  {
    var b := InitState();
    assert AsksShapedAt(b.asksP, b.asksQ, MaxLevels);
  }

  /** The best ask is no higher than any ask slot that holds quantity. */
  lemma AsksShapedBest(p: seq<int>, q: seq<int>)
    requires AsksShaped(p, q) && |p| > 0
    ensures forall i :: 0 <= i < |p| && q[i] > 0 ==> p[0] <= p[i]
  {
    var k: nat :| AsksShapedAt(p, q, k);
  }

  /** `AsksShapedBest` as an implication, with no precondition on the shape:
      `BestAsk` does not require a shaped ladder (`_best_ask` accepts any), so
      its postcondition states the fact under that condition, and this lemma
      supplies it in that form. */
  lemma AsksShapedBestOrVacuous(p: seq<int>, q: seq<int>)
    requires |p| > 0
    ensures AsksShaped(p, q) ==> forall i :: 0 <= i < |p| && q[i] > 0 ==> p[0] <= p[i]
  {
    if AsksShaped(p, q) {
      AsksShapedBest(p, q);
    }
  }

  // ---------------------------------------------------------------------
  // add_limit

  /** Whether the insertion scan of `add_limit` moves past a level priced
      `level`: a buy passes every bid priced at or above it, a sell (any side
      other than buy) every ask priced at or below it. */
  ghost predicate PassesLevel(side: int, price: int, level: int) {
    if side == OrderSideBuy then price <= level else price >= level
  }

  /** Where the scan stops: the first slot the order does not pass, or |prices|. */
  ghost function InsertionPoint(prices: seq<int>, side: int, price: int): (pos: nat)
    ensures pos <= |prices|
    ensures forall i :: 0 <= i < pos ==> PassesLevel(side, price, prices[i])
    ensures pos < |prices| ==> !PassesLevel(side, price, prices[pos])
  {
    if |prices| == 0 || !PassesLevel(side, price, prices[0]) then 0
    else 1 + InsertionPoint(prices[1..], side, price)
  }

  /** Prices / quantities of the ladder on which orders of `side` rest. */
  ghost function OwnPrices(b: BookState, side: int): seq<int> {
    if side == OrderSideBuy then b.bidsP else b.asksP
  }

  ghost function OwnQtys(b: BookState, side: int): seq<int> {
    if side == OrderSideBuy then b.bidsQ else b.asksQ
  }

  /** The book after `add_limit(o)`. If the scan runs off the end the order is
      dropped and nothing changes; otherwise the order's level is inserted at
      the stop slot (the tail shifts down, losing the last level) and the
      index maps the order id to the signed slot code. */
  ghost function AddLimitSpec(b: BookState, o: Order): (r: BookState)
    requires Wf(b) && o.quantity >= 0
    ensures Wf(r)
  {
    if o.side == OrderSideBuy then
      var pos := InsertionPoint(b.bidsP, o.side, o.price);
      if pos >= MaxLevels then b
      else
        b.(bidsP := ShiftedDown(b.bidsP, pos)[pos := o.price],
           bidsQ := ShiftedDown(b.bidsQ, pos)[pos := o.quantity],
           idx := b.idx[o.orderId := SlotCode(o.side, pos)])
    else
      var pos := InsertionPoint(b.asksP, o.side, o.price);
      if pos >= MaxLevels then b
      else
        b.(asksP := ShiftedDown(b.asksP, pos)[pos := o.price],
           asksQ := ShiftedDown(b.asksQ, pos)[pos := o.quantity],
           idx := b.idx[o.orderId := SlotCode(o.side, pos)])
  }

  /** When the order passes every level of its ladder (the scan reaches
      MaxLevels) it is dropped: ladders and index are unchanged. */
  lemma AddLimitDropsWhenFull(b: BookState, o: Order)
    requires Wf(b) && o.quantity >= 0
    requires forall i :: 0 <= i < MaxLevels ==> PassesLevel(o.side, o.price, OwnPrices(b, o.side)[i])
    ensures AddLimitSpec(b, o) == b
  {
    var pos := InsertionPoint(OwnPrices(b, o.side), o.side, o.price);
    assert pos == MaxLevels;
  }

  /** A consequence of the (EmptyPrice, 0) reset of freed ask slots: a sell
      priced at or above EmptyPrice and at or above every slot before the
      freed tail (cancelled slots included) passes the tail as well and is dropped, although the last
      slot holds no quantity. */
  lemma FreedAskTailDropsSell(b: BookState, o: Order, k: nat)
    requires Wf(b) && o.quantity >= 0 && o.side != OrderSideBuy
    requires AsksShapedAt(b.asksP, b.asksQ, k) && k < MaxLevels
    requires o.price >= EmptyPrice && forall i :: 0 <= i < k ==> b.asksP[i] <= o.price
    ensures b.asksQ[MaxLevels - 1] == 0
    ensures AddLimitSpec(b, o) == b
  {
    forall i | 0 <= i < MaxLevels
      ensures PassesLevel(o.side, o.price, OwnPrices(b, o.side)[i])
    {
    }
    AddLimitDropsWhenFull(b, o);
  }

  /** Where a rested order lands: the index entry of its id decodes to a slot
      of its own side holding its price and quantity, every slot ahead of it
      keeps its price and quantity and is one its scan passed, the old level
      at that slot is the first one it does not pass, every deeper slot holds
      the price and quantity of the slot above it, every other index entry is
      unchanged and the opposite ladder is untouched. */
  lemma AddLimitPlacement(b: BookState, o: Order)
    requires Wf(b) && o.quantity >= 0
    requires !(forall i :: 0 <= i < MaxLevels ==> PassesLevel(o.side, o.price, OwnPrices(b, o.side)[i]))
    ensures var r := AddLimitSpec(b, o);
      && o.orderId in r.idx && r.idx[o.orderId] != 0
      && var s := DecodeSlot(r.idx[o.orderId]);
      && s.BidSlot? == (o.side == OrderSideBuy) && InRange(s)
      && SlotPrice(r, s) == o.price && SlotQty(r, s) == o.quantity
      && (forall i :: 0 <= i < s.level ==>
            OwnPrices(r, o.side)[i] == OwnPrices(b, o.side)[i] && PassesLevel(o.side, o.price, OwnPrices(r, o.side)[i]))
      && !PassesLevel(o.side, o.price, OwnPrices(b, o.side)[s.level])
      && (forall i :: s.level < i < MaxLevels ==> OwnPrices(r, o.side)[i] == OwnPrices(b, o.side)[i - 1])
      && (forall i :: 0 <= i < s.level ==> OwnQtys(r, o.side)[i] == OwnQtys(b, o.side)[i])
      && (forall i :: s.level < i < MaxLevels ==> OwnQtys(r, o.side)[i] == OwnQtys(b, o.side)[i - 1])
      && (forall id :: id in b.idx && id != o.orderId ==> id in r.idx && r.idx[id] == b.idx[id])
      && r.idx.Keys == b.idx.Keys + {o.orderId}
      && (o.side == OrderSideBuy ==> r.asksP == b.asksP && r.asksQ == b.asksQ)
      && (o.side != OrderSideBuy ==> r.bidsP == b.bidsP && r.bidsQ == b.bidsQ)
  {
    var pos := InsertionPoint(OwnPrices(b, o.side), o.side, o.price);
    var i0 :| 0 <= i0 < MaxLevels && !PassesLevel(o.side, o.price, OwnPrices(b, o.side)[i0]);
    assert pos <= i0;
    var r := AddLimitSpec(b, o);
    assert DecodeSlot(r.idx[o.orderId]).level == pos;
  }

  /** Inserting a bid at its scan point keeps the bid ladder ordered. */
  lemma InsertKeepsBidsOrdered(p: seq<int>, pos: nat, price: int)
    requires BidsOrdered(p) && pos < |p|
    requires forall i :: 0 <= i < pos ==> price <= p[i]
    requires price > p[pos]
    ensures BidsOrdered(ShiftedDown(p, pos)[pos := price])
  {
    var r := ShiftedDown(p, pos)[pos := price];
    forall i, j | 0 <= i < j < |r| ensures r[i] >= r[j] {
      if j == pos {
      } else if i == pos {
        assert r[j] == p[j - 1] && p[j - 1] <= p[pos];
      } else if i < pos {
        assert r[i] == p[i];
      }
    }
  }

  /** Inserting an ask at its scan point keeps the ask ladder's shape; the
      scan can never stop inside the EmptyPrice tail past its first slot. */
  lemma InsertKeepsAsksShaped(p: seq<int>, q: seq<int>, k: nat, pos: nat, price: int, qty: int)
    requires AsksShapedAt(p, q, k) && pos < |p|
    requires forall i :: 0 <= i < pos ==> price >= p[i]
    requires price < p[pos]
    ensures AsksShapedAt(ShiftedDown(p, pos)[pos := price], ShiftedDown(q, pos)[pos := qty],
                         if k < |p| then k + 1 else k)
  {
    assert k < |p| ==> p[k] == EmptyPrice;
    var r := ShiftedDown(p, pos)[pos := price];
    var k' := if k < |p| then k + 1 else k;
    forall i, j | 0 <= i < j < k' ensures r[i] <= r[j] {
      if j == pos {
      } else if i == pos {
        assert r[j] == p[j - 1] && p[pos] <= p[j - 1];
      } else if i < pos {
        assert r[i] == p[i];
      }
    }
  }

  /** `add_limit` keeps the ladders ordered. */
  lemma AddLimitKeepsOrdered(b: BookState, o: Order)
    requires Wf(b) && Ordered(b) && o.quantity >= 0
    ensures Ordered(AddLimitSpec(b, o))
  {
    var k: nat :| AsksShapedAt(b.asksP, b.asksQ, k);
    if o.side == OrderSideBuy {
      var pos := InsertionPoint(b.bidsP, o.side, o.price);
      if pos < MaxLevels {
        InsertKeepsBidsOrdered(b.bidsP, pos, o.price);
      }
    } else {
      var pos := InsertionPoint(b.asksP, o.side, o.price);
      if pos < MaxLevels {
        InsertKeepsAsksShaped(b.asksP, b.asksQ, k, pos, o.price, o.quantity);
      }
    }
  }

  /** A rested buy lands behind every bid at its own price (they keep time
      priority) and ahead of every strictly lower bid. */
  lemma BuyLandsBehindEqualBids(b: BookState, o: Order)
    requires Wf(b) && Ordered(b) && o.quantity >= 0 && o.side == OrderSideBuy
    requires exists i :: 0 <= i < MaxLevels && b.bidsP[i] < o.price
    ensures var r := AddLimitSpec(b, o);
            var pos := DecodeSlot(r.idx[o.orderId]).level;
            && pos < MaxLevels && r.bidsP[pos] == o.price
            && (forall i :: 0 <= i < pos ==> r.bidsP[i] >= o.price)
            && (forall i :: pos < i < MaxLevels ==> r.bidsP[i] < o.price)
  {
    var pos := InsertionPoint(b.bidsP, o.side, o.price);
    var i0 :| 0 <= i0 < MaxLevels && b.bidsP[i0] < o.price;
    assert pos <= i0;
    var r := AddLimitSpec(b, o);
    forall i | pos < i < MaxLevels ensures r.bidsP[i] < o.price {
      assert r.bidsP[i] == b.bidsP[i - 1] <= b.bidsP[pos];
    }
  }

  // ---------------------------------------------------------------------
  // cancel

  /** `cancel(id)`: found exactly when the id is indexed; then its entry is
      removed and the quantity of the slot its code names is set to 0. No
      price moves and nothing is compacted. */
  ghost function CancelSpec(b: BookState, orderId: int): (r: (bool, BookState))
    requires Wf(b)
    ensures Wf(r.1)
    ensures r.0 <==> orderId in b.idx
    ensures r.1.bidsP == b.bidsP && r.1.asksP == b.asksP
    ensures !r.0 ==> r.1 == b
    ensures r.0 ==>
      && r.1.idx == b.idx - {orderId}
      && var s := DecodeSlot(b.idx[orderId]);
      && InRange(s) && SlotQty(r.1, s) == 0
      && (forall i :: 0 <= i < MaxLevels && BidSlot(i) != s ==> r.1.bidsQ[i] == b.bidsQ[i])
      && (forall i :: 0 <= i < MaxLevels && AskSlot(i) != s ==> r.1.asksQ[i] == b.asksQ[i])
  {
    if orderId in b.idx then
      var code := b.idx[orderId];
      var idx := b.idx - {orderId};
      if code > 0 then (true, b.(bidsQ := b.bidsQ[code - 1 := 0], idx := idx))
      else (true, b.(asksQ := b.asksQ[-code - 1 := 0], idx := idx))
    else
      (false, b)
  }

  /** `cancel` keeps the ladders ordered. */
  lemma CancelKeepsOrdered(b: BookState, orderId: int)
    requires Wf(b) && Ordered(b)
    ensures Ordered(CancelSpec(b, orderId).1)
  {
    var k: nat :| AsksShapedAt(b.asksP, b.asksQ, k);
    assert AsksShapedAt(CancelSpec(b, orderId).1.asksP, CancelSpec(b, orderId).1.asksQ, k);
  }

  // ---------------------------------------------------------------------
  // match_incoming

  /** Whether a taker of `side` with limit `limit` trades at `best`:
      a buy stops when its price is below the best ask, a sell when it is
      above the best bid. */
  ghost predicate Crosses(side: int, limit: int, best: int) {
    if side == OrderSideBuy then limit >= best else limit <= best
  }

  /** Result of sweeping the opposite ladder: that ladder afterwards, the
      taker with its remaining quantity, and the trades appended. */
  datatype Swept = Swept(prices: seq<int>, qtys: seq<int>, taker: Order, fills: seq<Trade>)

  /** The loop of `match_incoming` against one ladder: while the taker has
      quantity, the top slot is non-empty and its price crosses, trade
      min(remaining, top quantity) at the top price with maker id -1, and
      shift the ladder up when the top empties. */
  ghost function Sweep(prices: seq<int>, qtys: seq<int>, o: Order): (r: Swept)
    requires |prices| == |qtys| > 0 && NonNegative(qtys)
    ensures |r.prices| == |prices| && |r.qtys| == |prices| && NonNegative(r.qtys)
    ensures r.taker == o.(quantity := r.taker.quantity)
    ensures o.quantity >= 0 ==> 0 <= r.taker.quantity <= o.quantity
    ensures o.quantity > 0 ==> r.taker.IsFilled() || r.qtys[0] == 0 || !Crosses(o.side, o.price, r.prices[0])
    ensures o.quantity <= 0 || qtys[0] == 0 || !Crosses(o.side, o.price, prices[0]) ==> r == Swept(prices, qtys, o, [])
    decreases o.quantity
  {
    if o.quantity <= 0 || qtys[0] == 0 || !Crosses(o.side, o.price, prices[0]) then
      Swept(prices, qtys, o, [])
    else
      var traded := Min(o.quantity, qtys[0]);
      var fill := Trade(-1, o.orderId, prices[0], traded, o.timestamp);
      var left := qtys[0 := qtys[0] - traded];
      var taker := o.(quantity := o.quantity - traded);
      var rest := if left[0] == 0 then Sweep(ShiftedUp(prices, EmptyPrice), ShiftedUp(left, 0), taker)
                  else Sweep(prices, left, taker);
      rest.(fills := [fill] + rest.fills)
  }

  /** One round of the loop: when the taker has quantity and the top slot is
      non-empty and crosses, the sweep is one trade at the top price followed
      by the sweep of the updated ladder. */
  lemma SweepStep(prices: seq<int>, qtys: seq<int>, o: Order)
    requires |prices| == |qtys| > 0 && NonNegative(qtys)
    requires o.quantity > 0 && qtys[0] != 0 && Crosses(o.side, o.price, prices[0])
    ensures var traded := Min(o.quantity, qtys[0]);
            var left := qtys[0 := qtys[0] - traded];
            var taker := o.(quantity := o.quantity - traded);
            && NonNegative(left)
            && (left[0] == 0 ==> NonNegative(ShiftedUp(left, 0)))
            && Sweep(prices, qtys, o)
               == Prepend([Trade(-1, o.orderId, prices[0], traded, o.timestamp)],
                          if left[0] == 0 then Sweep(ShiftedUp(prices, EmptyPrice), ShiftedUp(left, 0), taker)
                          else Sweep(prices, left, taker))
  {
  }

  /** Total quantity of a tape with one trade in front. */
  lemma TotalQuantityCons(t: Trade, fills: seq<Trade>)
    ensures TotalQuantity([t] + fills) == t.quantity + TotalQuantity(fills)
  {
    assert ([t] + fills)[1..] == fills;
  }

  /** Sum of the traded quantities of a tape. */
  ghost function TotalQuantity(fills: seq<Trade>): int {
    if fills == [] then 0 else fills[0].quantity + TotalQuantity(fills[1..])
  }

  /** Every trade a sweep appends names maker -1 and the taker's id and
      timestamp, has a positive quantity, and its price satisfies the
      taker's limit (at or below a buy's price, at or above a sell's). */
  lemma {:induction false} SweepTradeRecords(prices: seq<int>, qtys: seq<int>, o: Order)
    requires |prices| == |qtys| > 0 && NonNegative(qtys)
    ensures forall t :: t in Sweep(prices, qtys, o).fills ==>
      && t.makerOrderId == -1 && t.takerOrderId == o.orderId && t.timestamp == o.timestamp
      && 0 < t.quantity && Crosses(o.side, o.price, t.price)
    decreases o.quantity
  {
    if o.quantity > 0 && qtys[0] != 0 && Crosses(o.side, o.price, prices[0]) {
      var traded := Min(o.quantity, qtys[0]);
      var left := qtys[0 := qtys[0] - traded];
      var taker := o.(quantity := o.quantity - traded);
      var fill := Trade(-1, o.orderId, prices[0], traded, o.timestamp);
      assert NonNegative(left);
      if left[0] == 0 {
        var p', q' := ShiftedUp(prices, EmptyPrice), ShiftedUp(left, 0);
        ShiftUpKeepsNonNegative(left);
        SweepTradeRecords(p', q', taker);
        SweepStepAfter(prices, qtys, o, p', q', fill, taker);
        assert Sweep(prices, qtys, o).fills == [fill] + Sweep(p', q', taker).fills;
      } else {
        SweepTradeRecords(prices, left, taker);
        SweepStepAfter(prices, qtys, o, prices, left, fill, taker);
        assert Sweep(prices, qtys, o).fills == [fill] + Sweep(prices, left, taker).fills;
      }
    }
  }

  /** The traded quantities add up to the decrease of the taker's quantity. */
  lemma {:induction false} SweepConservesQuantity(prices: seq<int>, qtys: seq<int>, o: Order)
    requires |prices| == |qtys| > 0 && NonNegative(qtys)
    ensures var r := Sweep(prices, qtys, o); TotalQuantity(r.fills) == o.quantity - r.taker.quantity
    decreases o.quantity
  {
    if o.quantity > 0 && qtys[0] != 0 && Crosses(o.side, o.price, prices[0]) {
      var traded := Min(o.quantity, qtys[0]);
      var left := qtys[0 := qtys[0] - traded];
      var taker := o.(quantity := o.quantity - traded);
      var fill := Trade(-1, o.orderId, prices[0], traded, o.timestamp);
      assert NonNegative(left);
      if left[0] == 0 {
        var p', q' := ShiftedUp(prices, EmptyPrice), ShiftedUp(left, 0);
        ShiftUpKeepsNonNegative(left);
        SweepConservesQuantity(p', q', taker);
        TotalQuantityCons(fill, Sweep(p', q', taker).fills);
        SweepStepAfter(prices, qtys, o, p', q', fill, taker);
      } else {
        SweepConservesQuantity(prices, left, taker);
        TotalQuantityCons(fill, Sweep(prices, left, taker).fills);
        SweepStepAfter(prices, qtys, o, prices, left, fill, taker);
      }
    }
  }

  /** Shift-up keeps the bid ladder ordered: the freed last slot gets the
      empty price, which no bid is below. */
  lemma ShiftUpKeepsBidsOrdered(p: seq<int>)
    requires BidsOrdered(p) && |p| > 0
    ensures BidsOrdered(ShiftedUp(p, EmptyPrice))
  {
    var p' := ShiftedUp(p, EmptyPrice);
    forall i, j | 0 <= i < j < |p'| ensures p'[i] >= p'[j] {
      if j < |p'| - 1 {
        assert p'[i] == p[i + 1] && p'[j] == p[j + 1];
      }
    }
  }

  /** Sweeping a bid ladder keeps it ordered, and the trades come out best
      price first: none above the old top price, never rising. */
  lemma {:induction false} SweepBids(prices: seq<int>, qtys: seq<int>, o: Order)
    requires |prices| == |qtys| > 0 && NonNegative(qtys) && BidsOrdered(prices)
    ensures var r := Sweep(prices, qtys, o);
            && BidsOrdered(r.prices)
            && (forall t :: t in r.fills ==> t.price <= prices[0])
            && (forall i, j :: 0 <= i < j < |r.fills| ==> r.fills[i].price >= r.fills[j].price)
    decreases o.quantity
  {
    if o.quantity > 0 && qtys[0] != 0 && Crosses(o.side, o.price, prices[0]) {
      var traded := Min(o.quantity, qtys[0]);
      var left := qtys[0 := qtys[0] - traded];
      var taker := o.(quantity := o.quantity - traded);
      assert NonNegative(left);
      var fill := Trade(-1, o.orderId, prices[0], traded, o.timestamp);
      if left[0] == 0 {
        var p', q' := ShiftedUp(prices, EmptyPrice), ShiftedUp(left, 0);
        ShiftUpKeepsNonNegative(left);
        ShiftUpKeepsBidsOrdered(prices);
        SweepBids(p', q', taker);
        assert p'[0] <= prices[0] by {
          if |prices| > 1 { assert p'[0] == prices[1]; }
        }
        var rest := Sweep(p', q', taker);
        DescendingCons(fill, rest);
        SweepStepAfter(prices, qtys, o, p', q', fill, taker);
      } else {
        var rest := Sweep(prices, left, taker);
        SweepBids(prices, left, taker);
        DescendingCons(fill, rest);
        SweepStepAfter(prices, qtys, o, prices, left, fill, taker);
      }
    } else {
      assert Sweep(prices, qtys, o).fills == [];
    }
  }

  /** A trade priced at or above every later one, in front of a descending
      tape, gives a descending tape. */
  lemma DescendingCons(fill: Trade, rest: Swept)
    requires forall t :: t in rest.fills ==> t.price <= fill.price
    requires forall i, j :: 0 <= i < j < |rest.fills| ==> rest.fills[i].price >= rest.fills[j].price
    ensures var f := Prepend([fill], rest).fills;
            && (forall t :: t in f ==> t.price <= fill.price)
            && (forall i, j :: 0 <= i < j < |f| ==> f[i].price >= f[j].price)
  {
    var f := Prepend([fill], rest).fills;
    assert f == [fill] + rest.fills;
    assert forall t :: t in f ==> t == fill || t in rest.fills;
    forall i, j | 0 <= i < j < |f|
      ensures f[i].price >= f[j].price
    {
      assert f[j] == rest.fills[j - 1];
      if i > 0 {
        assert f[i] == rest.fills[i - 1];
      }
    }
  }

  /** Shift-up keeps quantities non-negative: the freed slot gets 0. */
  lemma ShiftUpKeepsNonNegative(q: seq<int>)
    requires |q| > 0 && NonNegative(q)
    ensures NonNegative(ShiftedUp(q, 0))
  {
    var q' := ShiftedUp(q, 0);
    forall i | 0 <= i < |q'| ensures q'[i] >= 0 {
      if i < |q'| - 1 { assert q'[i] == q[i + 1]; }
    }
  }

  /** Shift-up of a shaped ask ladder: the run loses its first slot and the
      tail gains the freed (EmptyPrice, 0) slot. */
  lemma ShiftUpKeepsAsksShaped(p: seq<int>, q: seq<int>, k: nat)
    requires AsksShapedAt(p, q, k) && |p| > 0
    ensures AsksShapedAt(ShiftedUp(p, EmptyPrice), ShiftedUp(q, 0), if k == 0 then 0 else k - 1)
  {
    var p' := ShiftedUp(p, EmptyPrice);
    var k' := if k == 0 then 0 else k - 1;
    forall i, j | 0 <= i < j < k' ensures p'[i] <= p'[j] {
      assert p'[i] == p[i + 1] && p'[j] == p[j + 1];
    }
  }

  /** Sweeping an ask ladder keeps its shape. */
  lemma {:induction false} SweepKeepsAsksShaped(prices: seq<int>, qtys: seq<int>, o: Order, k: nat)
    requires |prices| == |qtys| > 0 && NonNegative(qtys) && AsksShapedAt(prices, qtys, k)
    ensures var r := Sweep(prices, qtys, o); AsksShaped(r.prices, r.qtys)
    decreases o.quantity
  {
    if o.quantity > 0 && qtys[0] != 0 && Crosses(o.side, o.price, prices[0]) {
      SweepStep(prices, qtys, o);
      var traded := Min(o.quantity, qtys[0]);
      var left := qtys[0 := qtys[0] - traded];
      var taker := o.(quantity := o.quantity - traded);
      assert AsksShapedAt(prices, left, k);
      if left[0] == 0 {
        ShiftUpKeepsAsksShaped(prices, left, k);
        SweepKeepsAsksShaped(ShiftedUp(prices, EmptyPrice), ShiftedUp(left, 0), taker, k - 1);
      } else {
        SweepKeepsAsksShaped(prices, left, taker, k);
      }
    } else {
      assert AsksShapedAt(prices, qtys, k);
    }
  }

  /** Sweeping a shaped ask ladder yields its trades best price first: none
      below the old top price, never falling. */
  lemma {:induction false} SweepAsksBestFirst(prices: seq<int>, qtys: seq<int>, o: Order, k: nat)
    requires |prices| == |qtys| > 0 && NonNegative(qtys) && AsksShapedAt(prices, qtys, k)
    ensures var f := Sweep(prices, qtys, o).fills;
            && (forall t :: t in f ==> t.price >= prices[0])
            && (forall i, j :: 0 <= i < j < |f| ==> f[i].price <= f[j].price)
    decreases o.quantity, 0
  {
    if o.quantity > 0 && qtys[0] != 0 && Crosses(o.side, o.price, prices[0]) {
      var traded := Min(o.quantity, qtys[0]);
      var left := qtys[0 := qtys[0] - traded];
      var taker := o.(quantity := o.quantity - traded);
      assert NonNegative(left) && AsksShapedAt(prices, left, k);
      var fill := Trade(-1, o.orderId, prices[0], traded, o.timestamp);
      if left[0] == 0 {
        var p', q' := ShiftedUp(prices, EmptyPrice), ShiftedUp(left, 0);
        var rest := Sweep(p', q', taker);
        SweepAsksAfterShift(prices, left, taker, k);
        var f := rest.fills;
        assert f == Sweep(ShiftedUp(prices, EmptyPrice), ShiftedUp(left, 0), taker).fills;
        assert forall t :: t in f ==> t.price >= fill.price;
        forall i, j | 0 <= i < j < |f|
          ensures f[i].price <= f[j].price
        {
        }
        AscendingCons(fill, rest);
        SweepStepAfter(prices, qtys, o, p', q', fill, taker);
      } else {
        var rest := Sweep(prices, left, taker);
        SweepAsksBestFirst(prices, left, taker, k);
        AscendingCons(fill, rest);
        SweepStepAfter(prices, qtys, o, prices, left, fill, taker);
      }
    } else {
      assert Sweep(prices, qtys, o).fills == [];
    }
  }

  /** The rest of an ask sweep after the top slot emptied: its trades are
      ascending and none is below the emptied top price. */
  lemma {:induction false} SweepAsksAfterShift(prices: seq<int>, left: seq<int>, taker: Order, k: nat)
    requires |prices| == |left| > 0 && NonNegative(left) && AsksShapedAt(prices, left, k)
    requires left[0] == 0
    ensures NonNegative(ShiftedUp(left, 0))
    ensures var f := Sweep(ShiftedUp(prices, EmptyPrice), ShiftedUp(left, 0), taker).fills;
            && (forall t :: t in f ==> t.price >= prices[0])
            && (forall i, j :: 0 <= i < j < |f| ==> f[i].price <= f[j].price)
    decreases taker.quantity, 1
  {
    var p', q' := ShiftedUp(prices, EmptyPrice), ShiftedUp(left, 0);
    ShiftUpKeepsNonNegative(left);
    var k' := if k == 0 then 0 else k - 1;
    ShiftUpKeepsAsksShaped(prices, left, k);
    SweepAsksBestFirst(p', q', taker, k');
    if k > 1 {
      assert p'[0] == prices[1] >= prices[0];
    } else {
      assert q'[0] == 0;
    }
  }

  /** A trade priced at or below every later one, in front of an ascending
      tape, gives an ascending tape. */
  lemma AscendingCons(fill: Trade, rest: Swept)
    requires forall t :: t in rest.fills ==> t.price >= fill.price
    requires forall i, j :: 0 <= i < j < |rest.fills| ==> rest.fills[i].price <= rest.fills[j].price
    ensures var f := Prepend([fill], rest).fills;
            && (forall t :: t in f ==> t.price >= fill.price)
            && (forall i, j :: 0 <= i < j < |f| ==> f[i].price <= f[j].price)
  {
    var f := Prepend([fill], rest).fills;
    assert f == [fill] + rest.fills;
    assert forall t :: t in f ==> t == fill || t in rest.fills;
    forall i, j | 0 <= i < j < |f|
      ensures f[i].price <= f[j].price
    {
      assert f[j] == rest.fills[j - 1];
      if i > 0 {
        assert f[i] == rest.fills[i - 1];
      }
    }
  }

  /** Result of `match_incoming`: the book, the taker afterwards, the trades appended. */
  datatype Matched = Matched(book: BookState, taker: Order, fills: seq<Trade>)

  /** `match_incoming`: a buy sweeps the asks, anything else sweeps the bids.
      The taker's own side and the index are untouched. */
  ghost function MatchSpec(b: BookState, o: Order): (r: Matched)
    requires Wf(b)
    ensures Wf(r.book)
    ensures r.book.idx == b.idx
    ensures OwnPrices(r.book, o.side) == OwnPrices(b, o.side) && OwnQtys(r.book, o.side) == OwnQtys(b, o.side)
    ensures r.taker == o.(quantity := r.taker.quantity)
  {
    if o.side == OrderSideBuy then
      var s := Sweep(b.asksP, b.asksQ, o);
      Matched(b.(asksP := s.prices, asksQ := s.qtys), s.taker, s.fills)
    else
      var s := Sweep(b.bidsP, b.bidsQ, o);
      Matched(b.(bidsP := s.prices, bidsQ := s.qtys), s.taker, s.fills)
  }

  /** Matching keeps the ladders ordered. */
  lemma MatchKeepsOrdered(b: BookState, o: Order)
    requires Wf(b) && Ordered(b)
    ensures Ordered(MatchSpec(b, o).book)
  {
    var k: nat :| AsksShapedAt(b.asksP, b.asksQ, k);
    if o.side == OrderSideBuy {
      SweepKeepsAsksShaped(b.asksP, b.asksQ, o, k);
    } else {
      SweepBids(b.bidsP, b.bidsQ, o);
    }
  }

  /** Every trade of a match satisfies the taker's limit, carries maker -1
      and the taker's id and timestamp, and the trades add up to the
      quantity the taker lost. */
  lemma MatchTrades(b: BookState, o: Order)
    requires Wf(b)
    ensures var r := MatchSpec(b, o);
            && TotalQuantity(r.fills) == o.quantity - r.taker.quantity
            && forall t :: t in r.fills ==>
                 && t.makerOrderId == -1 && t.takerOrderId == o.orderId && t.timestamp == o.timestamp
                 && 0 < t.quantity
                 && (o.side == OrderSideBuy ==> t.price <= o.price)
                 && (o.side != OrderSideBuy ==> t.price >= o.price)
  {
    if o.side == OrderSideBuy {
      SweepTradeRecords(b.asksP, b.asksQ, o);
      SweepConservesQuantity(b.asksP, b.asksQ, o);
    } else {
      SweepTradeRecords(b.bidsP, b.bidsQ, o);
      SweepConservesQuantity(b.bidsP, b.bidsQ, o);
    }
  }

  /** A cancelled top ask is not compacted: the next buy stops at the zeroed
      slot and trades nothing, whatever quantity rests behind it. */
  lemma CancelledTopAskBlocksBuys(b: BookState, orderId: int, o: Order)
    requires Wf(b) && orderId in b.idx && b.idx[orderId] == -1 && o.side == OrderSideBuy
    ensures var c := CancelSpec(b, orderId).1;
            MatchSpec(c, o) == Matched(c, o, [])
  {
    var c := CancelSpec(b, orderId).1;
    assert c.asksQ[0] == 0;
  }

  // ---------------------------------------------------------------------
  // process_market

  /** The sentinel price a market order is given before matching. */
  ghost function MarketPrice(side: int): int {
    if side == OrderSideBuy then InfPrice else -InfPrice
  }

  /** `process_market`: reprice to the sentinel and match; the remainder is
      never rested, so the taker's own side and the index are unchanged. */
  ghost function ProcessMarketSpec(b: BookState, o: Order): (r: Matched)
    requires Wf(b)
    ensures Wf(r.book)
    ensures r.taker.price == MarketPrice(o.side)
    ensures r.book.idx == b.idx
    ensures OwnPrices(r.book, o.side) == OwnPrices(b, o.side) && OwnQtys(r.book, o.side) == OwnQtys(b, o.side)
  {
    MatchSpec(b, o.(price := MarketPrice(o.side)))
  }

  // ---------------------------------------------------------------------
  // The in-place implementation

  /** `_shift_down`: move slots start..MaxLevels-2 one place deeper. */
  method ShiftDown(prices: array<int>, qtys: array<int>, start: nat)
    requires prices.Length == MaxLevels && qtys.Length == MaxLevels && prices != qtys
    requires start < MaxLevels
    modifies prices, qtys
    ensures prices[..] == ShiftedDown(old(prices[..]), start)
    ensures qtys[..] == ShiftedDown(old(qtys[..]), start)
  {
    var j := MaxLevels - 1;
    while j > start
      invariant start <= j <= MaxLevels - 1
      invariant forall i :: 0 <= i <= j ==> prices[i] == old(prices[i]) && qtys[i] == old(qtys[i])
      invariant forall i :: j < i < MaxLevels ==> prices[i] == old(prices[i - 1]) && qtys[i] == old(qtys[i - 1])
    {
      prices[j] := prices[j - 1];
      qtys[j] := qtys[j - 1];
      j := j - 1;
    }
    assert prices[..] == ShiftedDown(old(prices[..]), start);
    assert qtys[..] == ShiftedDown(old(qtys[..]), start);
  }

  /** `_shift_up`: drop slot 0, move every slot one place up, and reset the
      last slot to (EmptyPrice, 0) on either side. */
  method ShiftUp(prices: array<int>, qtys: array<int>)
    requires prices.Length == MaxLevels && qtys.Length == MaxLevels && prices != qtys
    modifies prices, qtys
    ensures prices[..] == ShiftedUp(old(prices[..]), EmptyPrice)
    ensures qtys[..] == ShiftedUp(old(qtys[..]), 0)
  {
    for i := 0 to MaxLevels - 1
      invariant forall k :: 0 <= k < i ==> prices[k] == old(prices[k + 1]) && qtys[k] == old(qtys[k + 1])
      invariant forall k :: i <= k < MaxLevels ==> prices[k] == old(prices[k]) && qtys[k] == old(qtys[k])
    {
      prices[i] := prices[i + 1];
      qtys[i] := qtys[i + 1];
    }
    prices[MaxLevels - 1] := EmptyPrice;
    qtys[MaxLevels - 1] := 0;
    assert prices[..] == ShiftedUp(old(prices[..]), EmptyPrice);
    assert qtys[..] == ShiftedUp(old(qtys[..]), 0);
  }

  /** `_best_bid`: the top bid slot. On an ordered bid ladder its price is
      the highest on the ladder. */
  function BestBid(prices: array<int>, qtys: array<int>): (best: (int, int))
    reads prices, qtys
    requires prices.Length > 0 && qtys.Length > 0
    ensures best == (prices[0], qtys[0])
    ensures BidsOrdered(prices[..]) ==> forall i :: 0 <= i < prices.Length ==> prices[i] <= best.0
  {
    (prices[0], qtys[0])
  }

  /** `_best_ask`: the top ask slot. On a shaped ask ladder its price is the
      lowest of every slot holding quantity. */
  function BestAsk(prices: array<int>, qtys: array<int>): (best: (int, int))
    reads prices, qtys
    requires prices.Length > 0 && qtys.Length == prices.Length
    ensures best == (prices[0], qtys[0])
    ensures AsksShaped(prices[..], qtys[..]) ==>
      forall i :: 0 <= i < prices.Length && qtys[i] > 0 ==> best.0 <= prices[i]
  {
    AsksShapedBestOrVacuous(prices[..], qtys[..]);
    (prices[0], qtys[0])
  }

  /** The loop of `match_incoming` on the opposite ladder's arrays: trade
      against slot 0 until the taker is filled, slot 0 is empty or its price
      no longer crosses; shift the ladder up whenever slot 0 empties. */
  method SweepInPlace(prices: array<int>, qtys: array<int>, o: Order) returns (taker: Order, fills: seq<Trade>)
    requires prices.Length == MaxLevels && qtys.Length == MaxLevels && prices != qtys
    requires NonNegative(qtys[..])
    modifies prices, qtys
    ensures Swept(prices[..], qtys[..], taker, fills) == Sweep(old(prices[..]), old(qtys[..]), o)
  {
    taker, fills := o, [];
    while taker.quantity > 0
      invariant NonNegative(qtys[..])
      invariant taker == o.(quantity := taker.quantity)
      invariant Sweep(old(prices[..]), old(qtys[..]), o) == Prepend(fills, Sweep(prices[..], qtys[..], taker))
      decreases taker.quantity
    {
      var (bestPrice, bestQty) := if taker.side == OrderSideBuy then BestAsk(prices, qtys) else BestBid(prices, qtys);
      if bestQty == 0 || (if taker.side == OrderSideBuy then taker.price < bestPrice else taker.price > bestPrice) {
        break;
      }
      ghost var f0 := fills;
      var fill;
      taker, fill := TradeAtTop(prices, qtys, taker);
      fills := fills + [fill];
      PrependTwice(f0, fill, Sweep(prices[..], qtys[..], taker));
    }
    ghost var last := Sweep(prices[..], qtys[..], taker);
    assert last == Swept(prices[..], qtys[..], taker, []);
    assert fills + [] == fills;
  }

  /** Trades appended in two steps are appended in one. */
  lemma PrependTwice(fills: seq<Trade>, fill: Trade, s: Swept)
    ensures Prepend(fills, Prepend([fill], s)) == Prepend(fills + [fill], s)
  {
    assert fills + ([fill] + s.fills) == (fills + [fill]) + s.fills;
  }

  /** One round of the `match_incoming` loop once slot 0 is known to be
      non-empty and crossing: trade min(remaining, top quantity) at the top
      price, take it off slot 0 and the taker, and shift the ladder up if
      slot 0 empties. */
  method TradeAtTop(prices: array<int>, qtys: array<int>, taker: Order) returns (next: Order, fill: Trade)
    requires prices.Length == MaxLevels && qtys.Length == MaxLevels && prices != qtys
    requires NonNegative(qtys[..])
    requires taker.quantity > 0 && qtys[0] != 0 && Crosses(taker.side, taker.price, prices[0])
    modifies prices, qtys
    ensures NonNegative(qtys[..])
    ensures next == taker.(quantity := next.quantity) && 0 <= next.quantity < taker.quantity
    ensures Sweep(old(prices[..]), old(qtys[..]), taker) == Prepend([fill], Sweep(prices[..], qtys[..], next))
  {
    ghost var p0, q0 := prices[..], qtys[..];
    var traded := Min(taker.quantity, qtys[0]);
    fill := Trade(-1, taker.orderId, prices[0], traded, taker.timestamp);
    next := taker.(quantity := taker.quantity - traded);
    qtys[0] := qtys[0] - traded;
    ghost var left := q0[0 := q0[0] - traded];
    assert qtys[..] == left;
    if qtys[0] == 0 {
      ShiftUp(prices, qtys);
    }
    SweepStepAfter(p0, q0, taker, prices[..], qtys[..], fill, next);
  }

  /** The ladder TradeAtTop leaves is the one the next round of Sweep works
      on: the top slot loses the traded quantity and, if that empties it,
      the ladder shifts up. */
  lemma SweepStepAfter(p0: seq<int>, q0: seq<int>, taker: Order, p1: seq<int>, q1: seq<int>, fill: Trade, next: Order)
    requires |p0| == |q0| > 0 && NonNegative(q0)
    requires taker.quantity > 0 && q0[0] != 0 && Crosses(taker.side, taker.price, p0[0])
    requires var left := q0[0 := q0[0] - Min(taker.quantity, q0[0])];
             if left[0] == 0 then p1 == ShiftedUp(p0, EmptyPrice) && q1 == ShiftedUp(left, 0)
             else p1 == p0 && q1 == left
    requires fill == Trade(-1, taker.orderId, p0[0], Min(taker.quantity, q0[0]), taker.timestamp)
    requires next == taker.(quantity := taker.quantity - Min(taker.quantity, q0[0]))
    ensures |p1| == |q1| == |p0| && NonNegative(q1)
    ensures Sweep(p0, q0, taker) == Prepend([fill], Sweep(p1, q1, next))
  {
    SweepStep(p0, q0, taker);
  }

  /** The ladder half of `add_limit` on the order's own ladder: scan past
      every level the order passes; if the scan reaches MaxLevels leave the
      ladder alone, otherwise shift the tail down and write the level at the
      stop slot. Returns the stop slot. */
  method InsertLevel(prices: array<int>, qtys: array<int>, side: int, price: int, qty: int) returns (pos: nat)
    requires prices.Length == MaxLevels && qtys.Length == MaxLevels && prices != qtys
    modifies prices, qtys
    ensures pos == InsertionPoint(old(prices[..]), side, price)
    ensures pos >= MaxLevels ==> prices[..] == old(prices[..]) && qtys[..] == old(qtys[..])
    ensures pos < MaxLevels ==>
      && prices[..] == ShiftedDown(old(prices[..]), pos)[pos := price]
      && qtys[..] == ShiftedDown(old(qtys[..]), pos)[pos := qty]
  {
    pos := 0;
    while pos < MaxLevels && (if side == OrderSideBuy then price <= prices[pos] else price >= prices[pos])
      invariant 0 <= pos <= MaxLevels
      invariant forall i :: 0 <= i < pos ==> PassesLevel(side, price, prices[i])
    {
      pos := pos + 1;
    }
    InsertionPointUnique(prices[..], side, price, pos);
    if pos >= MaxLevels {
      return;
    }
    ShiftDown(prices, qtys, pos);
    prices[pos] := price;
    qtys[pos] := qty;
  }

  /** The book: bid and ask ladders as parallel arrays, and the index from
      order id to signed slot code. */
  class Book {
    const bidsP: array<int>
    const bidsQ: array<int>
    const asksP: array<int>
    const asksQ: array<int>
    var idxMap: map<int, int>

    ghost function State(): BookState
      reads this, bidsP, bidsQ, asksP, asksQ
    {
      BookState(bidsP[..], bidsQ[..], asksP[..], asksQ[..], idxMap)
    }

    ghost predicate Valid()
      reads this, bidsP, bidsQ, asksP, asksQ
    {
      && bidsP != bidsQ && bidsP != asksP && bidsP != asksQ
      && bidsQ != asksP && bidsQ != asksQ && asksP != asksQ
      && Wf(State()) && Ordered(State())
    }

    /** `init_book`: four ladders of MaxLevels slots, every bid at
        EmptyPrice, every ask at InfPrice, every quantity 0, empty index. */
    constructor ()
      ensures Valid() && State() == InitState()
      ensures fresh(bidsP) && fresh(bidsQ) && fresh(asksP) && fresh(asksQ)
      ensures bidsP.Length == MaxLevels && asksP.Length == MaxLevels
      ensures forall i :: 0 <= i < MaxLevels ==>
        bidsP[i] == EmptyPrice && bidsQ[i] == 0 && asksP[i] == InfPrice && asksQ[i] == 0
      ensures idxMap == map[]
    {
      bidsP := new int[MaxLevels](_ => EmptyPrice);
      bidsQ := new int[MaxLevels](_ => 0);
      asksP := new int[MaxLevels](_ => InfPrice);
      asksQ := new int[MaxLevels](_ => 0);
      idxMap := map[];
      new;
      assert State() == InitState();
      InitStateOrdered();
    }

    /** `add_limit`: scan for the insertion slot, drop the order when the
        scan reaches MaxLevels, otherwise shift the tail down, write the
        level and record the signed slot code. */
    method AddLimit(o: Order)
      requires Valid() && o.quantity >= 0
      modifies this, bidsP, bidsQ, asksP, asksQ
      ensures Valid()
      ensures State() == AddLimitSpec(old(State()), o)
    {
      AddLimitKeepsOrdered(State(), o);
      if o.side == OrderSideBuy {
        var pos := InsertLevel(bidsP, bidsQ, o.side, o.price, o.quantity);
        if pos >= MaxLevels {
          return;
        }
        idxMap := idxMap[o.orderId := pos + 1];
      } else {
        var pos := InsertLevel(asksP, asksQ, o.side, o.price, o.quantity);
        if pos >= MaxLevels {
          return;
        }
        idxMap := idxMap[o.orderId := -(pos + 1)];
      }
    }

    /** `cancel`: pop the id's entry and zero the quantity of the slot its
        code names; report whether the id was indexed. */
    method Cancel(orderId: int) returns (found: bool)
      requires Valid()
      modifies this, bidsQ, asksQ
      ensures Valid()
      ensures (found, State()) == CancelSpec(old(State()), orderId)
    {
      CancelKeepsOrdered(State(), orderId);
      if orderId in idxMap {
        var idx := idxMap[orderId];
        idxMap := idxMap - {orderId};
        if idx > 0 {
          bidsQ[idx - 1] := 0;
        } else {
          asksQ[-idx - 1] := 0;
        }
        return true;
      }
      return false;
    }

    /** `match_incoming`: a buy trades against the asks, anything else
        against the bids. Returns the taker with its remaining quantity and
        the trades appended, in order. */
    method MatchIncoming(o: Order) returns (taker: Order, fills: seq<Trade>)
      requires Valid()
      modifies bidsP, bidsQ, asksP, asksQ
      ensures Valid()
      ensures Matched(State(), taker, fills) == MatchSpec(old(State()), o)
    {
      MatchKeepsOrdered(State(), o);
      if o.side == OrderSideBuy {
        taker, fills := SweepInPlace(asksP, asksQ, o);
      } else {
        taker, fills := SweepInPlace(bidsP, bidsQ, o);
      }
    }

    /** `process_market`: reprice the order to the crossing sentinel for its
        side and match it; the remainder is not rested. */
    method ProcessMarket(o: Order) returns (taker: Order, fills: seq<Trade>)
      requires Valid()
      modifies bidsP, bidsQ, asksP, asksQ
      ensures Valid()
      ensures Matched(State(), taker, fills) == ProcessMarketSpec(old(State()), o)
    {
      var repriced := o.(price := if o.side == OrderSideBuy then InfPrice else -InfPrice);
      taker, fills := MatchIncoming(repriced);
    }
  }

  /** Trades already appended, followed by the rest of a sweep. */
  ghost function Prepend(fills: seq<Trade>, s: Swept): Swept {
    s.(fills := fills + s.fills)
  }

  /** The insertion scan's stopping slot is the one InsertionPoint names. */
  lemma InsertionPointUnique(prices: seq<int>, side: int, price: int, pos: int)
    requires 0 <= pos <= |prices|
    requires forall i :: 0 <= i < pos ==> PassesLevel(side, price, prices[i])
    requires pos < |prices| ==> !PassesLevel(side, price, prices[pos])
    ensures pos == InsertionPoint(prices, side, price)
  {
  }
}
