// The event-driven driver: preload every (timestamp, event) pair into the
// event queue, then advance a clock from 0 in steps of 1, draining the
// events due at each step into the order book, until the queue is empty.
// `Replay` is the specification of the driver: the book and trade tape
// obtained by handling a sequence of events one after another.

module Simulator {
  import opened Datatypes
  import opened OrderBook
  import EQ = EventQueue

  /** An event in the stream. Only orders are handled; any other event (a
      cancel request, say) is drained from the queue and ignored. */
  datatype Event = OrderEvent(order: Order) | CancelEvent(cancel: Cancel)

  /** Handling one event: the book afterwards and the trades appended. A
      market order (price 0) goes to `process_market`; any other order is
      matched and its remainder, if any, goes to `add_limit`. */
  ghost function DispatchSpec(b: BookState, ev: Event): (r: (BookState, seq<Trade>))
    requires Wf(b)
    ensures Wf(r.0)
  {
    match ev
    case CancelEvent(_) => (b, [])
    case OrderEvent(o) =>
      if o.price == 0 then
        var m := ProcessMarketSpec(b, o);
        (m.book, m.fills)
      else
        var m := MatchSpec(b, o);
        if m.taker.quantity > 0 then (AddLimitSpec(m.book, m.taker), m.fills)
        else (m.book, m.fills)
  }

  /** A market order is matched at its sentinel price and never rests: the
      index and the order's own ladder are unchanged. Any other event leaves
      the book alone and trades nothing. */
  lemma MarketNeverRests(b: BookState, ev: Event)
    requires Wf(b)
    ensures var r := DispatchSpec(b, ev);
            && (ev.CancelEvent? ==> r == (b, []))
            && (ev.OrderEvent? && ev.order.price == 0 ==>
                  && r.0.idx == b.idx
                  && OwnPrices(r.0, ev.order.side) == OwnPrices(b, ev.order.side)
                  && OwnQtys(r.0, ev.order.side) == OwnQtys(b, ev.order.side))
  {
  }

  /** A limit order is matched first and only its remainder can rest: when
      matching fills it completely the book is the matched book, and otherwise
      the book is the matched book with the remainder added. The trades are
      those of the match in either case. */
  lemma LimitRestsOnlyRemainder(b: BookState, o: Order)
    requires Wf(b) && o.price != 0
    ensures var m := MatchSpec(b, o);
            var r := DispatchSpec(b, OrderEvent(o));
            && r.1 == m.fills
            && (m.taker.quantity <= 0 ==> r.0 == m.book)
            && (m.taker.quantity > 0 ==> r.0 == AddLimitSpec(m.book, m.taker))
  {
  }

  /** Handling an event keeps both ladders ordered. */
  lemma DispatchKeepsOrdered(b: BookState, ev: Event)
    requires Wf(b) && Ordered(b)
    ensures Ordered(DispatchSpec(b, ev).0)
  {
    if ev.OrderEvent? {
      var o := ev.order;
      if o.price == 0 {
        MatchKeepsOrdered(b, o.(price := MarketPrice(o.side)));
      } else {
        MatchKeepsOrdered(b, o);
        var m := MatchSpec(b, o);
        if m.taker.quantity > 0 {
          AddLimitKeepsOrdered(m.book, m.taker);
        }
      }
    }
  }

  /** Every trade an order event produces names that order as taker, carries
      maker -1 and the order's timestamp; a limit order never trades through
      its own price. */
  lemma DispatchTrades(b: BookState, o: Order)
    requires Wf(b)
    ensures forall t :: t in DispatchSpec(b, OrderEvent(o)).1 ==>
      && t.makerOrderId == -1 && t.takerOrderId == o.orderId && t.timestamp == o.timestamp
      && 0 < t.quantity
      && (o.price != 0 && o.side == OrderSideBuy ==> t.price <= o.price)
      && (o.price != 0 && o.side != OrderSideBuy ==> t.price >= o.price)
  {
    if o.price == 0 {
      MatchTrades(b, o.(price := MarketPrice(o.side)));
    } else {
      MatchTrades(b, o);
    }
  }

  // ---------------------------------------------------------------------
  // Replaying a stream

  /** Left fold of a step that returns a new state and some output: the
      final state and all the outputs, in order. */
  ghost function Fold<S, A, T>(step: (S, A) -> (S, seq<T>), s: S, xs: seq<A>): (S, seq<T>)
    decreases |xs|
  {
    if xs == [] then (s, [])
    else
      var first := step(s, xs[0]);
      var rest := Fold(step, first.0, xs[1..]);
      (rest.0, first.1 + rest.1)
  }

  /** Folding one more element continues from the state the earlier ones
      left and appends its output after theirs. */
  lemma {:induction false} FoldAppend<S, A, T>(step: (S, A) -> (S, seq<T>), s: S, xs: seq<A>, x: A)
    ensures var before := Fold(step, s, xs);
            var last := step(before.0, x);
            Fold(step, s, xs + [x]) == (last.0, before.1 + last.1)
    decreases |xs|
  {
    if xs != [] {
      var first := step(s, xs[0]);
      var rest := Fold(step, first.0, xs[1..]);
      var last := step(rest.0, x);
      assert (xs + [x])[0] == xs[0];
      assert (xs + [x])[1..] == xs[1..] + [x];
      FoldAppend(step, first.0, xs[1..], x);
      assert first.1 + (rest.1 + last.1) == (first.1 + rest.1) + last.1;
    } else {
      var last := step(s, x);
      assert xs + [x] == [x];
      assert [x][1..] == [];
      assert [] + last.1 == last.1 + [];
    }
  }

  /** Folding two pieces one after the other is folding their concatenation. */
  lemma {:induction false} FoldConcat<S, A, T>(step: (S, A) -> (S, seq<T>), s: S, xs: seq<A>, ys: seq<A>)
    ensures var first := Fold(step, s, xs);
            var second := Fold(step, first.0, ys);
            Fold(step, s, xs + ys) == (second.0, first.1 + second.1)
    decreases |ys|
  {
    if ys == [] {
      var first := Fold(step, s, xs);
      assert xs + ys == xs;
      assert first.1 + [] == first.1;
    } else {
      var init := ys[..|ys| - 1];
      var x := ys[|ys| - 1];
      assert ys == init + [x];
      assert xs + ys == (xs + init) + [x];
      var first := Fold(step, s, xs);
      var mid := Fold(step, first.0, init);
      var last := step(mid.0, x);
      FoldConcat(step, s, xs, init);
      FoldAppend(step, s, xs + init, x);
      FoldAppend(step, first.0, init, x);
      assert Fold(step, s, xs + ys) == (last.0, (first.1 + mid.1) + last.1);
      assert Fold(step, first.0, ys) == (last.0, mid.1 + last.1);
      assert (first.1 + mid.1) + last.1 == first.1 + (mid.1 + last.1);
    }
  }

  /** A property every step preserves holds after any fold. */
  lemma {:induction false} FoldPreserves<S, A, T>(step: (S, A) -> (S, seq<T>), inv: S -> bool, s: S, xs: seq<A>)
    requires inv(s)
    requires forall s', a :: inv(s') ==> inv(step(s', a).0)
    ensures inv(Fold(step, s, xs).0)
    decreases |xs|
  {
    if xs != [] {
      FoldPreserves(step, inv, step(s, xs[0]).0, xs[1..]);
    }
  }

  /** When every output of a step is related to the element that produced
      it, every output of a fold is related to some element folded. */
  lemma {:induction false} FoldOutputsFrom<S, A, T>(step: (S, A) -> (S, seq<T>), rel: (A, T) -> bool, s: S, xs: seq<A>)
    requires forall s', a, t :: t in step(s', a).1 ==> rel(a, t)
    ensures forall t :: t in Fold(step, s, xs).1 ==> exists i :: 0 <= i < |xs| && rel(xs[i], t)
    decreases |xs|
  {
    if xs != [] {
      var first := step(s, xs[0]);
      FoldOutputsFrom(step, rel, first.0, xs[1..]);
      forall t | t in Fold(step, s, xs).1
        ensures exists i :: 0 <= i < |xs| && rel(xs[i], t)
      {
        if t in first.1 {
          assert rel(xs[0], t);
        } else {
          var i :| 0 <= i < |xs[1..]| && rel(xs[1..][i], t);
          assert rel(xs[i + 1], t);
        }
      }
    }
  }

  /** The elements of `xs` that `keep` selects, in order. */
  ghost function Filter<A>(keep: A -> bool, xs: seq<A>): (r: seq<A>)
    ensures forall i :: 0 <= i < |r| ==> keep(r[i])
    ensures |r| <= |xs|
    decreases |xs|
  {
    if xs == [] then []
    else if keep(xs[0]) then [xs[0]] + Filter(keep, xs[1..])
    else Filter(keep, xs[1..])
  }

  /** Elements whose step changes nothing and outputs nothing can be
      dropped before folding. */
  lemma {:induction false} FoldSkipsInert<S, A, T>(step: (S, A) -> (S, seq<T>), keep: A -> bool, s: S, xs: seq<A>)
    requires forall s', a :: !keep(a) ==> step(s', a) == (s', [])
    ensures Fold(step, s, xs) == Fold(step, s, Filter(keep, xs))
    decreases |xs|
  {
    if xs != [] {
      var first := step(s, xs[0]);
      FoldSkipsInert(step, keep, first.0, xs[1..]);
      if keep(xs[0]) {
        var kept := Filter(keep, xs);
        assert kept[0] == xs[0] && kept[1..] == Filter(keep, xs[1..]);
      } else {
        assert first == (s, []);
        assert [] + Fold(step, s, xs[1..]).1 == Fold(step, s, xs[1..]).1;
      }
    }
  }

  /** One event of the stream, its timestamp aside: it keeps the book well
      formed and every trade it makes comes from that event's order. Every
      book the driver reaches is well formed (`Replay`); on any other value
      the step does nothing. */
  ghost function Step(b: BookState, ev: (int, Event)): (r: (BookState, seq<Trade>))
    ensures Wf(b) ==> Wf(r.0)
    ensures forall t :: t in r.1 ==> TradeOf(ev, t)
  {
    if Wf(b) then
      if ev.1.OrderEvent? then
        DispatchTrades(b, ev.1.order);
        DispatchSpec(b, ev.1)
      else DispatchSpec(b, ev.1)
    else (b, [])
  }

  /** Handling a sequence of events in order: the final book and every
      trade appended, in order. From a well-formed book the final book is
      well formed. */
  ghost function Replay(b: BookState, evs: seq<(int, Event)>): (r: (BookState, seq<Trade>))
    ensures Wf(b) ==> Wf(r.0)
  {
    if Wf(b) then
      FoldPreserves(Step, b' => Wf(b'), b, evs);
      Fold(Step, b, evs)
    else Fold(Step, b, evs)
  }

  /** Replaying one more event continues from the book the earlier events
      left, and appends that event's trades after theirs. */
  lemma ReplayAppend(b: BookState, evs: seq<(int, Event)>, ev: (int, Event))
    ensures var before := Replay(b, evs);
            var last := Step(before.0, ev);
            Replay(b, evs + [ev]) == (last.0, before.1 + last.1)
  {
    FoldAppend(Step, b, evs, ev);
  }

  /** Replaying two pieces of a stream one after the other is replaying
      the whole stream. */
  lemma ReplayConcat(b: BookState, xs: seq<(int, Event)>, ys: seq<(int, Event)>)
    ensures var first := Replay(b, xs);
            var second := Replay(first.0, ys);
            Replay(b, xs + ys) == (second.0, first.1 + second.1)
  {
    FoldConcat(Step, b, xs, ys);
  }

  /** Replaying any events keeps both ladders ordered. */
  lemma ReplayKeepsOrdered(b: BookState, evs: seq<(int, Event)>)
    requires Wf(b) && Ordered(b)
    ensures Wf(Replay(b, evs).0) && Ordered(Replay(b, evs).0)
  {
    forall b', ev | Wf(b') && Ordered(b')
      ensures Wf(Step(b', ev).0) && Ordered(Step(b', ev).0)
    {
      DispatchKeepsOrdered(b', ev.1);
    }
    FoldPreserves(Step, b' => Wf(b') && Ordered(b'), b, evs);
  }

  /** `t` is a trade the order event `ev` can produce: maker -1, that order
      as taker, its timestamp, a positive quantity. */
  ghost predicate TradeOf(ev: (int, Event), t: Trade) {
    && ev.1.OrderEvent?
    && t.makerOrderId == -1 && t.takerOrderId == ev.1.order.orderId
    && t.timestamp == ev.1.order.timestamp && 0 < t.quantity
  }

  /** Every trade of a replay comes from one of the replayed order events. */
  lemma ReplayTradeOrigins(b: BookState, evs: seq<(int, Event)>)
    ensures forall t :: t in Replay(b, evs).1 ==> exists i :: 0 <= i < |evs| && TradeOf(evs[i], t)
  {
    assert forall b', ev, t :: t in Step(b', ev).1 ==> TradeOf(ev, t);
    FoldOutputsFrom(Step, TradeOf, b, evs);
  }

  /** The order events of a stream, in stream order. */
  ghost function OrdersOnly(evs: seq<(int, Event)>): seq<(int, Event)> {
    Filter((ev: (int, Event)) => ev.1.OrderEvent?, evs)
  }

  /** Non-order events never touch the book or the tape: replaying a stream
      is replaying its order events alone. */
  lemma ReplaySkipsNonOrders(b: BookState, evs: seq<(int, Event)>)
    ensures Replay(b, evs) == Replay(b, OrdersOnly(evs))
  {
    FoldSkipsInert(Step, (ev: (int, Event)) => ev.1.OrderEvent?, b, evs);
  }

  /** The last clock value at which an event of `evs` falls due: the largest
      timestamp, or 0 when there is none above 0. */
  ghost function LastTick(evs: seq<(int, Event)>): (t: int)
    ensures t >= 0
    ensures forall i :: 0 <= i < |evs| ==> evs[i].0 <= t
    ensures t == 0 || exists i :: 0 <= i < |evs| && evs[i].0 == t
  {
    if evs == [] then 0
    else
      var rest := LastTick(evs[1..]);
      assert forall i :: 1 <= i < |evs| ==> evs[i] == evs[1..][i - 1];
      if evs[0].0 > rest then evs[0].0 else rest
  }

  /** One event handled on the live book. */
  method Dispatch(book: Book, ev: Event) returns (fills: seq<Trade>)
    requires book.Valid()
    modifies book, book.bidsP, book.bidsQ, book.asksP, book.asksQ
    ensures book.Valid()
    ensures (book.State(), fills) == DispatchSpec(old(book.State()), ev)
  {
    match ev
    case CancelEvent(_) =>
      fills := [];
    case OrderEvent(o) =>
      if o.price == 0 {
        var taker;
        taker, fills := book.ProcessMarket(o);
      } else {
        var taker;
        taker, fills := book.MatchIncoming(o);
        if taker.quantity > 0 {
          book.AddLimit(taker);
        }
      }
  }

  /** Dispatch each of `evs` on the live book, in order. */
  method DispatchAll(book: Book, evs: seq<(int, Event)>) returns (fills: seq<Trade>)
    requires book.Valid()
    modifies book, book.bidsP, book.bidsQ, book.asksP, book.asksQ
    ensures book.Valid()
    ensures (book.State(), fills) == Replay(old(book.State()), evs)
  {
    fills := [];
    ghost var start := book.State();
    for j := 0 to |evs|
      invariant book.Valid()
      invariant (book.State(), fills) == Replay(start, evs[..j])
    {
      ReplayAppend(start, evs[..j], evs[j]);
      assert evs[..j + 1] == evs[..j] + [evs[j]];
      var more := Dispatch(book, evs[j].1);
      fills := fills + more;
    }
    assert evs[..|evs|] == evs;
  }

  /** The body of the clock loop: `pop_until(now)` and dispatch each event
      it yields, in the order it yields them. */
  method DrainDue(book: Book, eq: EQ.EventQueue<Event>, now: int) returns (fills: seq<Trade>, ghost due: seq<(int, Event)>)
    requires book.Valid()
    modifies book, book.bidsP, book.bidsQ, book.asksP, book.asksQ, eq
    ensures book.Valid()
    ensures eq.entries + multiset(due) == old(eq.entries)
    ensures forall i :: 0 <= i < |due| ==> due[i].0 <= now && due[i] in old(eq.entries)
    ensures forall x :: x in eq.entries ==> x.0 > now
    ensures EQ.SortedByTs(due)
    ensures (book.State(), fills) == Replay(old(book.State()), due)
  {
    var popped := eq.PopUntil(now);
    due := popped;
    forall i | 0 <= i < |popped|
      ensures popped[i] in old(eq.entries)
    {
      assert popped[i] in multiset(popped);
    }
    fills := DispatchAll(book, popped);
  }

  /** `run_simulation`: preload the events, then drain the queue one clock
      tick at a time. Every event is dispatched exactly once, in
      non-decreasing timestamp order, and the trades are those of replaying
      the events in that order on an empty book. The clock ends one past the
      last tick at which an event fell due. */
  method RunSimulation(events: seq<(int, Event)>) returns (trades: seq<Trade>, ghost dispatched: seq<(int, Event)>, ghost ticks: int)
    ensures multiset(dispatched) == multiset(events)
    ensures EQ.SortedByTs(dispatched)
    ensures trades == Replay(InitState(), dispatched).1
    ensures ticks == if events == [] then 0 else LastTick(events) + 1
    ensures forall t :: t in trades ==> exists i :: 0 <= i < |events| && TradeOf(events[i], t)
  {
    var book := new Book();
    var eq := new EQ.EventQueue<Event>();
    trades := [];

    for i := 0 to |events|
      invariant eq.entries == multiset(events[..i])
      invariant book.Valid() && book.State() == InitState()
    {
      assert events[..i + 1] == events[..i] + [events[i]];
      eq.Push(events[i].0, events[i].1);
    }
    assert events[..|events|] == events;
    assert events != [] ==> events[0] in eq.entries;

    dispatched := [];
    var currentTs := 0;
    ClockStart(events);
    while eq.Length() > 0
      invariant fresh(book) && fresh(book.bidsP) && fresh(book.bidsQ) && fresh(book.asksP) && fresh(book.asksQ)
      invariant fresh(eq)
      invariant book.Valid()
      invariant ClockInv(events, eq.entries, dispatched, currentTs)
      invariant (book.State(), trades) == Replay(InitState(), dispatched)
      decreases LastTick(events) + 1 - currentTs
    {
      ghost var before := eq.entries;
      var fills, due := DrainDue(book, eq, currentTs);
      ClockStep(events, before, dispatched, currentTs, eq.entries, due);
      ReplayConcat(InitState(), dispatched, due);
      trades := trades + fills;
      dispatched := dispatched + due;
      currentTs := currentTs + 1;
    }
    ClockEnd(events, dispatched, currentTs);
    ticks := currentTs;
    TradesFromEvents(events, dispatched);
  }

  /** The trades of replaying any ordering of `events` come from order
      events of `events`. */
  lemma TradesFromEvents(events: seq<(int, Event)>, dispatched: seq<(int, Event)>)
    requires multiset(dispatched) == multiset(events)
    ensures forall t :: t in Replay(InitState(), dispatched).1 ==> exists i :: 0 <= i < |events| && TradeOf(events[i], t)
  {
    ReplayTradeOrigins(InitState(), dispatched);
    forall t | t in Replay(InitState(), dispatched).1
      ensures exists i :: 0 <= i < |events| && TradeOf(events[i], t)
    {
      var d :| 0 <= d < |dispatched| && TradeOf(dispatched[d], t);
      assert dispatched[d] in multiset(events);
      var i :| 0 <= i < |events| && events[i] == dispatched[d];
    }
  }

  /** What the clock loop keeps: every event is either still queued or
      already dispatched; dispatch order is sorted and entirely before the
      current tick; whatever is queued is due no earlier than the current
      tick once the clock has moved; and the clock never passes one beyond
      the last tick, which it only leaves 0 for when there were events. */
  ghost predicate ClockInv(events: seq<(int, Event)>, queued: multiset<(int, Event)>, dispatched: seq<(int, Event)>, now: int) {
    && queued + multiset(dispatched) == multiset(events)
    && EQ.SortedByTs(dispatched)
    && (forall i :: 0 <= i < |dispatched| ==> dispatched[i].0 < now)
    && (now > 0 ==> forall x :: x in queued ==> x.0 >= now)
    && (now == 0 ==> dispatched == [] && queued == multiset(events))
    && (now > 0 ==> events != [])
    && 0 <= now <= LastTick(events) + 1
  }

  /** After preloading, at tick 0 nothing has been dispatched. */
  lemma ClockStart(events: seq<(int, Event)>)
    ensures ClockInv(events, multiset(events), [], 0)
  {
  }

  /** One turn of the clock loop: draining the events due at `now` from a
      non-empty queue keeps the loop's invariant at `now + 1`, and `now` had
      not yet passed the last tick. */
  lemma ClockStep(events: seq<(int, Event)>, queued: multiset<(int, Event)>, dispatched: seq<(int, Event)>, now: int,
                  rest: multiset<(int, Event)>, due: seq<(int, Event)>)
    requires ClockInv(events, queued, dispatched, now) && queued != multiset{}
    requires rest + multiset(due) == queued
    requires forall i :: 0 <= i < |due| ==> due[i].0 <= now && due[i] in queued
    requires forall x :: x in rest ==> x.0 > now
    requires EQ.SortedByTs(due)
    ensures now <= LastTick(events)
    ensures ClockInv(events, rest, dispatched + due, now + 1)
  {
    var someEntry :| someEntry in queued;
    assert someEntry in multiset(events);
    if dispatched != [] {
      assert now > 0;
    }
    DrainedInOrder(dispatched, due, now);
    assert multiset(dispatched + due) == multiset(dispatched) + multiset(due);
    forall x | x in rest
      ensures x.0 <= LastTick(events)
    {
      assert x in multiset(events);
    }
  }

  /** When the queue is empty every event has been dispatched, and the clock
      stands one past the last tick (or at 0 if there were no events). */
  lemma ClockEnd(events: seq<(int, Event)>, dispatched: seq<(int, Event)>, now: int)
    requires ClockInv(events, multiset{}, dispatched, now)
    ensures multiset(dispatched) == multiset(events)
    ensures now == if events == [] then 0 else LastTick(events) + 1
  {
    assert multiset{} + multiset(dispatched) == multiset(dispatched);
    if events != [] {
      assert events[0] in multiset(events);
      assert now > 0;
      if LastTick(events) > 0 {
        var k :| 0 <= k < |events| && events[k].0 == LastTick(events);
        assert events[k] in multiset(dispatched);
        var d :| 0 <= d < |dispatched| && dispatched[d] == events[k];
        assert LastTick(events) < now;
      }
    }
  }

  /** Appending a drain at `tick` to events dispatched before `tick` keeps
      the dispatch order sorted and every dispatched event before the next
      tick. */
  lemma DrainedInOrder(dispatched: seq<(int, Event)>, due: seq<(int, Event)>, tick: int)
    requires EQ.SortedByTs(dispatched) && EQ.SortedByTs(due)
    requires forall i :: 0 <= i < |dispatched| ==> dispatched[i].0 < tick
    requires forall i :: 0 <= i < |due| ==> due[i].0 <= tick
    requires dispatched != [] ==> forall i :: 0 <= i < |due| ==> due[i].0 >= tick
    ensures EQ.SortedByTs(dispatched + due)
    ensures forall i :: 0 <= i < |dispatched + due| ==> (dispatched + due)[i].0 < tick + 1
  {
    var all := dispatched + due;
    forall i, j | 0 <= i < j < |all|
      ensures all[i].0 <= all[j].0
    {
      if j < |dispatched| {
        assert all[i] == dispatched[i] && all[j] == dispatched[j];
        assert dispatched[i].0 <= dispatched[j].0;
      } else if i >= |dispatched| {
        assert all[i] == due[i - |dispatched|] && all[j] == due[j - |dispatched|];
        assert due[i - |dispatched|].0 <= due[j - |dispatched|].0;
      } else {
        assert all[i] == dispatched[i] && all[j] == due[j - |dispatched|];
        assert dispatched[i].0 < tick <= due[j - |dispatched|].0;
      }
    }
  }

  // ---------------------------------------------------------------------
  // The demonstration run

  /** The demonstration stream: a resting ask, a crossing bid, a
      non-crossing bid and a market sell. */
  function DemoEvents(): seq<(int, Event)> {
    [ (1, OrderEvent(Order(1, 100, 10, OrderSideSell, 1))),
      (2, OrderEvent(Order(2, 101, 10, OrderSideBuy, 2))),
      (3, OrderEvent(Order(3, 99, 5, OrderSideBuy, 3))),
      (4, OrderEvent(Order(4, 0, 5, OrderSideSell, 4))) ]
  }

  /** The two trades of the demonstration: the crossing bid lifts the
      resting ask, then the market sell hits the resting bid. */
  function DemoTrades(): seq<Trade> {
    [Trade(-1, 2, 100, 10, 2), Trade(-1, 4, 99, 5, 4)]
  }

  /** Replaying the demonstration stream in order yields exactly its two
      trades. */
  lemma DemoReplay()
    ensures Replay(InitState(), DemoEvents()).1 == DemoTrades()
  {
    var evs := DemoEvents();
    var b1 := DemoSellRests();
    DemoFromSecond(b1);
    ReplayCons(InitState(), evs[0], evs[1..]);
    assert evs == [evs[0]] + evs[1..];
  }

  /** The demonstration from its second event on, once the ask rests. */
  lemma DemoFromSecond(b1: BookState)
    requires Wf(b1) && b1.asksP[0] == 100 && b1.asksQ[0] == 10 && b1.asksQ[1] == 0
    requires b1.bidsP == InitState().bidsP && b1.bidsQ == InitState().bidsQ
    ensures Replay(b1, DemoEvents()[1..]).1 == DemoTrades()
  {
    var evs := DemoEvents();
    var b2 := DemoBuyLiftsAsk(b1);
    DemoFromThird(b2);
    ReplayCons(b1, evs[1], evs[2..]);
    assert evs[1..] == [evs[1]] + evs[2..];
  }

  /** The demonstration from its third event on, once the ask is lifted. */
  lemma DemoFromThird(b2: BookState)
    requires Wf(b2) && b2.asksQ[0] == 0
    requires b2.bidsP == InitState().bidsP && b2.bidsQ == InitState().bidsQ
    ensures Replay(b2, DemoEvents()[2..]).1 == [Trade(-1, 4, 99, 5, 4)]
  {
    var evs := DemoEvents();
    var b3 := DemoBuyRests(b2);
    DemoLast(b3);
    ReplayCons(b2, evs[2], evs[3..]);
    assert evs[2..] == [evs[2]] + evs[3..];
  }

  /** The last demonstration event, once the bid rests. */
  lemma DemoLast(b3: BookState)
    requires Wf(b3) && b3.bidsP[0] == 99 && b3.bidsQ[0] == 5
    ensures Replay(b3, DemoEvents()[3..]).1 == [Trade(-1, 4, 99, 5, 4)]
  {
    var evs := DemoEvents();
    var b4 := DemoMarketHitsBid(b3);
    ReplayCons(b3, evs[3], []);
    assert evs[3..] == [evs[3]] + [];
  }

  /** Replaying a stream is handling its first event, then replaying the rest. */
  lemma ReplayCons(b: BookState, ev: (int, Event), evs: seq<(int, Event)>)
    ensures var first := Step(b, ev);
            var rest := Replay(first.0, evs);
            Replay(b, [ev] + evs) == (rest.0, first.1 + rest.1)
  {
    assert ([ev] + evs)[0] == ev;
    assert ([ev] + evs)[1..] == evs;
  }

  /** Demonstration, event 1: the sell at 100 finds no bids and rests at the
      top of the empty ask ladder. */
  lemma DemoSellRests() returns (b1: BookState)
    ensures Step(InitState(), DemoEvents()[0]) == (b1, [])
    ensures Wf(b1) && b1.asksP[0] == 100 && b1.asksQ[0] == 10 && b1.asksQ[1] == 0
    ensures b1.bidsP == InitState().bidsP && b1.bidsQ == InitState().bidsQ
  {
    var b0 := InitState();
    var o := Order(1, 100, 10, OrderSideSell, 1);
    assert b0.bidsQ[0] == 0;
    var m := MatchSpec(b0, o);
    assert m == Matched(b0, o, []);
    assert !PassesLevel(o.side, o.price, b0.asksP[0]);
    assert InsertionPoint(b0.asksP, o.side, o.price) == 0;
    b1 := AddLimitSpec(b0, o);
    assert b1.asksQ[1] == b0.asksQ[0];
  }

  /** Demonstration, event 2: the buy at 101 lifts the whole ask at 100 and
      is filled; the emptied level shifts out. */
  lemma DemoBuyLiftsAsk(b1: BookState) returns (b2: BookState)
    requires Wf(b1) && b1.asksP[0] == 100 && b1.asksQ[0] == 10 && b1.asksQ[1] == 0
    requires b1.bidsP == InitState().bidsP && b1.bidsQ == InitState().bidsQ
    ensures Step(b1, DemoEvents()[1]) == (b2, [Trade(-1, 2, 100, 10, 2)])
    ensures Wf(b2) && b2.asksQ[0] == 0
    ensures b2.bidsP == InitState().bidsP && b2.bidsQ == InitState().bidsQ
  {
    var o := Order(2, 101, 10, OrderSideBuy, 2);
    SweepStep(b1.asksP, b1.asksQ, o);
    var left := b1.asksQ[0 := 0];
    var s := Sweep(ShiftedUp(b1.asksP, EmptyPrice), ShiftedUp(left, 0), o.(quantity := 0));
    assert s == Swept(ShiftedUp(b1.asksP, EmptyPrice), ShiftedUp(left, 0), o.(quantity := 0), []);
    var m := MatchSpec(b1, o);
    assert m.fills == [Trade(-1, 2, 100, 10, 2)] && m.taker.quantity == 0;
    b2 := m.book;
  }

  /** Demonstration, event 3: the buy at 99 finds the top ask empty, trades
      nothing and rests at the top of the bid ladder. */
  lemma DemoBuyRests(b2: BookState) returns (b3: BookState)
    requires Wf(b2) && b2.asksQ[0] == 0
    requires b2.bidsP == InitState().bidsP && b2.bidsQ == InitState().bidsQ
    ensures Step(b2, DemoEvents()[2]) == (b3, [])
    ensures Wf(b3) && b3.bidsP[0] == 99 && b3.bidsQ[0] == 5
  {
    var o := Order(3, 99, 5, OrderSideBuy, 3);
    var m := MatchSpec(b2, o);
    assert m == Matched(b2, o, []);
    assert !PassesLevel(o.side, o.price, b2.bidsP[0]);
    assert InsertionPoint(b2.bidsP, o.side, o.price) == 0;
    b3 := AddLimitSpec(b2, o);
  }

  /** Demonstration, event 4: the market sell of 5 hits the bid at 99 and
      is filled. */
  lemma DemoMarketHitsBid(b3: BookState) returns (b4: BookState)
    requires Wf(b3) && b3.bidsP[0] == 99 && b3.bidsQ[0] == 5
    ensures Step(b3, DemoEvents()[3]) == (b4, [Trade(-1, 4, 99, 5, 4)])
  {
    var o := Order(4, 0, 5, OrderSideSell, 4);
    var priced := o.(price := MarketPrice(o.side));
    SweepStep(b3.bidsP, b3.bidsQ, priced);
    var left := b3.bidsQ[0 := 0];
    var s := Sweep(ShiftedUp(b3.bidsP, EmptyPrice), ShiftedUp(left, 0), priced.(quantity := 0));
    assert s.fills == [];
    var m := ProcessMarketSpec(b3, o);
    assert m.fills == [Trade(-1, 4, 99, 5, 4)];
    b4 := m.book;
  }

  /** `__main__`: run the demonstration stream through the driver. */
  method RunDemo() returns (trades: seq<Trade>)
    ensures trades == DemoTrades()
  {
    ghost var dispatched, ticks;
    trades, dispatched, ticks := RunSimulation(DemoEvents());
    DemoDispatchOrder(dispatched);
  }

  /** The demonstration's timestamps are distinct, so the driver dispatches
      it in stream order, and its trades are those of `DemoReplay`. */
  lemma DemoDispatchOrder(dispatched: seq<(int, Event)>)
    requires multiset(dispatched) == multiset(DemoEvents()) && EQ.SortedByTs(dispatched)
    ensures dispatched == DemoEvents()
    ensures Replay(InitState(), dispatched).1 == DemoTrades()
  {
    var evs := DemoEvents();
    assert EQ.StrictlySortedByTs(evs);
    EQ.SortedPermutationUnique(dispatched, evs);
    DemoReplay();
  }
}
