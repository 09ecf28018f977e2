// Records exchanged between the event driver, the matcher and the caller:
// orders, trades, cancel requests and the +1 / -1 side encoding.

module Datatypes {

  /** Side tag of a buy order. */
  const OrderSideBuy: int := 1
  /** Side tag of a sell order. The book only tests `side == OrderSideBuy`
      and treats every other value as a sell. */
  const OrderSideSell: int := -1

  /** A limit or market order. `quantity` is the remaining unfilled amount;
      the matcher returns an updated copy instead of writing the field in place.
      Prices are whole numbers; see README. */
  datatype Order = Order(orderId: int, price: int, quantity: int, side: int, timestamp: int) {
    /** An order is filled once nothing remains to trade. */
    predicate IsFilled() {
      quantity == 0
    }
  }

  /** An execution report: the resting (maker) and incoming (taker) ids, the
      price and size of the execution, and the taker's timestamp. */
  datatype Trade = Trade(makerOrderId: int, takerOrderId: int, price: int, quantity: int, timestamp: int)

  /** A cancel request keyed by order id. */
  datatype Cancel = Cancel(orderId: int, timestamp: int)
}
