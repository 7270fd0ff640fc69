// Orders and trades: the value records the engine reads and produces.
// Prices and quantities are decimals in the engine, whose arithmetic rounds
// to 18 significant digits; here they are integers in a fixed scale, on the
// assumption that every value is small enough that nothing rounds.

module Orders {

  datatype Option<T> = None | Some(value: T)

  /** The four order types; the enum's string value is what the API parses. */
  datatype OrderType = Market | Limit | IOC | FOK

  datatype Side = Buy | Sell

  function Opposite(s: Side): (r: Side)
    ensures r != s
  {
    if s == Buy then Sell else Buy
  }

  function TypeValue(t: OrderType): string {
    match t
    case Market => "market"
    case Limit => "limit"
    case IOC => "ioc"
    case FOK => "fok"
  }

  function SideValue(s: Side): string {
    if s == Buy then "buy" else "sell"
  }

  /** Looking an order type up by its value; an unknown value is refused. */
  function ParseOrderType(s: string): (r: Option<OrderType>)
    ensures r.Some? ==> TypeValue(r.value) == s
    ensures r.None? ==> forall t: OrderType :: TypeValue(t) != s
  {
    if s == "market" then Some(Market)
    else if s == "limit" then Some(Limit)
    else if s == "ioc" then Some(IOC)
    else if s == "fok" then Some(FOK)
    else None
  }

  /** Looking a side up by its value; an unknown value is refused. */
  function ParseSide(s: string): (r: Option<Side>)
    ensures r.Some? ==> SideValue(r.value) == s
    ensures r.None? ==> forall d: Side :: SideValue(d) != s
  {
    if s == "buy" then Some(Buy)
    else if s == "sell" then Some(Sell)
    else None
  }

  lemma ParseOrderTypeRoundTrip(t: OrderType)
    ensures ParseOrderType(TypeValue(t)) == Some(t)
  {
  }

  lemma ParseSideRoundTrip(s: Side)
    ensures ParseSide(SideValue(s)) == Some(s)
  {
  }

  /**
   * An order. `price` is None for a market order; `id` and `timestamp` are
   * supplied by the caller (the engine draws them from uuid4 and the clock).
   * Equality of two orders is field-wise, like a dataclass.
   */
  datatype Order = Order(
    symbol: string,
    orderType: OrderType,
    side: Side,
    quantity: int,
    price: Option<int>,
    id: string,
    timestamp: int,
    filled: int)
  {
    /** What is still to be filled; every loop of the engine is guarded by it. */
    function Remaining(): (r: int)
      ensures r + filled == quantity
    {
      quantity - filled
    }
  }

  /** A freshly created order: nothing filled yet; a market order may leave out its price. */
  function NewOrder(symbol: string, orderType: OrderType, side: Side, quantity: int,
                    price: Option<int> := None, id: string, timestamp: int): (o: Order)
    ensures o.filled == 0 && o.Remaining() == quantity
    ensures o.symbol == symbol && o.orderType == orderType && o.side == side
    ensures o.quantity == quantity && o.price == price && o.id == id
    ensures o.timestamp == timestamp
  {
    Order(symbol, orderType, side, quantity, price, id, timestamp, 0)
  }

  /** Records an execution of `qty` against the order; nothing else changes. */
  function Fill(o: Order, qty: int): (r: Order)
    ensures r.Remaining() == o.Remaining() - qty
    ensures r == o.(filled := r.filled)
  {
    o.(filled := o.filled + qty)
  }

  /** An order the engine can price-check: only a market order may lack a price. */
  predicate HasPrice(o: Order)
    ensures o.orderType == Market ==> HasPrice(o)
    ensures o.orderType == Limit ==> (HasPrice(o) <==> o.price.Some?)
  {
    o.orderType == Market || o.price.Some?
  }

  function Min(a: int, b: int): (m: int)
    ensures m <= a && m <= b && (m == a || m == b)
  {
    if a <= b then a else b
  }
}

module Trades {
  import opened Orders

  /** An execution: the maker is the resting order, the taker the incoming one. */
  datatype Trade = Trade(
    symbol: string,
    price: int,
    quantity: int,
    makerOrderId: string,
    takerOrderId: string,
    aggressorSide: Side)

  function SumQuantity(ts: seq<Trade>): int {
    if ts == [] then 0 else ts[0].quantity + SumQuantity(ts[1..])
  }

  lemma {:induction false} SumQuantityAppend(a: seq<Trade>, b: seq<Trade>)
    ensures SumQuantity(a + b) == SumQuantity(a) + SumQuantity(b)
  {
    if a == [] {
      assert a + b == b;
    } else {
      assert (a + b)[1..] == a[1..] + b;
      SumQuantityAppend(a[1..], b);
    }
  }
}
