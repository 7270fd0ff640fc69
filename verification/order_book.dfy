// The order book of one symbol: two sides updated in place and a cached
// best bid and offer.

module OrderBooks {
  import opened Orders
  import opened Ladders

  class OrderBook {
    const symbol: string
    var bids: Ladder
    var asks: Ladder
    /** The cached best bid and best ask, refreshed by UpdateBbo. */
    var bbo: Bbo

    function State(): BookState
      reads this
    {
      BookState(bids, asks)
    }

    /** Both sides well formed, and the cache equal to their best prices. */
    ghost predicate Valid()
      reads this
    {
      ValidBook(State()) && bbo == BboOf(State())
    }

    constructor (symbol: string)
      ensures Valid() && this.symbol == symbol && State() == EmptyBook()
    {
      this.symbol := symbol;
      bids := Ladder(Buy, map[], []);
      asks := Ladder(Sell, map[], []);
      bbo := Bbo(None, None);
    }

    /**
     * Rests an order at the back of the queue at its price on its own side
     * (bids for a buy, asks for a sell), creating the level if absent, then
     * refreshes the cache. The other side is untouched.
     */
    method AddOrder(o: Order)
      requires Valid() && o.price.Some?
      modifies this
      ensures Valid()
      ensures State() == AddToBook(old(State()), o)
    {
      AddToBookValid(State(), o);
      if o.side == Buy {
        bids := Append(bids, o);
      } else {
        asks := Append(asks, o);
      }
      UpdateBbo();
    }

    /**
     * Removes the order from the level at its price when it is there,
     * deleting the level if it becomes empty, then refreshes the cache.
     * An order that is not in the book changes no queue.
     */
    method RemoveOrder(o: Order)
      requires Valid()
      modifies this
      ensures Valid()
      ensures State() == RemoveFromBook(old(State()), o)
    {
      RemoveFromBookValid(State(), o);
      if o.side == Buy {
        bids := Ladders.RemoveOrder(bids, o);
      } else {
        asks := Ladders.RemoveOrder(asks, o);
      }
      UpdateBbo();
    }

    /**
     * Recomputes the cache: the highest bid price and the lowest ask price,
     * or None for an empty side.
     */
    method UpdateBbo()
      requires ValidBook(State())
      modifies this`bbo
      ensures Valid()
      ensures bbo.bid.None? <==> bids.levels == map[]
      ensures bbo.bid.Some? ==> bbo.bid.value in bids.levels && forall p :: p in bids.levels ==> p <= bbo.bid.value
      ensures bbo.ask.None? <==> asks.levels == map[]
      ensures bbo.ask.Some? ==> bbo.ask.value in asks.levels && forall p :: p in asks.levels ==> bbo.ask.value <= p
    {
      BestIsExtreme(bids);
      BestIsExtreme(asks);
      bbo := Bbo(Best(bids), Best(asks));
    }

    /** The cached best bid: the highest bid price, or None when there are no bids. */
    method GetBestBid() returns (p: Option<int>)
      requires Valid()
      ensures p == bbo.bid
      ensures p.None? <==> bids.levels == map[]
      ensures p.Some? ==> p.value in bids.levels && forall x :: x in bids.levels ==> x <= p.value
    {
      BestIsExtreme(bids);
      p := bbo.bid;
    }

    /** The cached best ask: the lowest ask price, or None when there are no asks. */
    method GetBestAsk() returns (p: Option<int>)
      requires Valid()
      ensures p == bbo.ask
      ensures p.None? <==> asks.levels == map[]
      ensures p.Some? ==> p.value in asks.levels && forall x :: x in asks.levels ==> p.value <= x
    {
      BestIsExtreme(asks);
      p := bbo.ask;
    }
  }
}
