// The matching engine: a registry of order books keyed by symbol, an audit
// log of every trade, and the processing of one incoming order.

module Engine {
  import opened Orders
  import opened Trades
  import opened Ladders
  import opened Matching
  import opened OrderBooks

  /**
   * The fill-or-kill pre-check: the remaining quantity resting at every
   * marketable level of the opposite side, in list order.
   */
  method AvailableQuantity(counter: Ladder, order: Order) returns (total: int)
    requires HasPrice(order)
    ensures total == Available(counter, counter.prices, order)
  {
    total := 0;
    var prices := counter.prices;
    var i := 0;
    while i < |prices|
      invariant 0 <= i <= |prices|
      invariant total + Available(counter, prices[i..], order) == Available(counter, prices, order)
    {
      var p := prices[i];
      assert prices[i..][1..] == prices[i + 1..];
      if Marketable(order, p) {
        total := total + QueueRemaining(Level(counter, p));
      }
      i := i + 1;
    }
  }

  /**
   * The inner matching loop: trades the incoming order against one price
   * level, front of the queue first, at the resting order's price. A fully
   * filled resting order leaves the queue; a partly filled one stays at the
   * front. Returns what is left of the queue, the incoming order with its
   * fills, and the trades in execution order.
   */
  method MatchQueue(level: seq<Order>, order: Order) returns (queue: seq<Order>, taker: Order, trades: seq<Trade>)
    requires PricedQueue(level)
    ensures Fills(queue, taker, trades) == FillQueue(level, order)
    ensures PricedQueue(queue)
    ensures queue != [] ==> taker.Remaining() <= 0
  {
    queue, taker, trades := level, order, [];
    while queue != [] && taker.Remaining() > 0
      invariant PricedQueue(queue)
      invariant var g := FillQueue(queue, taker);
        g.queue == FillQueue(level, order).queue && g.taker == FillQueue(level, order).taker
        && trades + g.trades == FillQueue(level, order).trades
      decreases |queue|, if taker.Remaining() > 0 then 1 else 0
    {
      var resting := queue[0];
      var execPrice := resting.price.value;
      var execQty := Min(taker.Remaining(), resting.Remaining());
      var trade := Trade(taker.symbol, execPrice, execQty, resting.id, taker.id, taker.side);
      trades := trades + [trade];
      resting := Fill(resting, execQty);
      taker := Fill(taker, execQty);
      if resting.Remaining() == 0 {
        queue := queue[1..];
      } else {
        queue := [resting] + queue[1..];
      }
    }
  }

  /**
   * The outer matching loop on the opposite side `counter`: while the order
   * has something left, takes the best remaining level and stops at the
   * first level that is not marketable; a level whose queue is emptied
   * leaves both the map and the sorted price list. Returns the side as it
   * is after matching, the incoming order with its fills, and the trades in
   * execution order.
   */
  method MatchLevels(counter: Ladder, order: Order) returns (ladder: Ladder, taker: Order, trades: seq<Trade>)
    requires HasPrice(order) && WellFormed(counter)
    ensures WalkResult(ladder, taker, trades) == Walk(counter, order)
  {
    WellFormedIsPriced(counter);
    ladder := counter;
    taker := order;
    trades := [];
    var snapshot := counter.prices;
    while taker.Remaining() > 0 && snapshot != []
      invariant snapshot == ladder.prices
      invariant taker == order.(filled := taker.filled)
      invariant Priced(ladder)
      invariant taker.Remaining() > 0 ==> WellFormed(ladder)
      invariant var w := Walk(ladder, taker);
        WalkResult(w.ladder, w.taker, trades + w.trades) == Walk(counter, order)
      decreases |snapshot|, if taker.Remaining() > 0 then 1 else 0
    {
      var levelPrice := snapshot[0];
      if !Marketable(order, levelPrice) {
        break;
      }
      MatchStep(counter, order, ladder, taker, trades);
      var queue, filled, fills := MatchQueue(ladder.levels[levelPrice], taker);
      taker := filled;
      trades := trades + fills;
      if queue == [] {
        ladder := DeleteLevel(ladder, levelPrice);
        snapshot := snapshot[1..];
      } else {
        ladder := ladder.(levels := ladder.levels[levelPrice := queue]);
      }
    }
  }

  /**
   * One turn of MatchLevels keeps its invariants: the side it leaves behind
   * (the emptied level deleted, or the level's queue replaced) resumes the
   * walk with the trades of the turn appended.
   */
  lemma MatchStep(counter: Ladder, order: Order, ladder: Ladder, taker: Order, trades: seq<Trade>)
    requires HasPrice(order) && Priced(counter) && taker == order.(filled := taker.filled)
    requires WellFormed(ladder) && taker.Remaining() > 0 && ladder.prices != [] && Marketable(order, ladder.prices[0])
    requires var w := Walk(ladder, taker);
      WalkResult(w.ladder, w.taker, trades + w.trades) == Walk(counter, order)
    ensures var p := ladder.prices[0];
      var f := FillQueue(ladder.levels[p], taker);
      var next := if f.queue == [] then DeleteLevel(ladder, p) else ladder.(levels := ladder.levels[p := f.queue]);
      && PricedQueue(ladder.levels[p])
      && (f.queue == [] ==> WellFormed(next) && next.prices == ladder.prices[1..])
      && (f.queue != [] ==> f.taker.Remaining() <= 0)
      && Priced(next)
      && var w := Walk(next, f.taker);
         WalkResult(w.ladder, w.taker, (trades + f.trades) + w.trades) == Walk(counter, order)
  {
    var p := ladder.prices[0];
    WalkStep(ladder, taker);
    DropBestIsDeleteLevel(ladder);
    var f := FillQueue(ladder.levels[p], taker);
    var next := if f.queue == [] then DropBest(ladder) else ladder.(levels := ladder.levels[p := f.queue]);
    var w := Walk(next, f.taker);
    AppendAssociative(trades, f.trades, w.trades);
  }

  // Stated apart, although Dafny knows it, because asserting it inside MatchStep costs that proof far more.
  lemma AppendAssociative<T>(a: seq<T>, b: seq<T>, c: seq<T>)
    ensures (a + b) + c == a + (b + c)
  {
  }

  /**
   * The body of processing one order on the book of its symbol: the
   * fill-or-kill pre-check (an infeasible order returns no trades and the
   * current quotes, changing nothing), the matching loops on the opposite
   * side, the refresh of the quotes, and the residual rule: what is left of
   * a limit order rests on its own side, what is left of a market, IOC or
   * FOK order is dropped. The book becomes exactly what `Submit` describes.
   */
  method MatchOrder(book: OrderBook, order: Order) returns (result: seq<Trade>, bbo: Bbo, taker: Order)
    requires Sound(book) && HasPrice(order)
    modifies book
    ensures Sound(book)
    ensures var r := Submit(old(book.State()), order);
      book.State() == r.book && result == r.trades && taker == r.taker
    ensures bbo == BboOf(book.State())
  {
    WellFormedIsPriced(Counter(book.State(), order));
    var counter := if order.side == Buy then book.asks else book.bids;
    if order.orderType == FOK {
      var totalAvail := AvailableQuantity(counter, order);
      if totalAvail < order.Remaining() {
        var bid := book.GetBestBid();
        var ask := book.GetBestAsk();
        bbo := Ladders.Bbo(bid, ask);
        return [], bbo, order;
      }
    }
    result, bbo, taker := Execute(book, order);
  }

  /**
   * The part of processing an order after the fill-or-kill pre-check has
   * let it through: the matching loops, the refresh of the quotes and the
   * residual rule.
   */
  method Execute(book: OrderBook, order: Order) returns (result: seq<Trade>, bbo: Bbo, taker: Order)
    requires Sound(book) && HasPrice(order)
    requires var counter := Counter(book.State(), order);
      Priced(counter) && !(order.orderType == FOK && Available(counter, counter.prices, order) < order.Remaining())
    modifies book
    ensures Sound(book)
    ensures var r := Submit(old(book.State()), order);
      book.State() == r.book && result == r.trades && taker == r.taker
    ensures bbo == BboOf(book.State())
  {
    ghost var before := book.State();
    SubmitKeepsBook(before, order);
    SubmitKeepsUncrossed(before, order);
    var counter := if order.side == Buy then book.asks else book.bids;
    var ladder;
    ladder, taker, result := MatchLevels(counter, order);
    if order.side == Buy {
      book.asks := ladder;
    } else {
      book.bids := ladder;
    }
    book.UpdateBbo();
    if taker.Remaining() > 0 {
      match order.orderType
      case Market =>
      case IOC =>
      case FOK =>
      case Limit =>
        book.AddOrder(taker);
    }
    var bid := book.GetBestBid();
    var ask := book.GetBestAsk();
    bbo := Ladders.Bbo(bid, ask);
  }

  /** A valid book that holds only live orders and is not crossed. */
  ghost predicate Sound(book: OrderBook)
    reads book
  {
    book.Valid() && LiveBook(book.State()) && Uncrossed(book.State())
  }

  class MatchingEngine {
    /** symbol -> the order book of that symbol */
    var orderBooks: map<string, OrderBook>
    /** Every trade ever executed, in execution order. */
    var trades: seq<Trade>
    /** The books the engine owns; contains every book in `orderBooks`. */
    ghost var books: set<OrderBook>

    /**
     * Every book is owned by the engine, filed under its own symbol (so
     * distinct symbols own distinct books), valid, holds only orders with
     * something left to fill, and has no bid at or above an ask.
     */
    ghost predicate Valid()
      reads this, books
    {
      && (forall s :: s in orderBooks ==> orderBooks[s] in books && orderBooks[s].symbol == s)
      && (forall b :: b in books ==> Sound(b))
    }

    /** The state of a symbol's book, empty for a symbol not seen yet. */
    ghost function StateOf(symbol: string): (s: BookState)
      requires Valid()
      reads this, books
      ensures ValidBook(s) && LiveBook(s) && Uncrossed(s)
      ensures Priced(s.bids) && Priced(s.asks)
    {
      var s := if symbol in orderBooks then orderBooks[symbol].State() else EmptyBook();
      WellFormedIsPriced(s.bids);
      WellFormedIsPriced(s.asks);
      s
    }

    constructor ()
      ensures Valid() && orderBooks == map[] && trades == []
    {
      orderBooks := map[];
      trades := [];
      books := {};
    }

    /** The book of a symbol, created empty the first time the symbol is seen. */
    method GetBook(symbol: string) returns (book: OrderBook)
      requires Valid()
      modifies this
      ensures Valid() && trades == old(trades)
      ensures orderBooks == old(orderBooks)[symbol := book] && book.symbol == symbol
      ensures symbol in old(orderBooks) ==> book == old(orderBooks[symbol])
      ensures symbol !in old(orderBooks) ==> fresh(book) && book.State() == EmptyBook()
    {
      if symbol !in orderBooks {
        book := new OrderBook(symbol);
        orderBooks := orderBooks[symbol := book];
        books := books + {book};
      } else {
        book := orderBooks[symbol];
        assert orderBooks == orderBooks[symbol := book];
      }
    }

    /** The best bid and best ask of a symbol (both None for a new symbol). */
    method Bbo(symbol: string) returns (b: Bbo)
      requires Valid()
      modifies this
      ensures Valid() && trades == old(trades)
      ensures symbol in orderBooks && b == BboOf(orderBooks[symbol].State())
      ensures orderBooks == old(orderBooks)[symbol := orderBooks[symbol]]
      ensures symbol in old(orderBooks) ==> orderBooks[symbol] == old(orderBooks[symbol])
      ensures symbol !in old(orderBooks) ==> b == Ladders.Bbo(None, None)
    {
      var book := GetBook(symbol);
      assert orderBooks[symbol] == book;
      var bid := book.GetBestBid();
      var ask := book.GetBestAsk();
      b := Ladders.Bbo(bid, ask);
    }

    /**
     * Processes one incoming order against the book of its symbol (created
     * empty if the symbol is new) and returns the trades it made, the best
     * bid and offer afterwards, and the order with its fills. The book
     * becomes exactly what `Submit` describes, every trade is appended to
     * the audit log, and the books of other symbols are untouched.
     */
    method ProcessOrder(order: Order) returns (result: seq<Trade>, bbo: Bbo, taker: Order)
      requires Valid() && HasPrice(order)
      modifies this, books
      ensures Valid()
      ensures order.symbol in orderBooks
      ensures orderBooks == old(orderBooks)[order.symbol := orderBooks[order.symbol]]
      ensures order.symbol in old(orderBooks) ==> orderBooks[order.symbol] == old(orderBooks[order.symbol])
      ensures unchanged(old(books) - {orderBooks[order.symbol]})
      ensures var r := Submit(old(StateOf(order.symbol)), order);
        orderBooks[order.symbol].State() == r.book && result == r.trades && taker == r.taker
      ensures trades == old(trades) + result
      ensures bbo == BboOf(orderBooks[order.symbol].State())
    {
      ghost var before := StateOf(order.symbol);
      var book := GetBook(order.symbol);
      assert book.State() == before;
      assert orderBooks[order.symbol] == book;
      result, bbo, taker := MatchOrder(book, order);
      trades := trades + result;
    }
  }
}
