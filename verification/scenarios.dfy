// A worked scenario: a resting sell and a crossing buy on a fresh book.

module Scenarios {
  import opened Orders
  import opened Trades
  import opened Ladders
  import opened Matching

  /** A limit sell that meets no bid rests alone on an empty book. */
  lemma SellRests(sell: Order)
    requires sell.orderType == Limit && sell.side == Sell && sell.price == Some(100) && sell.Remaining() == 1
    ensures Submit(EmptyBook(), sell) == Submission(BookState(Ladder(Buy, map[], []), Ladder(Sell, map[100 := [sell]], [100])), [], sell)
  {
    assert Walk(Ladder(Buy, map[], []), sell) == WalkResult(Ladder(Buy, map[], []), sell, []);
    assert Append(Ladder(Sell, map[], []), sell) == Ladder(Sell, map[100 := [sell]], [100]);
  }

  /**
   * A limit buy of 1 at 105 against that book trades once, for 1 at the
   * resting price 100, is filled, and leaves both sides empty.
   */
  lemma BuyCrosses(sell: Order, buy: Order)
    requires sell.orderType == Limit && sell.side == Sell && sell.price == Some(100) && sell.Remaining() == 1
    requires buy.orderType == Limit && buy.side == Buy && buy.price == Some(105) && buy.Remaining() == 1
    ensures var r := Submit(BookState(Ladder(Buy, map[], []), Ladder(Sell, map[100 := [sell]], [100])), buy);
      && r.trades == [Trade(buy.symbol, 100, 1, sell.id, buy.id, Buy)]
      && r.taker.Remaining() == 0
      && BboOf(r.book) == Bbo(None, None)
  {
    var asks := Ladder(Sell, map[100 := [sell]], [100]);
    var f := FillQueue([sell], buy);
    assert [sell][1..] == [];
    assert FillQueue([], Fill(buy, 1)) == Fills([], Fill(buy, 1), []);
    assert f == Fills([], Fill(buy, 1), [Trade(buy.symbol, 100, 1, sell.id, buy.id, Buy)]);
    var empty := Ladder(Sell, map[], []);
    assert DropBest(asks) == empty;
    assert Walk(empty, Fill(buy, 1)) == WalkResult(empty, Fill(buy, 1), []);
    assert Walk(asks, buy) == WalkResult(empty, Fill(buy, 1), f.trades);
  }

  /**
   * The scenario end to end: a limit sell of 1 at 100 rests on a fresh
   * book, then a limit buy of 1 at 105 trades once at 100 and empties it.
   */
  lemma LimitOrderMatching(sell: Order, buy: Order)
    requires sell.orderType == Limit && sell.side == Sell && sell.price == Some(100) && sell.Remaining() == 1
    requires buy.orderType == Limit && buy.side == Buy && buy.price == Some(105) && buy.Remaining() == 1
    ensures var s1 := Submit(EmptyBook(), sell);
      && s1.trades == []
      && ValidBook(s1.book)
      && var r := Submit(s1.book, buy);
         && |r.trades| == 1 && r.trades[0].price == 100 && r.trades[0].quantity == 1
         && BboOf(r.book) == Bbo(None, None)
  {
    SellRests(sell);
    SubmitKeepsBook(EmptyBook(), sell);
    BuyCrosses(sell, buy);
  }
}
