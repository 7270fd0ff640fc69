// The matching rules of the engine as functions on values, and what they
// guarantee: price-time priority, the maker-price rule, conservation of
// quantity, the all-or-nothing rule for fill-or-kill orders, and that a
// book that was not crossed stays uncrossed.

module Matching {
  import opened Orders
  import opened Trades
  import opened Ladders

  /**
   * Whether the incoming order may trade at a level: a market order at any
   * level, a limit, IOC or FOK buy at levels up to its price, and a sell at
   * levels down to its price.
   */
  function Marketable(o: Order, levelPrice: int): (r: bool)
    requires HasPrice(o)
    ensures o.orderType == Market ==> r
    ensures o.orderType != Market ==>
      (r <==> levelPrice == o.price.value || Ahead(Opposite(o.side), levelPrice, o.price.value))
  {
    match o.orderType
    case Market => true
    case Limit | IOC | FOK =>
      if o.side == Buy then levelPrice <= o.price.value else levelPrice >= o.price.value
  }

  /** The trade of one step: at the maker's price, maker and taker identified. */
  function MakeTrade(taker: Order, resting: Order, qty: int): (tr: Trade)
    requires resting.price.Some?
    ensures tr.price == resting.price.value && tr.quantity == qty
    ensures tr.makerOrderId == resting.id && tr.takerOrderId == taker.id
    ensures tr.symbol == taker.symbol && tr.aggressorSide == taker.side
  {
    Trade(taker.symbol, resting.price.value, qty, resting.id, taker.id, taker.side)
  }

  ghost predicate PricedQueue(q: seq<Order>) {
    forall i :: 0 <= i < |q| ==> q[i].price.Some?
  }

  datatype Fills = Fills(queue: seq<Order>, taker: Order, trades: seq<Trade>)

  /**
   * The inner loop: trades the incoming order against one price level,
   * front of the queue first. A resting order leaves the queue only when
   * its remaining quantity reaches zero; otherwise it stays at the front.
   */
  function FillQueue(q: seq<Order>, t: Order): (r: Fills)
    requires PricedQueue(q)
    ensures r.taker == t.(filled := r.taker.filled)
    decreases |q|, if t.Remaining() > 0 then 1 else 0
  {
    if q == [] || t.Remaining() <= 0 then Fills(q, t, [])
    else
      var resting := q[0];
      var qty := Min(t.Remaining(), resting.Remaining());
      var trade := MakeTrade(t, resting, qty);
      var resting' := Fill(resting, qty);
      var t' := Fill(t, qty);
      var next := if resting'.Remaining() == 0 then q[1..] else [resting'] + q[1..];
      var rest := FillQueue(next, t');
      Fills(rest.queue, rest.taker, [trade] + rest.trades)
  }

  datatype WalkResult = WalkResult(ladder: Ladder, taker: Order, trades: seq<Trade>)

  /**
   * The outer loop: walks the opposite side best level first while the
   * incoming order has something left and the level is marketable. A level
   * that is emptied is deleted from the map and the sorted list.
   */
  function Walk(l: Ladder, t: Order): (r: WalkResult)
    requires HasPrice(t) && Priced(l)
    ensures r.taker == t.(filled := r.taker.filled)
    decreases |l.prices|
  {
    if t.Remaining() <= 0 || l.prices == [] then WalkResult(l, t, [])
    else
      var p := l.prices[0];
      if !Marketable(t, p) then WalkResult(l, t, [])
      else
        var f := FillQueue(Level(l, p), t);
        if f.queue == [] then
          var w := Walk(DropBest(l), f.taker);
          WalkResult(w.ladder, w.taker, f.trades + w.trades)
        else
          WalkResult(l.(levels := l.levels[p := f.queue]), f.taker, f.trades)
  }

  /** The fill-or-kill pre-check: remaining quantity summed over the marketable levels listed. */
  function Available(l: Ladder, prices: seq<int>, t: Order): (r: int)
    requires HasPrice(t)
    ensures (forall i :: 0 <= i < |prices| ==> !Marketable(t, prices[i])) ==> r == 0
  {
    if prices == [] then 0
    else
      (if Marketable(t, prices[0]) then QueueRemaining(Level(l, prices[0])) else 0)
      + Available(l, prices[1..], t)
  }

  datatype Submission = Submission(book: BookState, trades: seq<Trade>, taker: Order)

  /** The side an incoming order trades against. */
  function Counter(s: BookState, o: Order): (r: Ladder)
    ensures ValidBook(s) ==> r.side == Opposite(o.side) && WellFormed(r)
  {
    SideOf(s, Opposite(o.side))
  }

  /**
   * One submission: the fill-or-kill pre-check, the walk over the opposite
   * side, then the residual rule (only a limit order rests what is left).
   */
  function Submit(s: BookState, o: Order): (r: Submission)
    requires HasPrice(o) && Priced(Counter(s, o))
    ensures r.taker == o.(filled := r.taker.filled)
  {
    var counter := Counter(s, o);
    if o.orderType == FOK && Available(counter, counter.prices, o) < o.Remaining() then
      Submission(s, [], o)
    else
      var w := Walk(counter, o);
      var s1 := WithSide(s, Opposite(o.side), w.ladder);
      if w.taker.Remaining() > 0 && o.orderType == Limit then
        Submission(AddToBook(s1, w.taker), w.trades, w.taker)
      else
        Submission(s1, w.trades, w.taker)
  }

  // ---------------------------------------------------------------------
  // One level

  lemma QueueRemainingCons(o: Order, q: seq<Order>)
    ensures QueueRemaining([o] + q) == o.Remaining() + QueueRemaining(q)
  {
    assert ([o] + q)[1..] == q;
  }

  lemma SumQuantityCons(t: Trade, ts: seq<Trade>)
    ensures SumQuantity([t] + ts) == t.quantity + SumQuantity(ts)
  {
    assert ([t] + ts)[1..] == ts;
  }

  /**
   * Quantity is conserved at one level: the taker's fill grows by the sum of
   * the trades, the level's remaining quantity shrinks by the same sum, the
   * taker never overfills, and the walk leaves a level only when it is empty
   * or the taker is done.
   */
  lemma {:induction false} FillQueueAccounting(q: seq<Order>, t: Order)
    requires PricedQueue(q)
    ensures var r := FillQueue(q, t);
      && SumQuantity(r.trades) == r.taker.filled - t.filled
      && QueueRemaining(q) - QueueRemaining(r.queue) == SumQuantity(r.trades)
      && (t.Remaining() <= 0 ==> r == Fills(q, t, []))
      && (t.Remaining() > 0 ==> r.taker.Remaining() >= 0)
      && (r.queue != [] ==> r.taker.Remaining() <= 0)
    decreases |q|, if t.Remaining() > 0 then 1 else 0
  {
    if q != [] && t.Remaining() > 0 {
      var resting := q[0];
      var qty := Min(t.Remaining(), resting.Remaining());
      var trade := MakeTrade(t, resting, qty);
      var resting' := Fill(resting, qty);
      var t' := Fill(t, qty);
      var next := if resting'.Remaining() == 0 then q[1..] else [resting'] + q[1..];
      var rest := FillQueue(next, t');
      FillQueueAccounting(next, t');
      SumQuantityCons(trade, rest.trades);
      QueueRemainingCons(resting, q[1..]);
      assert q == [resting] + q[1..];
      if resting'.Remaining() != 0 {
        QueueRemainingCons(resting', q[1..]);
      }
    }
  }

  /** What is left of a level still holds only priced orders. */
  lemma {:induction false} FillQueuePriced(q: seq<Order>, t: Order)
    requires PricedQueue(q)
    ensures PricedQueue(FillQueue(q, t).queue)
    decreases |q|, if t.Remaining() > 0 then 1 else 0
  {
    if q != [] && t.Remaining() > 0 {
      var qty := Min(t.Remaining(), q[0].Remaining());
      var resting' := Fill(q[0], qty);
      var next := if resting'.Remaining() == 0 then q[1..] else [resting'] + q[1..];
      assert PricedQueue(next);
      FillQueuePriced(next, Fill(t, qty));
    }
  }

  /**
   * The trades `ts` are what consuming the queue `q` from its front yields
   * for taker `t`: the k-th trade is against the k-th order, at that order's
   * price, for the smaller of what the taker still needs and what that order
   * still offers.
   */
  ghost predicate TradesFollow(ts: seq<Trade>, q: seq<Order>, t: Order) {
    && |ts| <= |q|
    && forall i :: 0 <= i < |ts| ==>
         && q[i].price.Some?
         && ts[i] == MakeTrade(t, q[i], Min(t.Remaining() - SumQuantity(ts[..i]), q[i].Remaining()))
  }

  /**
   * What is left of the queue `q0` after the trades `ts`: every maker but the
   * last one traded was filled completely and is gone; the last one is gone
   * too when its trade filled it completely, and otherwise it stays at the
   * front with that trade's quantity filled and something still left.
   */
  ghost predicate LevelAfter(q0: seq<Order>, ts: seq<Trade>, q: seq<Order>) {
    && |ts| <= |q0|
    && (forall i :: 0 <= i < |ts| - 1 ==> ts[i].quantity == q0[i].Remaining())
    && if 0 < |ts| && ts[|ts| - 1].quantity != q0[|ts| - 1].Remaining() then
         && ts[|ts| - 1].quantity < q0[|ts| - 1].Remaining()
         && q == [Fill(q0[|ts| - 1], ts[|ts| - 1].quantity)] + q0[|ts|..]
       else
         q == q0[|ts|..]
  }

  /** Consuming two queues one after the other is consuming their concatenation. */
  lemma {:induction false} TradesFollowConcat(a: seq<Trade>, b: seq<Trade>, q1: seq<Order>, q2: seq<Order>, t: Order, t': Order)
    requires |a| == |q1| && TradesFollow(a, q1, t) && TradesFollow(b, q2, t')
    requires t' == t.(filled := t'.filled) && t'.filled == t.filled + SumQuantity(a)
    ensures TradesFollow(a + b, q1 + q2, t)
  {
    forall i | 0 <= i < |a + b|
      ensures (q1 + q2)[i].price.Some?
      ensures (a + b)[i] == MakeTrade(t, (q1 + q2)[i], Min(t.Remaining() - SumQuantity((a + b)[..i]), (q1 + q2)[i].Remaining()))
    {
      if i < |a| {
        assert (a + b)[i] == a[i] && (q1 + q2)[i] == q1[i];
        assert (a + b)[..i] == a[..i];
      } else {
        var j := i - |a|;
        assert (a + b)[i] == b[j] && (q1 + q2)[i] == q2[j];
        assert (a + b)[..i] == a + b[..j];
        SumQuantityAppend(a, b[..j]);
      }
    }
  }

  /** Trades that consume a queue also consume any longer queue it starts. */
  lemma TradesFollowPrefix(ts: seq<Trade>, q: seq<Order>, rest: seq<Order>, t: Order)
    requires TradesFollow(ts, q, t)
    ensures TradesFollow(ts, q + rest, t)
  {
    forall i | 0 <= i < |ts| ensures (q + rest)[i] == q[i] { }
  }

  /** Time priority at one level (see TradesFollow). */
  lemma {:induction false} FillQueueFifo(q: seq<Order>, t: Order)
    requires PricedQueue(q)
    ensures TradesFollow(FillQueue(q, t).trades, q, t)
    decreases |q|, if t.Remaining() > 0 then 1 else 0
  {
    var r := FillQueue(q, t);
    if q != [] && t.Remaining() > 0 {
      var resting := q[0];
      var qty := Min(t.Remaining(), resting.Remaining());
      var trade := MakeTrade(t, resting, qty);
      var resting' := Fill(resting, qty);
      var t' := Fill(t, qty);
      assert TradesFollow([trade], [resting], t) by {
        assert [trade][..0] == [];
      }
      SumQuantityCons(trade, []);
      if resting'.Remaining() == 0 {
        FillQueueFifo(q[1..], t');
        TradesFollowConcat([trade], FillQueue(q[1..], t').trades, [resting], q[1..], t, t');
        assert [resting] + q[1..] == q;
      } else {
        var next := [resting'] + q[1..];
        FillQueueAccounting(next, t');
        assert r.trades == [trade];
      }
    }
  }

  /** A maker filled completely by the first trade leaves the queue before the rest is consumed. */
  lemma LevelAfterPop(q: seq<Order>, trade: Trade, ts: seq<Trade>, rest: seq<Order>)
    requires q != [] && trade.quantity == q[0].Remaining() && LevelAfter(q[1..], ts, rest)
    ensures LevelAfter(q, [trade] + ts, rest)
  {
    var r := [trade] + ts;
    var k := |ts|;
    assert q[1..][k..] == q[k + 1..];
    if 0 < k {
      assert q[1..][k - 1] == q[k] && ts[k - 1] == r[k];
    }
    forall i | 0 <= i < |r| - 1 ensures r[i].quantity == q[i].Remaining() {
      if 0 < i {
        assert r[i] == ts[i - 1] && q[i] == q[1..][i - 1];
      }
    }
  }

  /** The queue left behind at one level (see LevelAfter). */
  lemma {:induction false} FillQueueShape(q: seq<Order>, t: Order)
    requires PricedQueue(q)
    ensures LevelAfter(q, FillQueue(q, t).trades, FillQueue(q, t).queue)
    decreases |q|, if t.Remaining() > 0 then 1 else 0
  {
    var r := FillQueue(q, t);
    if q != [] && t.Remaining() > 0 {
      var resting := q[0];
      var qty := Min(t.Remaining(), resting.Remaining());
      var trade := MakeTrade(t, resting, qty);
      var resting' := Fill(resting, qty);
      var t' := Fill(t, qty);
      if resting'.Remaining() == 0 {
        var rest := FillQueue(q[1..], t');
        FillQueueShape(q[1..], t');
        LevelAfterPop(q, trade, rest.trades, rest.queue);
      } else {
        var next := [resting'] + q[1..];
        FillQueueAccounting(next, t');
        assert r.trades == [trade];
      }
    }
  }

  // ---------------------------------------------------------------------
  // The walk over one side

  lemma {:induction false} QueueRemainingAppend(a: seq<Order>, b: seq<Order>)
    ensures QueueRemaining(a + b) == QueueRemaining(a) + QueueRemaining(b)
  {
    if a != [] {
      assert (a + b)[1..] == a[1..] + b;
      QueueRemainingAppend(a[1..], b);
    } else {
      assert a + b == b;
    }
  }

  /**
   * Quantity is conserved by the walk: the taker's fill grows by exactly the
   * traded quantity, which never exceeds what the taker had left at entry;
   * an order with nothing left trades nothing and changes nothing; and the
   * walk only ever removes levels from the front of the sorted list.
   */
  /** The walk keeps the side and only removes levels from the front of the sorted list. */
  lemma {:induction false} WalkSuffix(l: Ladder, t: Order)
    requires HasPrice(t) && Priced(l)
    ensures var w := Walk(l, t);
      && w.ladder.side == l.side
      && |w.ladder.prices| <= |l.prices|
      && w.ladder.prices == l.prices[|l.prices| - |w.ladder.prices|..]
    decreases |l.prices|
  {
    if t.Remaining() > 0 && l.prices != [] && Marketable(t, l.prices[0]) {
      var f := FillQueue(Level(l, l.prices[0]), t);
      if f.queue == [] {
        var d := DropBest(l);
        assert Priced(d);
        WalkSuffix(d, f.taker);
        SuffixOfTail(l.prices, d.prices, Walk(d, f.taker).ladder.prices);
      }
    }
  }

  lemma {:induction false} WalkAccounting(l: Ladder, t: Order)
    requires HasPrice(t) && Priced(l)
    ensures var w := Walk(l, t);
      && SumQuantity(w.trades) == w.taker.filled - t.filled
      && (t.Remaining() <= 0 ==> w == WalkResult(l, t, []))
      && (t.Remaining() > 0 ==> w.taker.Remaining() >= 0)
      && w.ladder.side == l.side
      && |w.ladder.prices| <= |l.prices|
      && w.ladder.prices == l.prices[|l.prices| - |w.ladder.prices|..]
    decreases |l.prices|
  {
    WalkSuffix(l, t);
    if t.Remaining() > 0 && l.prices != [] && Marketable(t, l.prices[0]) {
      var p := l.prices[0];
      var f := FillQueue(Level(l, p), t);
      FillQueueAccounting(Level(l, p), t);
      if f.queue == [] {
        var d := DropBest(l);
        assert Priced(d);
        var w := Walk(d, f.taker);
        WalkAccounting(d, f.taker);
        SumQuantityAppend(f.trades, w.trades);
      }
    }
  }

  /**
   * One turn of the outer loop: from a marketable best level, the walk is
   * the fills at that level followed by the walk from the side they leave
   * behind; a level is left non-empty only when the taker is done.
   */
  lemma WalkStep(l: Ladder, t: Order)
    requires HasPrice(t) && WellFormed(l) && t.Remaining() > 0 && l.prices != [] && Marketable(t, l.prices[0])
    ensures var p := l.prices[0];
      var f := FillQueue(l.levels[p], t);
      var next := if f.queue == [] then DropBest(l) else l.(levels := l.levels[p := f.queue]);
      && (f.queue != [] ==> f.taker.Remaining() <= 0)
      && (f.queue == [] ==> WellFormed(next))
      && Priced(next)
      && var w := Walk(next, f.taker);
         Walk(l, t) == WalkResult(w.ladder, w.taker, f.trades + w.trades)
  {
    var p := l.prices[0];
    assert p in l.prices;
    WellFormedIsPriced(l);
    FillQueueAccounting(l.levels[p], t);
    FillQueuePriced(l.levels[p], t);
    DropBestWellFormed(l);
    WellFormedIsPriced(DropBest(l));
  }

  /** The walk keeps the side invariant, and keeps every resting order live. */
  lemma {:induction false} WalkInvariant(l: Ladder, t: Order)
    requires HasPrice(t) && WellFormed(l)
    ensures WellFormed(Walk(l, t).ladder)
    ensures Live(l) ==> Live(Walk(l, t).ladder)
    decreases |l.prices|
  {
    if t.Remaining() > 0 && l.prices != [] && Marketable(t, l.prices[0]) {
      var p := l.prices[0];
      var q := Level(l, p);
      var f := FillQueue(q, t);
      if f.queue == [] {
        DropBestWellFormed(l);
        WalkInvariant(DropBest(l), f.taker);
      } else {
        FillQueueShape(q, t);
        var k := |f.trades|;
        var r := l.(levels := l.levels[p := f.queue]);
        assert p in l.prices;
        forall i | 0 <= i < |f.queue|
          ensures f.queue[i].price == Some(p) && f.queue[i].side == l.side
          ensures Live(l) ==> f.queue[i].Remaining() > 0
        {
          if f.queue == q[k..] {
            assert f.queue[i] == q[k + i];
          } else if i == 0 {
            assert f.queue[0] == Fill(q[k - 1], f.trades[k - 1].quantity);
          } else {
            assert f.queue[i] == q[k + i - 1];
          }
        }
        assert WellFormed(r);
      }
    }
  }

  /**
   * Price-time priority over a whole side: the trades consume the side's
   * resting orders in price-time order (best level first, FIFO within a
   * level), each at the maker's price and for the smaller of the two
   * remaining quantities.
   */
  lemma {:induction false} WalkPriority(l: Ladder, t: Order)
    requires HasPrice(t) && WellFormed(l)
    ensures TradesFollow(Walk(l, t).trades, Queued(l), t)
    decreases |l.prices|
  {
    var w := Walk(l, t);
    if t.Remaining() > 0 && l.prices != [] && Marketable(t, l.prices[0]) {
      var p := l.prices[0];
      var q := Level(l, p);
      var f := FillQueue(q, t);
      var d := DropBest(l);
      FillQueueFifo(q, t);
      QueuedFront(l, f.queue);
      if f.queue == [] {
        FillQueueShape(q, t);
        assert |f.trades| == |q|;
        FillQueueAccounting(q, t);
        DropBestWellFormed(l);
        WalkPriority(d, f.taker);
        TradesFollowConcat(f.trades, Walk(d, f.taker).trades, q, Queued(d), t, f.taker);
      } else {
        TradesFollowPrefix(f.trades, q, Queued(d), t);
      }
    }
  }

  lemma LevelAfterAfterFull(q: seq<Order>, a: seq<Trade>, qs: seq<Order>, b: seq<Trade>, rest: seq<Order>)
    requires LevelAfter(q, a, []) && LevelAfter(qs, b, rest)
    ensures LevelAfter(q + qs, a + b, rest)
  {
    var k := |a + b|;
    assert |a| == |q|;
    assert (q + qs)[k..] == qs[|b|..];
    forall i | 0 <= i < k - 1 ensures (a + b)[i].quantity == (q + qs)[i].Remaining() {
      if i < |a| {
        assert (a + b)[i] == a[i] && (q + qs)[i] == q[i];
      } else {
        assert (a + b)[i] == b[i - |a|] && (q + qs)[i] == qs[i - |a|];
      }
    }
    if 0 < |b| {
      assert (a + b)[k - 1] == b[|b| - 1];
      assert (q + qs)[k - 1] == qs[|b| - 1];
    }
  }

  lemma LevelAfterExtend(q: seq<Order>, a: seq<Trade>, q': seq<Order>, qs: seq<Order>)
    requires LevelAfter(q, a, q')
    ensures LevelAfter(q + qs, a, q' + qs)
  {
    var k := |a|;
    assert (q + qs)[k..] == q[k..] + qs;
    forall i | 0 <= i < k - 1 ensures a[i].quantity == (q + qs)[i].Remaining() {
      assert (q + qs)[i] == q[i];
    }
    if 0 < k {
      assert (q + qs)[k - 1] == q[k - 1];
      if q' != q[k..] {
        assert q' + qs == [Fill(q[k - 1], a[k - 1].quantity)] + (q[k..] + qs);
      }
    }
  }

  /**
   * What the walk leaves on the side is the rest of its price-time ordered
   * resting orders: the fully filled ones are gone and a partially filled
   * maker is still first.
   */
  lemma {:induction false} WalkLeaves(l: Ladder, t: Order)
    requires HasPrice(t) && WellFormed(l)
    ensures LevelAfter(Queued(l), Walk(l, t).trades, Queued(Walk(l, t).ladder))
    decreases |l.prices|
  {
    if t.Remaining() > 0 && l.prices != [] && Marketable(t, l.prices[0]) {
      var p := l.prices[0];
      var q := Level(l, p);
      var f := FillQueue(q, t);
      var d := DropBest(l);
      FillQueueShape(q, t);
      QueuedFront(l, f.queue);
      if f.queue == [] {
        var w' := Walk(d, f.taker);
        DropBestWellFormed(l);
        WalkLeaves(d, f.taker);
        LevelAfterAfterFull(q, f.trades, Queued(d), w'.trades, Queued(w'.ladder));
      } else {
        LevelAfterExtend(q, f.trades, f.queue, Queued(d));
      }
    } else {
      assert Queued(l)[0..] == Queued(l);
    }
  }

  /**
   * Liquidity is conserved: the remaining quantity resting on the side
   * shrinks by exactly the quantity traded.
   */
  lemma {:induction false} WalkConservesLiquidity(l: Ladder, t: Order)
    requires HasPrice(t) && WellFormed(l)
    ensures QueueRemaining(Queued(l)) - QueueRemaining(Queued(Walk(l, t).ladder)) == SumQuantity(Walk(l, t).trades)
    decreases |l.prices|
  {
    if t.Remaining() > 0 && l.prices != [] && Marketable(t, l.prices[0]) {
      var p := l.prices[0];
      var q := Level(l, p);
      var f := FillQueue(q, t);
      var d := DropBest(l);
      FillQueueAccounting(q, t);
      QueuedFront(l, f.queue);
      QueueRemainingAppend(q, Queued(d));
      if f.queue == [] {
        var w' := Walk(d, f.taker);
        DropBestWellFormed(l);
        WalkConservesLiquidity(d, f.taker);
        SumQuantityAppend(f.trades, w'.trades);
      } else {
        QueueRemainingAppend(f.queue, Queued(d));
      }
    }
  }

  /** Marketability only worsens down a side's sorted price list. */
  lemma MarketableMonotone(t: Order, side: Side, a: int, b: int)
    requires HasPrice(t) && side != t.side && Ahead(side, a, b)
    ensures Marketable(t, b) ==> Marketable(t, a)
  {
  }

  /** Past the first level an order cannot trade at, nothing is available to it. */
  lemma {:induction false} AvailableBeyond(l: Ladder, ps: seq<int>, t: Order)
    requires HasPrice(t) && Sorted(l.side, ps) && l.side != t.side
    requires ps != [] && !Marketable(t, ps[0])
    ensures Available(l, ps, t) == 0
    decreases |ps|
  {
    if |ps| > 1 {
      MarketableMonotone(t, l.side, ps[0], ps[1]);
      AvailableBeyond(l, ps[1..], t);
    }
  }

  lemma {:induction false} AvailableFrame(l1: Ladder, l2: Ladder, ps: seq<int>, t1: Order, t2: Order)
    requires HasPrice(t1) && t2 == t1.(filled := t2.filled)
    requires forall p :: p in ps ==> Level(l1, p) == Level(l2, p)
    ensures Available(l1, ps, t1) == Available(l2, ps, t2)
    decreases |ps|
  {
    if ps != [] {
      AvailableFrame(l1, l2, ps[1..], t1, t2);
    }
  }

  /**
   * When the walk ends with quantity left, it has used up every marketable
   * level, so what is left is the entry quantity less the pre-check's sum,
   * and the side's best price (if any) is not marketable.
   */
  lemma {:induction false} WalkStops(l: Ladder, t: Order)
    requires HasPrice(t) && WellFormed(l) && l.side != t.side
    ensures var w := Walk(l, t);
      w.taker.Remaining() > 0 ==>
        && (w.ladder.prices == [] || !Marketable(t, w.ladder.prices[0]))
        && w.taker.Remaining() == t.Remaining() - Available(l, l.prices, t)
    decreases |l.prices|
  {
    if t.Remaining() > 0 && l.prices != [] {
      var p := l.prices[0];
      if !Marketable(t, p) {
        AvailableBeyond(l, l.prices, t);
      } else {
        var q := Level(l, p);
        var f := FillQueue(q, t);
        FillQueueAccounting(q, t);
        if f.queue == [] {
          var d := DropBest(l);
          DropBestWellFormed(l);
          WalkStops(d, f.taker);
          assert d.prices == l.prices[1..];
          forall x | x in l.prices[1..] ensures Level(d, x) == Level(l, x) {
            var j :| 0 <= j < |l.prices[1..]| && l.prices[1..][j] == x;
            SortedDistinct(l.side, l.prices, 0, j + 1);
          }
          AvailableFrame(l, d, l.prices[1..], t, f.taker);
        }
      }
    }
  }

  /**
   * The all-or-nothing rule: when the pre-check finds at least the order's
   * remaining quantity at marketable levels, the walk fills it completely.
   */
  lemma FokFeasibleFills(l: Ladder, t: Order)
    requires HasPrice(t) && WellFormed(l) && l.side != t.side
    requires Available(l, l.prices, t) >= t.Remaining()
    ensures Walk(l, t).taker.Remaining() <= 0
    ensures t.Remaining() >= 0 ==> Walk(l, t).taker.Remaining() == 0
  {
    WalkStops(l, t);
    WalkAccounting(l, t);
  }

  /**
   * Every trade in `ts` is at a price marketable for `t` that is among
   * `ps`, and at least as good as the best of `rest`.
   */
  ghost predicate TradePricesWithin(ts: seq<Trade>, t: Order, side: Side, ps: seq<int>, rest: seq<int>)
    requires HasPrice(t)
  {
    forall i :: 0 <= i < |ts| ==>
      && Marketable(t, ts[i].price)
      && ts[i].price in ps
      && (rest != [] ==> ts[i].price == rest[0] || Ahead(side, ts[i].price, rest[0]))
  }

  // TradePricesAt, TradePricesWiden and TradePricesConcat hold without a
  // proof; they are separate steps only so that TradePricesPrepend stays
  // within the solver's budget.
  lemma TradePricesAt(ts: seq<Trade>, t: Order, side: Side, ps: seq<int>, rest: seq<int>, p: int)
    requires HasPrice(t) && Marketable(t, p) && p in ps
    requires forall i :: 0 <= i < |ts| ==> ts[i].price == p
    requires rest != [] ==> p == rest[0] || Ahead(side, p, rest[0])
    ensures TradePricesWithin(ts, t, side, ps, rest)
  {
  }

  lemma TradePricesWiden(ts: seq<Trade>, t: Order, t': Order, side: Side, ps: seq<int>, ps': seq<int>, rest: seq<int>)
    requires HasPrice(t) && t' == t.(filled := t'.filled)
    requires TradePricesWithin(ts, t', side, ps', rest)
    requires forall x :: x in ps' ==> x in ps
    ensures TradePricesWithin(ts, t, side, ps, rest)
  {
  }

  lemma TradePricesConcat(a: seq<Trade>, b: seq<Trade>, t: Order, side: Side, ps: seq<int>, rest: seq<int>)
    requires HasPrice(t)
    requires TradePricesWithin(a, t, side, ps, rest) && TradePricesWithin(b, t, side, ps, rest)
    ensures TradePricesWithin(a + b, t, side, ps, rest)
  {
    forall i | |a| <= i < |a + b| ensures (a + b)[i] == b[i - |a|] { }
  }

  /** Every trade at a level is at that level's price. */
  lemma FillQueueAtPrice(q: seq<Order>, t: Order, p: int)
    requires forall i :: 0 <= i < |q| ==> q[i].price == Some(p)
    ensures forall i :: 0 <= i < |FillQueue(q, t).trades| ==> FillQueue(q, t).trades[i].price == p
  {
    FillQueueFifo(q, t);
  }

  /**
   * Every trade is at a marketable price that was on the side, and at a
   * price at least as good as the best price left on the side.
   */
  lemma {:induction false} WalkTradePrices(l: Ladder, t: Order)
    requires HasPrice(t) && WellFormed(l)
    ensures TradePricesWithin(Walk(l, t).trades, t, l.side, l.prices, Walk(l, t).ladder.prices)
    decreases |l.prices|
  {
    if t.Remaining() > 0 && l.prices != [] && Marketable(t, l.prices[0]) {
      var p := l.prices[0];
      var q := Level(l, p);
      var f := FillQueue(q, t);
      assert p in l.prices;
      FillQueueAtPrice(q, t, p);
      if f.queue == [] {
        var d := DropBest(l);
        var w' := Walk(d, f.taker);
        DropBestWellFormed(l);
        WellFormedIsPriced(d);
        WalkTradePrices(d, f.taker);
        WalkSuffix(d, f.taker);
        TradePricesPrepend(f.trades, w'.trades, t, f.taker, l.side, l.prices, d.prices, w'.ladder.prices);
      }
    }
  }

  /**
   * Trades at the best price followed by trades within the rest of the
   * list are within the whole list.
   */
  lemma TradePricesPrepend(a: seq<Trade>, b: seq<Trade>, t: Order, t': Order, side: Side, ps: seq<int>, tail: seq<int>, rest: seq<int>)
    requires HasPrice(t) && t' == t.(filled := t'.filled)
    requires Sorted(side, ps) && ps != [] && tail == ps[1..] && Marketable(t, ps[0])
    requires forall i :: 0 <= i < |a| ==> a[i].price == ps[0]
    requires |rest| <= |tail| && rest == tail[|tail| - |rest|..]
    requires TradePricesWithin(b, t', side, tail, rest)
    ensures TradePricesWithin(a + b, t, side, ps, rest)
  {
    SuffixOfTail(ps, tail, rest);
    if rest != [] {
      SuffixFront(ps, rest);
      assert Ahead(side, ps[0], ps[|ps| - |rest|]);
    }
    assert ps[0] in ps;
    TradePricesAt(a, t, side, ps, rest, ps[0]);
    TradePricesWiden(b, t, t', side, ps, tail, rest);
    TradePricesConcat(a, b, t, side, ps, rest);
  }

  /**
   * No trade-through: no trade of the walk is at a price worse than a price
   * still resting on the side afterwards.
   */
  lemma NoTradeThrough(l: Ladder, t: Order)
    requires HasPrice(t) && WellFormed(l)
    ensures var w := Walk(l, t);
      forall i, j :: 0 <= i < |w.trades| && 0 <= j < |w.ladder.prices| ==>
        w.trades[i].price == w.ladder.prices[j] || Ahead(l.side, w.trades[i].price, w.ladder.prices[j])
  {
    var w := Walk(l, t);
    WalkTradePrices(l, t);
    WalkInvariant(l, t);
    WalkAccounting(l, t);
    forall i, j | 0 <= i < |w.trades| && 0 < j < |w.ladder.prices|
      ensures Ahead(l.side, w.trades[i].price, w.ladder.prices[j])
    {
      assert Ahead(l.side, w.ladder.prices[0], w.ladder.prices[j]);
    }
  }

  /** The walk never improves the best price left on the side it consumes. */
  lemma WalkBestWorsens(l: Ladder, t: Order)
    requires HasPrice(t) && WellFormed(l)
    ensures var b := Best(Walk(l, t).ladder);
      b.None? || (Best(l).Some? && (b == Best(l) || Ahead(l.side, Best(l).value, b.value)))
  {
    var w := Walk(l, t);
    WalkAccounting(l, t);
    if w.ladder.prices != [] {
      SuffixFront(l.prices, w.ladder.prices);
    }
  }

  // ---------------------------------------------------------------------
  // One submission

  /** A submission keeps the book invariant and keeps every resting order live. */
  lemma SubmitKeepsBook(s: BookState, o: Order)
    requires HasPrice(o) && ValidBook(s)
    ensures ValidBook(Submit(s, o).book)
    ensures LiveBook(s) ==> LiveBook(Submit(s, o).book)
  {
    var counter := Counter(s, o);
    if !(o.orderType == FOK && Available(counter, counter.prices, o) < o.Remaining()) {
      var w := Walk(counter, o);
      WalkInvariant(counter, o);
      WalkAccounting(counter, o);
      var s1 := WithSide(s, Opposite(o.side), w.ladder);
      if w.taker.Remaining() > 0 && o.orderType == Limit {
        AddToBookValid(s1, w.taker);
        if LiveBook(s) {
          AppendLive(SideOf(s1, o.side), w.taker);
        }
      }
    }
  }

  /**
   * Conservation for one submission: the incoming order's fill grows by
   * exactly the traded quantity, which never exceeds its remaining quantity
   * at entry; an order with nothing to fill (a zero or negative quantity)
   * trades nothing and leaves the book as it was.
   */
  lemma SubmitConserves(s: BookState, o: Order)
    requires HasPrice(o) && ValidBook(s)
    ensures var r := Submit(s, o);
      && SumQuantity(r.trades) == r.taker.filled - o.filled
      && r.taker == o.(filled := r.taker.filled)
      && (o.Remaining() > 0 ==> 0 <= r.taker.Remaining() && SumQuantity(r.trades) <= o.Remaining())
      && (o.Remaining() <= 0 ==> r == Submission(s, [], o))
  {
    var counter := Counter(s, o);
    if !(o.orderType == FOK && Available(counter, counter.prices, o) < o.Remaining()) {
      WalkAccounting(counter, o);
    }
  }

  /**
   * Fill-or-kill is all or nothing: an order the pre-check finds infeasible
   * trades nothing and leaves the book untouched; otherwise it ends fully
   * filled and nothing of it rests.
   */
  lemma SubmitFillOrKill(s: BookState, o: Order)
    requires HasPrice(o) && ValidBook(s) && o.orderType == FOK
    ensures var r := Submit(s, o);
      var counter := Counter(s, o);
      && (Available(counter, counter.prices, o) < o.Remaining() ==> r == Submission(s, [], o))
      && (Available(counter, counter.prices, o) >= o.Remaining() ==>
            r.taker.Remaining() <= 0 && SideOf(r.book, o.side) == SideOf(s, o.side))
  {
    var counter := Counter(s, o);
    if Available(counter, counter.prices, o) >= o.Remaining() {
      FokFeasibleFills(counter, o);
    }
  }

  /**
   * The residual rule: what is left of a limit order rests at the back of
   * its own side; a market, IOC or FOK order, or one with nothing left,
   * leaves its own side as it was. The opposite side is what the walk left,
   * or unchanged when a fill-or-kill order is killed.
   */
  lemma SubmitResidual(s: BookState, o: Order)
    requires HasPrice(o) && ValidBook(s)
    ensures var r := Submit(s, o);
      var counter := Counter(s, o);
      var killed := o.orderType == FOK && Available(counter, counter.prices, o) < o.Remaining();
      && SideOf(r.book, o.side) ==
           (if !killed && o.orderType == Limit && r.taker.Remaining() > 0 then Append(SideOf(s, o.side), r.taker)
            else SideOf(s, o.side))
      && SideOf(r.book, Opposite(o.side)) == (if killed then counter else Walk(counter, o).ladder)
      && (r.taker.Remaining() <= 0 ==> SideOf(r.book, o.side) == SideOf(s, o.side))
  {
    var counter := Counter(s, o);
    WellFormedIsPriced(counter);
  }

  /**
   * No internal trade-through across the book: a book in which no bid is at
   * or above an ask is still so after any submission.
   */
  lemma SubmitKeepsUncrossed(s: BookState, o: Order)
    requires HasPrice(o) && ValidBook(s) && Uncrossed(s)
    ensures Uncrossed(Submit(s, o).book)
  {
    var counter := Counter(s, o);
    if !(o.orderType == FOK && Available(counter, counter.prices, o) < o.Remaining()) {
      var w := Walk(counter, o);
      WalkBestWorsens(counter, o);
      WalkStops(counter, o);
      var s1 := WithSide(s, Opposite(o.side), w.ladder);
      var own := SideOf(s, o.side);
      if w.taker.Remaining() > 0 && o.orderType == Limit {
        AppendBest(own, w.taker);
      }
    }
  }
}
