// One side of an order book as a value, and the two-sided book state.
//
// Each side keeps a map from price to the FIFO queue of resting orders at
// that price, and the list of those prices sorted best first: descending
// for bids, ascending for asks. The engine walks the sorted list; the book's
// own add/remove operations keep it in step with the map.

module Ladders {
  import opened Orders

  /** Index of the first occurrence of `x` in `s`. */
  function IndexOf<T(==)>(s: seq<T>, x: T): (i: nat)
    requires x in s
    ensures i < |s| && s[i] == x && x !in s[..i]
  {
    if s[0] == x then 0
    else
      var j := IndexOf(s[1..], x);
      assert s[..j + 1] == [s[0]] + s[1..][..j];
      1 + j
  }

  /**
   * Removes the first occurrence of `x`, keeping the order of the rest
   * (a deque's or a list's `remove`); nothing happens when `x` is absent.
   */
  function RemoveFirst<T(==)>(s: seq<T>, x: T): (r: seq<T>)
    ensures x !in s ==> r == s
    ensures x in s ==> |r| == |s| - 1 && r[..IndexOf(s, x)] == s[..IndexOf(s, x)]
    ensures x in s ==> r[IndexOf(s, x)..] == s[IndexOf(s, x) + 1..]
  {
    if x in s then
      var i := IndexOf(s, x);
      s[..i] + s[i + 1..]
    else
      s
  }

  lemma RemoveFirstMembers<T>(s: seq<T>, x: T, y: T)
    requires x in s
    ensures y in RemoveFirst(s, x) ==> y in s
    ensures y in s && y != x ==> y in RemoveFirst(s, x)
  {
    var i := IndexOf(s, x);
    assert s == s[..i] + [s[i]] + s[i + 1..];
  }

  /**
   * The front of a non-empty suffix of `s` is the element of `s` where it starts.
   * Dafny knows this unaided; it is a separate step so that the callers' proofs stay small.
   */
  lemma SuffixFront<T>(s: seq<T>, r: seq<T>)
    requires |r| <= |s| && r == s[|s| - |r|..] && r != []
    ensures r[0] == s[|s| - |r|]
  {
  }

  /** A suffix of the tail of `s` is a suffix of `s`. */
  lemma SuffixOfTail<T>(s: seq<T>, tail: seq<T>, r: seq<T>)
    requires s != [] && tail == s[1..] && |r| <= |tail| && r == tail[|tail| - |r|..]
    ensures r == s[|s| - |r|..]
  {
    assert tail[|tail| - |r|..] == s[|s| - |r|..];
  }

  /** One side of a book. `side` is Buy for the bids and Sell for the asks. */
  datatype Ladder = Ladder(side: Side, levels: map<int, seq<Order>>, prices: seq<int>)

  /** `a` is a strictly better price than `b` on this side: higher for bids, lower for asks. */
  predicate Ahead(side: Side, a: int, b: int) {
    if side == Buy then a > b else a < b
  }

  ghost predicate Sorted(side: Side, prices: seq<int>) {
    forall i, j :: 0 <= i < j < |prices| ==> Ahead(side, prices[i], prices[j])
  }

  /**
   * The side invariant: the price list is strictly sorted best first and
   * lists exactly the prices of the map, no level is empty, and every
   * order at a level carries that price and this side.
   */
  ghost predicate WellFormed(l: Ladder) {
    && Sorted(l.side, l.prices)
    && (forall p :: p in l.levels <==> p in l.prices)
    && (forall p :: p in l.levels ==> l.levels[p] != [])
    && (forall p, i :: p in l.levels && 0 <= i < |l.levels[p]| ==>
          l.levels[p][i].price == Some(p) && l.levels[p][i].side == l.side)
  }

  /** Every resting order has a price, so a trade can take the maker's price. */
  ghost predicate Priced(l: Ladder) {
    forall p, i :: p in l.levels && 0 <= i < |l.levels[p]| ==> l.levels[p][i].price.Some?
  }

  /** Every resting order still has something to fill. */
  ghost predicate Live(l: Ladder) {
    forall p, i :: p in l.levels && 0 <= i < |l.levels[p]| ==> l.levels[p][i].Remaining() > 0
  }

  lemma WellFormedIsPriced(l: Ladder)
    requires WellFormed(l)
    ensures Priced(l)
  {
  }

  function LevelAt(levels: map<int, seq<Order>>, p: int): seq<Order> {
    if p in levels then levels[p] else []
  }

  /** The queue at price `p`, empty when there is none. */
  function Level(l: Ladder, p: int): seq<Order> {
    LevelAt(l.levels, p)
  }

  function QueueRemaining(q: seq<Order>): int {
    if q == [] then 0 else q[0].Remaining() + QueueRemaining(q[1..])
  }

  /** All resting orders of the side in price-time priority: best level first, FIFO within it. */
  function Queued(l: Ladder): seq<Order> {
    QueuedFrom(l.levels, l.prices)
  }

  function QueuedFrom(levels: map<int, seq<Order>>, prices: seq<int>): seq<Order> {
    if prices == [] then [] else LevelAt(levels, prices[0]) + QueuedFrom(levels, prices[1..])
  }

  /** The best price of the side (front of the sorted list), or None when the side is empty. */
  function Best(l: Ladder): (r: Option<int>)
    ensures r.Some? <==> l.prices != []
    ensures r.Some? ==> r.value in l.prices
    ensures WellFormed(l) ==> (r.None? <==> forall p :: p !in l.levels)
  {
    if l.prices == [] then None else Some(l.prices[0])
  }

  /** Inserts a new price into a list sorted best first. */
  function InsertPrice(side: Side, prices: seq<int>, p: int): (r: seq<int>)
    ensures |r| == |prices| + 1
    ensures forall x :: x in r <==> x in prices || x == p
    ensures Sorted(side, prices) && p !in prices ==> Sorted(side, r)
  {
    if prices == [] || Ahead(side, p, prices[0]) then [p] + prices
    else
      var rest := InsertPrice(side, prices[1..], p);
      assert forall x :: x in prices <==> x == prices[0] || x in prices[1..];
      assert Sorted(side, prices) && p !in prices ==> Sorted(side, [prices[0]] + rest) by {
        if Sorted(side, prices) && p !in prices {
          assert Sorted(side, prices[1..]);
          forall j | 0 <= j < |rest| ensures Ahead(side, prices[0], rest[j]) {
            assert rest[j] in rest;
            if rest[j] != p {
              var k :| 0 <= k < |prices[1..]| && prices[1..][k] == rest[j];
              assert prices[k + 1] == rest[j];
            }
          }
        }
      }
      [prices[0]] + rest
  }

  /** Removes a whole level: its map entry and its price in the sorted list. */
  function DeleteLevel(l: Ladder, p: int): (r: Ladder)
    ensures r.side == l.side && r.levels == l.levels - {p}
    ensures l.prices != [] && p == l.prices[0] ==> r.prices == l.prices[1..]
    ensures p in l.prices ==> |r.prices| == |l.prices| - 1
  {
    Ladder(l.side, l.levels - {p}, RemoveFirst(l.prices, p))
  }

  /**
   * Appends an order at the back of the queue at its price, creating the
   * level (and inserting its price into the sorted list) when absent.
   */
  function Append(l: Ladder, o: Order): (r: Ladder)
    requires o.price.Some?
    ensures r.side == l.side
    ensures Level(r, o.price.value) == Level(l, o.price.value) + [o]
    ensures forall p :: p != o.price.value ==> Level(r, p) == Level(l, p)
    ensures r.levels.Keys == l.levels.Keys + {o.price.value}
  {
    var p := o.price.value;
    if p in l.levels then l.(levels := l.levels[p := l.levels[p] + [o]])
    else Ladder(l.side, l.levels[p := [o]], InsertPrice(l.side, l.prices, p))
  }

  /** Whether the order is resting at its price on this side. */
  predicate Contains(l: Ladder, o: Order)
    ensures Contains(l, o) ==> o.price.Some? && o.price.value in l.levels
    ensures Contains(l, o) && WellFormed(l) ==> o.side == l.side
  {
    o.price.Some? && o in Level(l, o.price.value)
  }

  /**
   * Removes the first occurrence of the order from the level at its price,
   * deleting the level if it becomes empty; an absent order changes nothing.
   */
  function RemoveOrder(l: Ladder, o: Order): (r: Ladder)
    ensures r.side == l.side
    ensures !Contains(l, o) ==> r == l
    ensures Contains(l, o) ==>
      && Level(r, o.price.value) == RemoveFirst(Level(l, o.price.value), o)
      && (forall p :: p != o.price.value ==> Level(r, p) == Level(l, p))
  {
    if Contains(l, o) then
      var p := o.price.value;
      var q := RemoveFirst(l.levels[p], o);
      if q == [] then DeleteLevel(l, p) else l.(levels := l.levels[p := q])
    else l
  }

  // ---------------------------------------------------------------------
  // Facts about the side invariant

  lemma SortedDistinct(side: Side, s: seq<int>, i: int, j: int)
    requires Sorted(side, s) && 0 <= i < |s| && 0 <= j < |s| && i != j
    ensures s[i] != s[j]
  {
  }

  lemma {:induction false} SortedRemoveFirst(side: Side, s: seq<int>, x: int)
    requires Sorted(side, s)
    ensures Sorted(side, RemoveFirst(s, x))
  {
    if x in s {
      var k := IndexOf(s, x);
      var r := RemoveFirst(s, x);
      forall i, j | 0 <= i < j < |r|
        ensures Ahead(side, r[i], r[j])
      {
        var i' := if i < k then i else i + 1;
        var j' := if j < k then j else j + 1;
        assert r[i] == s[i'] && r[j] == s[j'];
      }
    }
  }

  /** A sorted list holds a price at most once, so removing it removes it for good. */
  lemma RemoveFirstSorted(side: Side, s: seq<int>, x: int)
    requires Sorted(side, s)
    ensures x !in RemoveFirst(s, x)
  {
    if x in s {
      var i := IndexOf(s, x);
      forall j | i < j < |s| ensures s[j] != x {
        SortedDistinct(side, s, i, j);
      }
      assert x !in s[i + 1..];
    }
  }

  lemma DeleteLevelWellFormed(l: Ladder, p: int)
    requires WellFormed(l)
    ensures WellFormed(DeleteLevel(l, p))
  {
    SortedRemoveFirst(l.side, l.prices, p);
    RemoveFirstSorted(l.side, l.prices, p);
    forall x | x != p && p in l.prices
      ensures x in l.prices <==> x in RemoveFirst(l.prices, p)
    {
      RemoveFirstMembers(l.prices, p, x);
    }
  }

  /**
   * Deletes the best level. A level the engine's walk empties is always the
   * front of the sorted list, so deleting it drops the list's head.
   */
  function DropBest(l: Ladder): Ladder
    requires l.prices != []
  {
    Ladder(l.side, l.levels - {l.prices[0]}, l.prices[1..])
  }

  lemma DropBestIsDeleteLevel(l: Ladder)
    requires l.prices != []
    ensures DropBest(l) == DeleteLevel(l, l.prices[0])
  {
  }

  lemma DropBestWellFormed(l: Ladder)
    requires WellFormed(l) && l.prices != []
    ensures WellFormed(DropBest(l))
  {
    var p := l.prices[0];
    var rest := l.prices[1..];
    forall j | 0 <= j < |rest| ensures rest[j] != p {
      SortedDistinct(l.side, l.prices, 0, j + 1);
    }
    forall x | x in l.prices && x != p ensures x in rest {
      var k :| 0 <= k < |l.prices| && l.prices[k] == x;
      assert rest[k - 1] == x;
    }
  }

  lemma {:induction false} AppendWellFormed(l: Ladder, o: Order)
    requires WellFormed(l) && o.price.Some?
    requires o.side == l.side
    ensures WellFormed(Append(l, o))
  {
    var p := o.price.value;
    var r := Append(l, o);
    forall q, i | q in r.levels && 0 <= i < |r.levels[q]|
      ensures r.levels[q][i].price == Some(q) && r.levels[q][i].side == r.side
    {
      if q == p {
        assert r.levels[q] == Level(l, p) + [o];
      } else {
        assert r.levels[q] == Level(l, q);
      }
    }
  }

  lemma AppendLive(l: Ladder, o: Order)
    requires Live(l) && o.price.Some? && o.Remaining() > 0
    ensures Live(Append(l, o))
  {
    var r := Append(l, o);
    forall p, i | p in r.levels && 0 <= i < |r.levels[p]|
      ensures r.levels[p][i].Remaining() > 0
    {
      if p == o.price.value {
        assert r.levels[p] == Level(l, p) + [o];
      } else {
        assert r.levels[p] == Level(l, p);
      }
    }
  }

  lemma {:induction false} RemoveOrderWellFormed(l: Ladder, o: Order)
    requires WellFormed(l)
    ensures WellFormed(RemoveOrder(l, o))
  {
    if Contains(l, o) {
      var p := o.price.value;
      var q := RemoveFirst(l.levels[p], o);
      if q == [] {
        DeleteLevelWellFormed(l, p);
      } else {
        var r := RemoveOrder(l, o);
        forall x, i | x in r.levels && 0 <= i < |r.levels[x]|
          ensures r.levels[x][i].price == Some(x) && r.levels[x][i].side == r.side
        {
          if x == p {
            var k := IndexOf(l.levels[p], o);
            var i' := if i < k then i else i + 1;
            assert r.levels[x][i] == l.levels[p][i'];
          }
        }
      }
    }
  }

  /**
   * The front of the sorted list is the best price of the map: the highest
   * bid or the lowest ask, and None exactly when the side is empty.
   */
  lemma BestIsExtreme(l: Ladder)
    requires WellFormed(l)
    ensures Best(l).None? <==> l.levels == map[]
    ensures Best(l).Some? ==> Best(l).value in l.levels
    ensures Best(l).Some? ==> forall p :: p in l.levels && p != Best(l).value ==> Ahead(l.side, Best(l).value, p)
  {
    if l.prices == [] {
      assert forall p :: p !in l.levels;
    } else {
      assert l.prices[0] in l.prices;
      forall p | p in l.levels && p != l.prices[0]
        ensures Ahead(l.side, l.prices[0], p)
      {
        var j :| 0 <= j < |l.prices| && l.prices[j] == p;
      }
    }
  }

  /** Resting an order on a side moves its best price to the order's price or keeps it. */
  lemma {:induction false} AppendBest(l: Ladder, o: Order)
    requires WellFormed(l) && o.price.Some? && o.side == l.side
    ensures Best(Append(l, o)) ==
      if Best(l).None? || Ahead(l.side, o.price.value, Best(l).value) then Some(o.price.value) else Best(l)
  {
    var p := o.price.value;
    if p in l.levels {
      BestIsExtreme(l);
    }
  }

  /** A side's queued orders with levels replaced only at prices outside the list. */
  lemma {:induction false} QueuedFrame(m1: map<int, seq<Order>>, m2: map<int, seq<Order>>, ps: seq<int>)
    requires forall p :: p in ps ==> LevelAt(m1, p) == LevelAt(m2, p)
    ensures QueuedFrom(m1, ps) == QueuedFrom(m2, ps)
  {
    if ps != [] {
      QueuedFrame(m1, m2, ps[1..]);
    }
  }

  /**
   * The queued orders of a side split into its best level and the rest;
   * replacing the best level's queue by `q` replaces the head of the split.
   */
  lemma {:induction false} QueuedFront(l: Ladder, q: seq<Order>)
    requires WellFormed(l) && l.prices != []
    ensures Queued(l) == Level(l, l.prices[0]) + Queued(DropBest(l))
    ensures Queued(l.(levels := l.levels[l.prices[0] := q])) == q + Queued(DropBest(l))
  {
    var p := l.prices[0];
    var rest := l.prices[1..];
    assert p !in rest by {
      forall j | 0 <= j < |rest| ensures rest[j] != p {
        SortedDistinct(l.side, l.prices, 0, j + 1);
      }
    }
    QueuedFrame(l.levels, l.levels - {p}, rest);
    QueuedFrame(l.levels[p := q], l.levels - {p}, rest);
  }

  // ---------------------------------------------------------------------
  // The two-sided book

  datatype BookState = BookState(bids: Ladder, asks: Ladder)

  /** Best bid and best ask; None stands for an empty side. */
  datatype Bbo = Bbo(bid: Option<int>, ask: Option<int>)

  function EmptyBook(): BookState {
    BookState(Ladder(Buy, map[], []), Ladder(Sell, map[], []))
  }

  ghost predicate ValidBook(s: BookState) {
    && s.bids.side == Buy && s.asks.side == Sell
    && WellFormed(s.bids) && WellFormed(s.asks)
  }

  ghost predicate LiveBook(s: BookState) {
    Live(s.bids) && Live(s.asks)
  }

  /** No bid at or above an ask. */
  predicate Uncrossed(s: BookState) {
    Best(s.bids).None? || Best(s.asks).None? || Best(s.bids).value < Best(s.asks).value
  }

  function BboOf(s: BookState): Bbo {
    Bbo(Best(s.bids), Best(s.asks))
  }

  function SideOf(s: BookState, side: Side): Ladder {
    if side == Buy then s.bids else s.asks
  }

  function WithSide(s: BookState, side: Side, l: Ladder): BookState {
    if side == Buy then s.(bids := l) else s.(asks := l)
  }

  /** Rests an order on its own side: bids for a buy, asks for a sell. */
  function AddToBook(s: BookState, o: Order): (r: BookState)
    requires o.price.Some?
    ensures SideOf(r, o.side) == Append(SideOf(s, o.side), o)
    ensures o.side == Buy ==> r.asks == s.asks
    ensures o.side == Sell ==> r.bids == s.bids
  {
    WithSide(s, o.side, Append(SideOf(s, o.side), o))
  }

  /** Removes a resting order from its own side, if it is there. */
  function RemoveFromBook(s: BookState, o: Order): (r: BookState)
    ensures SideOf(r, o.side) == RemoveOrder(SideOf(s, o.side), o)
    ensures o.side == Buy ==> r.asks == s.asks
    ensures o.side == Sell ==> r.bids == s.bids
  {
    WithSide(s, o.side, RemoveOrder(SideOf(s, o.side), o))
  }

  lemma AddToBookValid(s: BookState, o: Order)
    requires ValidBook(s) && o.price.Some?
    ensures ValidBook(AddToBook(s, o))
  {
    AppendWellFormed(SideOf(s, o.side), o);
  }

  lemma RemoveFromBookValid(s: BookState, o: Order)
    requires ValidBook(s)
    ensures ValidBook(RemoveFromBook(s, o))
  {
    RemoveOrderWellFormed(SideOf(s, o.side), o);
  }
}
