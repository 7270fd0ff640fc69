// The registry of market-data subscriptions: which feed of which symbol
// each connected client listens to, kept both ways so that a broadcast can
// find the subscribers of a feed without scanning every client.

module Subscriptions {

  /** A connected client; the server keys its maps by the socket object itself. */
  type Socket = nat

  /** A (feed, symbol) pair, such as ("trades", "BTC-USDT"). */
  type Key = (string, string)

  /** The set filed under `k`, or the empty set when there is none. */
  function Get<K, V>(m: map<K, set<V>>, k: K): set<V> {
    if k in m then m[k] else {}
  }

  /** No key is kept with an empty set: an emptied entry is removed. */
  ghost predicate NoEmpty<K, V>(m: map<K, set<V>>) {
    forall k :: k in m ==> m[k] != {}
  }

  /** The index lists exactly the sockets whose subscriptions hold the key. */
  ghost predicate Mirror(subs: map<Socket, set<Key>>, index: map<Key, set<Socket>>) {
    forall w: Socket, k: Key :: k in Get(subs, w) <==> w in Get(index, k)
  }

  /** Adds `v` to the set under `k`, creating the entry when it is missing. */
  function Insert<K(!new), V>(m: map<K, set<V>>, k: K, v: V): (r: map<K, set<V>>)
    ensures r.Keys == m.Keys + {k}
    ensures Get(r, k) == Get(m, k) + {v}
    ensures forall k' :: k' != k ==> Get(r, k') == Get(m, k')
    ensures NoEmpty(m) ==> NoEmpty(r)
  {
    m[k := Get(m, k) + {v}]
  }

  /**
   * Removes `v` from the set under `k` when there is an entry, and removes
   * the entry when its set becomes empty.
   */
  function Discard<K(!new), V>(m: map<K, set<V>>, k: K, v: V): (r: map<K, set<V>>)
    ensures Get(r, k) == Get(m, k) - {v}
    ensures forall k' :: k' != k ==> Get(r, k') == Get(m, k')
    ensures NoEmpty(m) ==> NoEmpty(r)
    ensures r.Keys <= m.Keys
  {
    if k in m then
      var rest := m[k] - {v};
      if rest == {} then m - {k} else m[k := rest]
    else m
  }

  /** Registering keeps the two maps mirrors of each other. */
  lemma InsertKeepsMirror(subs: map<Socket, set<Key>>, index: map<Key, set<Socket>>, w: Socket, k: Key)
    requires Mirror(subs, index)
    ensures Mirror(Insert(subs, w, k), Insert(index, k, w))
  {
    var subs', index' := Insert(subs, w, k), Insert(index, k, w);
    forall w': Socket, k': Key ensures k' in Get(subs', w') <==> w' in Get(index', k') {
      assert k' in Get(subs, w') <==> w' in Get(index, k');
    }
  }

  /** Unregistering keeps the two maps mirrors of each other. */
  lemma DiscardKeepsMirror(subs: map<Socket, set<Key>>, index: map<Key, set<Socket>>, w: Socket, k: Key)
    requires Mirror(subs, index)
    ensures Mirror(Discard(subs, w, k), Discard(index, k, w))
  {
    var subs', index' := Discard(subs, w, k), Discard(index, k, w);
    forall w': Socket, k': Key ensures k' in Get(subs', w') <==> w' in Get(index', k') {
      assert k' in Get(subs, w') <==> w' in Get(index, k');
    }
  }

  /** Registering the same subscription twice is the same as once. */
  lemma InsertIdempotent<K(!new), V>(m: map<K, set<V>>, k: K, v: V)
    ensures Insert(Insert(m, k, v), k, v) == Insert(m, k, v)
  {
    var once := Insert(m, k, v);
    assert Get(once, k) + {v} == Get(once, k);
  }

  /**
   * Discarding what is not there changes nothing, provided no entry is
   * empty (an empty entry would be dropped).
   */
  lemma DiscardAbsent<K(!new), V>(m: map<K, set<V>>, k: K, v: V)
    requires NoEmpty(m) && v !in Get(m, k)
    ensures Discard(m, k, v) == m
  {
    if k in m {
      assert m[k] - {v} == m[k];
      assert m[k := m[k]] == m;
    }
  }

  /** Unregistering a subscription just registered restores the map. */
  lemma DiscardInsert<K(!new), V>(m: map<K, set<V>>, k: K, v: V)
    requires NoEmpty(m) && v !in Get(m, k)
    ensures Discard(Insert(m, k, v), k, v) == m
  {
    var r := Discard(Insert(m, k, v), k, v);
    assert Get(m, k) + {v} - {v} == Get(m, k);
    forall k' ensures k' in r <==> k' in m {
      if k' == k && k' in m {
        assert v !in m[k] && m[k] != {};
      }
    }
    forall k' | k' in r ensures r[k'] == m[k'] {
      assert Get(r, k') == Get(m, k');
    }
  }

  class Registry {
    /** socket -> the (feed, symbol) pairs it is subscribed to */
    var wsSubscriptions: map<Socket, set<Key>>
    /** (feed, symbol) -> the sockets subscribed to it */
    var subscribersIndex: map<Key, set<Socket>>

    /** The two maps mirror each other and hold no empty entry. */
    ghost predicate Valid()
      reads this
    {
      Mirror(wsSubscriptions, subscribersIndex) && NoEmpty(wsSubscriptions) && NoEmpty(subscribersIndex)
    }

    function Subscribed(ws: Socket, key: Key): bool
      reads this
    {
      key in Get(wsSubscriptions, ws)
    }

    constructor ()
      ensures Valid() && wsSubscriptions == map[] && subscribersIndex == map[]
    {
      wsSubscriptions := map[];
      subscribersIndex := map[];
    }

    /** Subscribes `ws` to a feed of a symbol; nothing else changes. */
    method Register(ws: Socket, feed: string, symbol: string)
      requires Valid()
      modifies this
      ensures Valid()
      ensures wsSubscriptions == Insert(old(wsSubscriptions), ws, (feed, symbol))
      ensures subscribersIndex == Insert(old(subscribersIndex), (feed, symbol), ws)
      ensures Subscribed(ws, (feed, symbol))
      ensures forall w: Socket, k: Key :: (w, k) != (ws, (feed, symbol)) ==> (Subscribed(w, k) <==> k in Get(old(wsSubscriptions), w))
    {
      var key := (feed, symbol);
      InsertKeepsMirror(wsSubscriptions, subscribersIndex, ws, key);
      wsSubscriptions := wsSubscriptions[ws := Get(wsSubscriptions, ws) + {key}];
      subscribersIndex := subscribersIndex[key := Get(subscribersIndex, key) + {ws}];
    }

    /**
     * Unsubscribes `ws` from a feed of a symbol, dropping an entry of either
     * map that becomes empty; unsubscribing from something `ws` is not
     * subscribed to changes nothing.
     */
    method Unregister(ws: Socket, feed: string, symbol: string)
      requires Valid()
      modifies this
      ensures Valid()
      ensures wsSubscriptions == Discard(old(wsSubscriptions), ws, (feed, symbol))
      ensures subscribersIndex == Discard(old(subscribersIndex), (feed, symbol), ws)
      ensures !Subscribed(ws, (feed, symbol))
      ensures forall w: Socket, k: Key :: (w, k) != (ws, (feed, symbol)) ==> (Subscribed(w, k) <==> k in Get(old(wsSubscriptions), w))
    {
      var key := (feed, symbol);
      DiscardKeepsMirror(wsSubscriptions, subscribersIndex, ws, key);
      if ws in wsSubscriptions {
        var rest := wsSubscriptions[ws] - {key};
        if rest == {} {
          wsSubscriptions := wsSubscriptions - {ws};
        } else {
          wsSubscriptions := wsSubscriptions[ws := rest];
        }
      }
      if key in subscribersIndex {
        var rest := subscribersIndex[key] - {ws};
        if rest == {} {
          subscribersIndex := subscribersIndex - {key};
        } else {
          subscribersIndex := subscribersIndex[key := rest];
        }
      }
    }

    /**
     * Drops every subscription of `ws`, one by one over a copy of its set:
     * afterwards `ws` has no entry and is in no subscriber set, and every
     * other socket keeps its subscriptions.
     */
    method UnregisterAll(ws: Socket)
      requires Valid()
      modifies this
      ensures Valid()
      ensures wsSubscriptions == old(wsSubscriptions) - {ws}
      ensures forall k :: Get(subscribersIndex, k) == Get(old(subscribersIndex), k) - {ws}
    {
      var keys := Get(wsSubscriptions, ws);
      while keys != {}
        invariant Valid()
        invariant Get(wsSubscriptions, ws) == keys
        invariant forall w :: w != ws ==> Get(wsSubscriptions, w) == Get(old(wsSubscriptions), w)
        invariant wsSubscriptions.Keys - {ws} == old(wsSubscriptions).Keys - {ws}
        invariant forall k :: Get(subscribersIndex, k) == if k in keys then Get(old(subscribersIndex), k) else Get(old(subscribersIndex), k) - {ws}
        decreases keys
      {
        var key :| key in keys;
        Unregister(ws, key.0, key.1);
        keys := keys - {key};
      }
      assert ws !in wsSubscriptions;
      forall w | w in wsSubscriptions ensures wsSubscriptions[w] == (old(wsSubscriptions) - {ws})[w] {
        assert Get(wsSubscriptions, w) == Get(old(wsSubscriptions), w);
      }
    }

    /** The sockets a broadcast to a feed of a symbol goes to. */
    method Subscribers(feed: string, symbol: string) returns (subs: set<Socket>)
      requires Valid()
      ensures forall w :: w in subs <==> Subscribed(w, (feed, symbol))
    {
      subs := Get(subscribersIndex, (feed, symbol));
    }
  }
}
