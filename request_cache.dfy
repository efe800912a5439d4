/**
 * The deduplication cache `request_cache`: an insertion-ordered dictionary from
 * request keys to payloads, capped by evicting the oldest-inserted entry.
 */
module RequestCache {

  /** The most entries the cache keeps after any insertion. */
  const Capacity: nat := 100

  /** The dictionary as its keys in insertion order plus the key-to-value map. */
  datatype Cache<V> = Cache(order: seq<string>, entries: map<string, V>)

  /** No key appears twice in `s`. */
  predicate Distinct(s: seq<string>)
  {
    forall i, j :: 0 <= i < j < |s| ==> s[i] != s[j]
  }

  /** The insertion order lists each key of the map once, and the cap holds. */
  ghost predicate Valid<V>(c: Cache<V>)
  {
    && Distinct(c.order)
    && (forall k :: k in c.entries <==> k in c.order)
    && |c.order| <= Capacity
  }

  /** The empty cache, as at process start. */
  function Empty<V>(): (c: Cache<V>)
    ensures Valid(c) && |c.entries| == 0
  {
    Cache([], map[])
  }

  /** A list without repetitions has as many distinct elements as it is long. */
  lemma {:induction false} DistinctCard(s: seq<string>)
    requires Distinct(s)
    decreases |s|
    ensures |set k | k in s| == |s|
  {
    if |s| > 0 {
      var init := s[..|s| - 1];
      DistinctCard(init);
      assert (set k | k in s) == (set k | k in init) + {s[|s| - 1]};
      assert s[|s| - 1] !in init;
    }
  }

  /** The map has exactly as many entries as the insertion order has keys. */
  lemma SizeMatchesOrder<V>(c: Cache<V>)
    requires Valid(c)
    ensures |c.entries| == |c.order| <= Capacity
  {
    DistinctCard(c.order);
    assert c.entries.Keys == set k | k in c.order;
  }

  /** Appending a key that is not yet present keeps the order and the map in step. */
  lemma AppendKeepsValid<V>(order: seq<string>, entries: map<string, V>, key: string, v: V)
    requires Distinct(order) && (forall k :: k in entries <==> k in order) && key !in entries
    ensures Distinct(order + [key])
    ensures forall k :: k in entries[key := v] <==> k in order + [key]
  {
  }

  /** Removing the first key from both the order and the map keeps them in step. */
  lemma DropOldestKeepsValid<V>(order: seq<string>, entries: map<string, V>)
    requires |order| > 0 && Distinct(order) && (forall k :: k in entries <==> k in order)
    ensures Distinct(order[1..])
    ensures forall k :: k in entries - {order[0]} <==> k in order[1..]
  {
    forall k
      ensures k in entries - {order[0]} <==> k in order[1..]
    {
      if k in order[1..] {
        var j :| 0 <= j < |order[1..]| && order[1..][j] == k;
        assert order[j + 1] == k;
      }
    }
  }

  /**
   * Storing a new key: `request_cache[key] = v`, then, if the size is over the
   * cap, delete the first key in insertion order.
   */
  function Store<V>(c: Cache<V>, key: string, v: V): (r: Cache<V>)
    requires Valid(c) && key !in c.entries
    ensures Valid(r)
    ensures key in r.entries && r.entries[key] == v
  {
    SizeMatchesOrder(c);
    AppendKeepsValid(c.order, c.entries, key, v);
    var entries := c.entries[key := v];
    var order := c.order + [key];
    if |entries| > Capacity then
      DropOldestKeepsValid(order, entries);
      Cache(order[1..], entries - {order[0]})
    else
      Cache(order, entries)
  }

  /**
   * Storing appends the key to the insertion order. Below the cap nothing else
   * changes; at the cap exactly the oldest key is dropped and every other entry
   * keeps its value.
   */
  lemma StoreFifo<V>(c: Cache<V>, key: string, v: V)
    requires Valid(c) && key !in c.entries
    ensures var r := Store(c, key, v);
      && |r.order| > 0 && r.order[|r.order| - 1] == key
      && (|c.entries| < Capacity ==> r.order == c.order + [key] && r.entries == c.entries[key := v])
      && (|c.entries| == Capacity ==>
            && r.order == c.order[1..] + [key]
            && c.order[0] !in r.entries
            && r.entries.Keys == c.entries.Keys - {c.order[0]} + {key}
            && (forall k :: k in c.entries && k != c.order[0] ==> r.entries[k] == c.entries[k]))
  {
    SizeMatchesOrder(c);
    var entries := c.entries[key := v];
    if |c.entries| == Capacity {
      assert |entries| == Capacity + 1;
      assert (c.order + [key])[1..] == c.order[1..] + [key];
    }
  }

  /**
   * After a store the cache holds at most `Capacity` entries and grows by one
   * unless it was full, in which case its size stays at `Capacity`.
   */
  lemma StoreSize<V>(c: Cache<V>, key: string, v: V)
    requires Valid(c) && key !in c.entries
    ensures |Store(c, key, v).entries| == if |c.entries| < Capacity then |c.entries| + 1 else Capacity
  {
    SizeMatchesOrder(c);
    SizeMatchesOrder(Store(c, key, v));
    StoreFifo(c, key, v);
  }
}
