/**
 * The trace the class's `main` method prints: a cache of capacity 2 driven
 * through five puts and five gets.
 */
module LruDemo {
  import opened LruModel
  import LruCache

  // The abstract states and answers of the trace, step by step.

  lemma TracePuts()
    ensures Put(Cache([], map[]), 2, 1, 1) == Cache([1], map[1 := 1])
    ensures Put(Cache([1], map[1 := 1]), 2, 2, 2) == Cache([2, 1], map[1 := 1, 2 := 2])
  {
  }

  lemma TraceFirstGet()
    ensures Get(Cache([2, 1], map[1 := 1, 2 := 2]), 1) == (Cache([1, 2], map[1 := 1, 2 := 2]), 1)
  {
    assert Without([2, 1], 1) == [2];
    assert [1] + [2] == [1, 2];
  }

  lemma TraceFirstEviction()
    ensures Put(Cache([1, 2], map[1 := 1, 2 := 2]), 2, 3, 3) == Cache([3, 1], map[1 := 1, 3 := 3])
    ensures Get(Cache([3, 1], map[1 := 1, 3 := 3]), 2) == (Cache([3, 1], map[1 := 1, 3 := 3]), NotFound)
  {
    assert map[1 := 1, 2 := 2] - {2} == map[1 := 1];
  }

  lemma TraceSecondEviction()
    ensures Put(Cache([3, 1], map[1 := 1, 3 := 3]), 2, 4, 4) == Cache([4, 3], map[3 := 3, 4 := 4])
    ensures Get(Cache([4, 3], map[3 := 3, 4 := 4]), 1) == (Cache([4, 3], map[3 := 3, 4 := 4]), NotFound)
  {
    assert map[1 := 1, 3 := 3] - {1} == map[3 := 3];
  }

  lemma TraceLastGets()
    ensures Get(Cache([4, 3], map[3 := 3, 4 := 4]), 3) == (Cache([3, 4], map[3 := 3, 4 := 4]), 3)
    ensures Get(Cache([3, 4], map[3 := 3, 4 := 4]), 4) == (Cache([4, 3], map[3 := 3, 4 := 4]), 4)
  {
    assert Without([4, 3], 3) == [4];
    assert [3] + [4] == [3, 4];
    assert Without([3, 4], 4) == [3];
    assert [4] + [3] == [4, 3];
  }

  /** The first three calls of `main`: two puts fill the cache, a get answers 1. */
  method Opening(lru: LruCache.LRUCache) returns (a: int)
    requires lru.Valid() && lru.cap == 2 && lru.Model() == Cache([], map[])
    modifies lru, lru.Repr
    ensures lru.Valid() && fresh(lru.Repr - old(lru.Repr))
    ensures lru.Model() == Cache([1, 2], map[1 := 1, 2 := 2]) && a == 1
  {
    TracePuts();
    lru.Put(1, 1);
    lru.Put(2, 2);
    TraceFirstGet();
    a := lru.Get(1);
  }

  /** Putting 3 evicts key 2, which a get then misses. */
  method FirstEviction(lru: LruCache.LRUCache) returns (b: int)
    requires lru.Valid() && lru.cap == 2 && lru.Model() == Cache([1, 2], map[1 := 1, 2 := 2])
    modifies lru, lru.Repr
    ensures lru.Valid() && fresh(lru.Repr - old(lru.Repr))
    ensures lru.Model() == Cache([3, 1], map[1 := 1, 3 := 3]) && b == NotFound
  {
    TraceFirstEviction();
    lru.Put(3, 3);
    b := lru.Get(2);
  }

  /** Putting 4 evicts key 1, which a get then misses. */
  method SecondEviction(lru: LruCache.LRUCache) returns (c: int)
    requires lru.Valid() && lru.cap == 2 && lru.Model() == Cache([3, 1], map[1 := 1, 3 := 3])
    modifies lru, lru.Repr
    ensures lru.Valid() && fresh(lru.Repr - old(lru.Repr))
    ensures lru.Model() == Cache([4, 3], map[3 := 3, 4 := 4]) && c == NotFound
  {
    TraceSecondEviction();
    lru.Put(4, 4);
    c := lru.Get(1);
  }

  /** The last two gets hit, each moving its key to the front. */
  method Closing(lru: LruCache.LRUCache) returns (d: int, e: int)
    requires lru.Valid() && lru.Model() == Cache([4, 3], map[3 := 3, 4 := 4])
    modifies lru, lru.Repr
    ensures lru.Valid() && d == 3 && e == 4
  {
    TraceLastGets();
    d := lru.Get(3);
    e := lru.Get(4);
  }

  /** The five values `main` prints, in order: 1, -1, -1, 3 and 4. */
  method Scenario() returns (a: int, b: int, c: int, d: int, e: int)
    ensures a == 1 && b == NotFound && c == NotFound && d == 3 && e == 4
  {
    var lru := new LruCache.LRUCache(2);
    a := Opening(lru);
    b := FirstEviction(lru);
    c := SecondEviction(lru);
    d, e := Closing(lru);
  }
}
