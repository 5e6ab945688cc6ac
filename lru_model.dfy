/**
 * The abstract meaning of an LRU cache: the keys it holds, ordered from the
 * most recently used (front) to the least recently used (back), and the value
 * stored for each of them.  `Get` and `Put` are the transitions the cache
 * performs; the lemmas below state what each transition promises.
 */
module LruModel {

  /** Keys front (most recently used) to back (least recently used), and their values. */
  datatype Cache = Cache(order: seq<int>, contents: map<int, int>)

  /** What `get` answers for a key the cache does not hold. */
  const NotFound: int := -1

  /** No key comes twice: the front key is not in the rest, and so on down. */
  ghost predicate Distinct(s: seq<int>) {
    s == [] || (s[0] !in s[1..] && Distinct(s[1..]))
  }

  /**
   * The structural invariant: the keys in the order are distinct, they are
   * exactly the keys of the map, so the two have the same size, and the size
   * never exceeds the (positive) capacity.
   */
  ghost predicate Inv(c: Cache, cap: int) {
    && 1 <= cap
    && Distinct(c.order)
    && (forall k :: k in c.contents <==> k in c.order)
    && |c.order| == |c.contents|
    && |c.contents| <= cap
  }

  /** The least recently used key: the back of the order. */
  function Lru(c: Cache): int
    requires c.order != []
  {
    c.order[|c.order| - 1]
  }

  /** `s` with every occurrence of `k` taken out, everything else in its place. */
  function Without(s: seq<int>, k: int): (r: seq<int>)
    ensures forall x :: x in r <==> x in s && x != k
    ensures |r| <= |s|
  {
    if s == [] then []
    else if s[0] == k then Without(s[1..], k)
    else [s[0]] + Without(s[1..], k)
  }

  /** `get(key)`: the state afterwards and the value returned. */
  function Get(c: Cache, key: int): (r: (Cache, int))
    ensures r.0.contents == c.contents
    ensures key in c.contents ==> r.1 == c.contents[key] && r.0.order != [] && r.0.order[0] == key
    ensures key !in c.contents ==> r == (c, NotFound)
  {
    if key in c.contents then
      (Cache([key] + Without(c.order, key), c.contents), c.contents[key])
    else
      (c, NotFound)
  }

  /** `put(key, value)`: the state afterwards. */
  function Put(c: Cache, cap: int, key: int, value: int): (r: Cache)
    requires Inv(c, cap)
    ensures key in r.contents && r.contents[key] == value
    ensures r.order != [] && r.order[0] == key
  {
    if key in c.contents then
      Cache([key] + Without(c.order, key), c.contents[key := value])
    else if |c.contents| == cap then
      var lru := Lru(c);
      Cache([key] + c.order[..|c.order| - 1], (c.contents - {lru})[key := value])
    else
      Cache([key] + c.order, c.contents[key := value])
  }

  // ---------------------------------------------------------------------------
  // Facts about Without

  lemma {:induction false} WithoutAbsent(s: seq<int>, k: int)
    requires k !in s
    ensures Without(s, k) == s
  {
    if s != [] {
      WithoutAbsent(s[1..], k);
    }
  }

  lemma {:induction false} WithoutDistinct(s: seq<int>, k: int)
    requires Distinct(s)
    ensures Distinct(Without(s, k))
    ensures |Without(s, k)| == if k in s then |s| - 1 else |s|
  {
    if s != [] {
      WithoutDistinct(s[1..], k);
      if s[0] != k {
        DistinctCons(s[0], Without(s[1..], k));
      } else {
        assert k !in s[1..];
      }
    }
  }

  /** In a sequence of distinct keys, taking a key out splices it out of its place. */
  lemma {:induction false} WithoutAt(s: seq<int>, i: int)
    requires Distinct(s) && 0 <= i < |s|
    ensures Without(s, s[i]) == s[..i] + s[i + 1..]
  {
    if i == 0 {
      WithoutAbsent(s[1..], s[0]);
      assert s[..0] + s[1..] == s[1..];
    } else {
      var t := s[1..];
      assert t[i - 1] == s[i];
      assert s[0] != s[i];
      assert Without(s, s[i]) == [s[0]] + Without(t, s[i]);
      WithoutAt(t, i - 1);
      assert t[..i - 1] == s[1..i] && t[i..] == s[i + 1..];
      assert s[..i] + s[i + 1..] == [s[0]] + (s[1..i] + s[i + 1..]);
    }
  }

  // ---------------------------------------------------------------------------
  // Facts about Distinct

  lemma DistinctCons(x: int, s: seq<int>)
    ensures Distinct([x] + s) <==> x !in s && Distinct(s)
  {
    assert ([x] + s)[1..] == s;
  }

  /** Two different places of a distinct sequence hold different keys. */
  lemma {:induction false} DistinctAt(s: seq<int>, a: int, b: int)
    requires Distinct(s) && 0 <= a < b < |s|
    ensures s[a] != s[b]
  {
    if a == 0 {
      assert s[b] == s[1..][b - 1];
    } else {
      DistinctAt(s[1..], a - 1, b - 1);
    }
  }

  /** The back key of a distinct sequence is not among the keys before it. */
  lemma DistinctLast(s: seq<int>)
    requires Distinct(s) && s != []
    ensures s[|s| - 1] !in s[..|s| - 1]
  {
    var front := s[..|s| - 1];
    forall j | 0 <= j < |front| ensures front[j] != s[|s| - 1] {
      DistinctAt(s, j, |s| - 1);
    }
  }

  lemma {:induction false} DistinctPrefix(s: seq<int>, n: int)
    requires Distinct(s) && 0 <= n <= |s|
    ensures Distinct(s[..n])
  {
    if n > 0 {
      DistinctPrefix(s[1..], n - 1);
      assert s[..n] == [s[0]] + s[1..][..n - 1];
      DistinctCons(s[0], s[1..][..n - 1]);
    }
  }

  // ---------------------------------------------------------------------------
  // The invariant is kept by every operation

  lemma EmptyKeepsInv(cap: int)
    requires 1 <= cap
    ensures Inv(Cache([], map[]), cap)
  {
  }

  lemma GetKeepsInv(c: Cache, cap: int, key: int)
    requires Inv(c, cap)
    ensures Inv(Get(c, key).0, cap)
  {
    if key in c.contents {
      WithoutDistinct(c.order, key);
      DistinctCons(key, Without(c.order, key));
    }
  }

  /** Dropping the least recently used key keeps the invariant and frees one place. */
  lemma EvictKeepsInv(c: Cache, cap: int)
    requires Inv(c, cap) && c.order != []
    ensures Inv(Cache(c.order[..|c.order| - 1], c.contents - {Lru(c)}), cap)
    ensures |c.contents - {Lru(c)}| == |c.contents| - 1
  {
    var lru := Lru(c);
    var rest := c.order[..|c.order| - 1];
    assert c.order == rest + [lru];
    DistinctLast(c.order);
    DistinctPrefix(c.order, |c.order| - 1);
    assert (c.contents - {lru}).Keys == c.contents.Keys - {lru};
  }

  /** Adding a new key at the front of a cache with room keeps the invariant. */
  lemma InsertKeepsInv(c: Cache, cap: int, key: int, value: int)
    requires Inv(c, cap) && key !in c.contents && |c.contents| < cap
    ensures Inv(Cache([key] + c.order, c.contents[key := value]), cap)
  {
    DistinctCons(key, c.order);
  }

  /** Replacing the value of a key the cache holds keeps the invariant. */
  lemma ReplaceKeepsInv(c: Cache, cap: int, key: int, value: int)
    requires Inv(c, cap) && key in c.contents
    ensures Inv(Cache(c.order, c.contents[key := value]), cap)
  {
    assert c.contents[key := value].Keys == c.contents.Keys;
  }

  lemma PutKeepsInv(c: Cache, cap: int, key: int, value: int)
    requires Inv(c, cap)
    ensures Inv(Put(c, cap, key, value), cap)
  {
    if key in c.contents {
      GetKeepsInv(c, cap, key);
      assert c.contents[key := value].Keys == c.contents.Keys;
    } else if |c.contents| == cap {
      EvictKeepsInv(c, cap);
      InsertKeepsInv(Cache(c.order[..|c.order| - 1], c.contents - {Lru(c)}), cap, key, value);
    } else {
      InsertKeepsInv(c, cap, key, value);
    }
  }

  // ---------------------------------------------------------------------------
  // What get and put promise

  /**
   * A miss returns `NotFound` and changes nothing.  A hit returns the stored
   * value, changes no value, puts the key at the front and leaves the relative
   * order of every other key as it was.
   */
  lemma GetMeaning(c: Cache, key: int)
    ensures key !in c.contents ==> Get(c, key) == (c, NotFound)
    ensures key in c.contents ==>
      var (r, v) := Get(c, key);
      && v == c.contents[key]
      && r.contents == c.contents
      && r.order[0] == key
      && Without(r.order, key) == Without(c.order, key)
  {
    if key in c.contents {
      var w := Without(c.order, key);
      WithoutAbsent(w, key);
    }
  }

  /** Calling `get(key)` twice in a row is the same as calling it once. */
  lemma GetTwice(c: Cache, key: int)
    ensures Get(Get(c, key).0, key) == Get(c, key)
  {
    if key in c.contents {
      WithoutAbsent(Without(c.order, key), key);
    }
  }

  /**
   * Putting a key the cache holds replaces its value, moves it to the front
   * and changes neither the size, the other values nor the relative order of
   * the other keys.
   */
  lemma PutExisting(c: Cache, cap: int, key: int, value: int)
    requires Inv(c, cap) && key in c.contents
    ensures
      var r := Put(c, cap, key, value);
      && r.contents == c.contents[key := value]
      && |r.contents| == |c.contents|
      && r.order[0] == key
      && Without(r.order, key) == Without(c.order, key)
  {
    WithoutAbsent(Without(c.order, key), key);
  }

  /**
   * Putting a new key into a full cache evicts exactly the least recently used
   * key, from the map and from the order; the new key becomes the front and the
   * size stays at the capacity.
   */
  lemma PutEvicts(c: Cache, cap: int, key: int, value: int)
    requires Inv(c, cap) && key !in c.contents && |c.contents| == cap
    ensures c.order != []
    ensures
      var r := Put(c, cap, key, value);
      var lru := Lru(c);
      && lru in c.contents && lru !in r.contents
      && r.contents.Keys == c.contents.Keys - {lru} + {key}
      && r.contents[key] == value
      && (forall k | k in r.contents && k != key :: r.contents[k] == c.contents[k])
      && |r.contents| == cap
      && r.order[0] == key
      && r.order[1..] == c.order[..|c.order| - 1]
  {
    var lru := Lru(c);
    var rest := c.order[..|c.order| - 1];
    assert c.order == rest + [lru];
    DistinctLast(c.order);
    assert (c.contents - {lru}).Keys == c.contents.Keys - {lru};
  }

  /**
   * Putting a new key into a cache with room adds it at the front with its
   * value, evicts nothing and grows the size by one.
   */
  lemma PutInserts(c: Cache, cap: int, key: int, value: int)
    requires Inv(c, cap) && key !in c.contents && |c.contents| < cap
    ensures
      var r := Put(c, cap, key, value);
      && r.contents == c.contents[key := value]
      && |r.contents| == |c.contents| + 1
      && r.order == [key] + c.order
  {
  }

  /**
   * Overwriting: `put(k, v1)` then `put(k, v2)` leaves the size that the first
   * put produced, and a following `get(k)` answers `v2` with `k` at the front.
   */
  lemma PutTwice(c: Cache, cap: int, key: int, v1: int, v2: int)
    requires Inv(c, cap)
    ensures
      var c1 := Put(c, cap, key, v1);
      Inv(c1, cap) &&
      var c2 := Put(c1, cap, key, v2);
      var (c3, v) := Get(c2, key);
      && |c2.contents| == |c1.contents|
      && v == v2
      && c3.order[0] == key
  {
    var c1 := Put(c, cap, key, v1);
    PutKeepsInv(c, cap, key, v1);
    PutExisting(c1, cap, key, v2);
    PutKeepsInv(c1, cap, key, v2);
  }

  /** At capacity one, putting a new key evicts the sole entry held. */
  lemma CapacityOne(c: Cache, key: int, value: int)
    requires Inv(c, 1) && key !in c.contents
    ensures Put(c, 1, key, value) == Cache([key], map[key := value])
  {
    if |c.contents| == 1 {
      var lru := Lru(c);
      assert c.order == [lru];
      forall k ensures k in c.contents <==> k == lru {
        assert k in c.order <==> k == lru;
      }
      assert c.contents.Keys == {lru};
      assert (c.contents - {lru}).Keys == {};
    } else {
      assert c.order == [];
      assert c.contents.Keys == {};
    }
  }
}
