/**
 * What an LRU cache holds after any sequence of calls, stated without the
 * move-to-front and evict mechanics of `get` and `put`.
 *
 * A history records every use of a key, oldest first.  A `put` uses its key;
 * a `get` uses its key only when it hits.  The recency list of a history
 * holds each key it used exactly once, ordered from the latest last use down
 * to the earliest.  The cache then holds the first `cap` keys of that list,
 * each with the value its last `put` gave it.
 */
module LruHistory {
  import opened LruModel

  /** One call on the cache. */
  datatype Op = GetOp(key: int) | PutOp(key: int, value: int)

  /** The state one call leaves. */
  function Step(c: Cache, cap: int, op: Op): Cache
    requires Inv(c, cap)
  {
    match op
    case GetOp(k) => Get(c, k).0
    case PutOp(k, v) => Put(c, cap, k, v)
  }

  /** The state of a new cache of capacity `cap` after the calls `ops`; it keeps the invariant. */
  function Run(cap: int, ops: seq<Op>): (r: Cache)
    requires 1 <= cap
    ensures Inv(r, cap)
  {
    if ops == [] then
      EmptyKeepsInv(cap);
      Cache([], map[])
    else
      var c := Run(cap, ops[..|ops| - 1]);
      var op := ops[|ops| - 1];
      StepKeepsInv(c, cap, op);
      Step(c, cap, op)
  }

  lemma StepKeepsInv(c: Cache, cap: int, op: Op)
    requires Inv(c, cap)
    ensures Inv(Step(c, cap, op), cap)
  {
    match op
    case GetOp(k) => GetKeepsInv(c, cap, k);
    case PutOp(k, v) => PutKeepsInv(c, cap, k, v);
  }

  // ---------------------------------------------------------------------------
  // Histories and recency

  /** The place of the last use of `x` in the history `h`. */
  function LastUse(h: seq<int>, x: int): (i: int)
    requires x in h
    ensures 0 <= i < |h| && h[i] == x && x !in h[i + 1..]
  {
    if h[|h| - 1] == x then
      |h| - 1
    else
      var i := LastUse(h[..|h| - 1], x);
      assert h[i + 1..] == h[..|h| - 1][i + 1..] + [h[|h| - 1]];
      i
  }

  /** Every key of `s` was used in `h`, and later than every key after it in `s`. */
  ghost predicate ByRecency(h: seq<int>, s: seq<int>) {
    s == [] ||
      (&& s[0] in h
       && (forall y | y in s[1..] :: y in h && LastUse(h, y) < LastUse(h, s[0]))
       && ByRecency(h, s[1..]))
  }

  /** The keys used in `h`, once each, the most recently used first. */
  function Recency(h: seq<int>): seq<int> {
    if h == [] then [] else [h[|h| - 1]] + Without(Recency(h[..|h| - 1]), h[|h| - 1])
  }

  /** The first `n` keys of `s`, or all of them when there are fewer. */
  function Take(s: seq<int>, n: nat): seq<int> {
    if |s| <= n then s else s[..n]
  }

  /**
   * The history of the calls `ops` on a new cache of capacity `cap`: a put
   * uses its key, and a get uses its key when the key is among the `cap` most
   * recently used ones.
   */
  function Uses(cap: nat, ops: seq<Op>): seq<int> {
    if ops == [] then [] else Record(cap, Uses(cap, ops[..|ops| - 1]), ops[|ops| - 1])
  }

  /** The history `h` followed by the use the call `op` makes of its key, if it makes one. */
  function Record(cap: nat, h: seq<int>, op: Op): seq<int> {
    if op.PutOp? || op.key in Take(Recency(h), cap) then h + [op.key] else h
  }

  /** The value the last put of `k` in `ops` stored; `NotFound` when there is none. */
  function LastPut(ops: seq<Op>, k: int): int {
    if ops == [] then NotFound
    else
      var op := ops[|ops| - 1];
      if op.PutOp? && op.key == k then op.value else LastPut(ops[..|ops| - 1], k)
  }

  // ---------------------------------------------------------------------------
  // The recency list is the one list of the used keys ordered by last use

  lemma {:induction false} WithoutByRecency(h: seq<int>, s: seq<int>, k: int)
    requires ByRecency(h, s)
    ensures ByRecency(h, Without(s, k))
  {
    if s != [] {
      WithoutByRecency(h, s[1..], k);
      if s[0] != k {
        var w := Without(s[1..], k);
        assert ([s[0]] + w)[0] == s[0] && ([s[0]] + w)[1..] == w;
      }
    }
  }

  /** A key used after every key of `s` leaves the order of `s` by last use as it was. */
  lemma {:induction false} ByRecencyExtend(h: seq<int>, s: seq<int>, k: int)
    requires ByRecency(h, s) && k !in s
    ensures ByRecency(h + [k], s)
  {
    assert (h + [k])[..|h|] == h;
    if s != [] {
      ByRecencyExtend(h, s[1..], k);
    }
  }

  /** In a list ordered by last use, an earlier place holds a key used later. */
  lemma {:induction false} ByRecencyAt(h: seq<int>, s: seq<int>, i: int, j: int)
    requires ByRecency(h, s) && 0 <= i < j < |s|
    ensures s[i] in h && s[j] in h && LastUse(h, s[j]) < LastUse(h, s[i])
  {
    if i == 0 {
      var y := s[j];
      assert y in s[1..] by { assert s[1..][j - 1] == y; }
      assert y in h && LastUse(h, y) < LastUse(h, s[0]);
    } else {
      ByRecencyAt(h, s[1..], i - 1, j - 1);
    }
  }

  /**
   * The recency list holds exactly the keys the history used, each once,
   * ordered from the most recently used to the least recently used.
   */
  lemma {:induction false} RecencyMeaning(h: seq<int>)
    ensures forall x :: x in Recency(h) <==> x in h
    ensures Distinct(Recency(h))
    ensures ByRecency(h, Recency(h))
  {
    if h != [] {
      var front, k := h[..|h| - 1], h[|h| - 1];
      assert h == front + [k];
      RecencyMeaning(front);
      var w := Without(Recency(front), k);
      WithoutDistinct(Recency(front), k);
      DistinctCons(k, w);
      WithoutByRecency(front, Recency(front), k);
      ByRecencyExtend(front, w, k);
      assert ([k] + w)[1..] == w;
      forall y | y in w ensures y in h && LastUse(h, y) < LastUse(h, k) {
        assert y != k;
      }
    }
  }

  /** Of two lists ordered by last use, each holding the other's front key, the fronts agree. */
  lemma SameFront(h: seq<int>, a: seq<int>, b: seq<int>)
    requires a != [] && b != [] && ByRecency(h, a) && ByRecency(h, b)
    requires a[0] in b && b[0] in a
    ensures a[0] == b[0]
  {
  }

  /** Two lists with the same keys are both empty or both not. */
  lemma SameEmptiness(a: seq<int>, b: seq<int>)
    requires forall x | x in a :: x in b
    requires forall x | x in b :: x in a
    ensures a == [] <==> b == []
  {
    if a != [] {
      var x := a[0];
      assert x in a;
    }
    if b != [] {
      var y := b[0];
      assert y in b;
    }
  }

  /** Two lists of the same distinct keys, both ordered by last use, are the same. */
  lemma {:induction false} ByRecencyUnique(h: seq<int>, a: seq<int>, b: seq<int>)
    requires Distinct(a) && Distinct(b) && ByRecency(h, a) && ByRecency(h, b)
    requires forall x | x in a :: x in b
    requires forall x | x in b :: x in a
    ensures a == b
    decreases |a|
  {
    SameEmptiness(a, b);
    if a != [] {
      var x, y := a[0], b[0];
      assert x in a && y in b;
      SameFront(h, a, b);
      RestSame(a, b);
      RestSame(b, a);
      ByRecencyUnique(h, a[1..], b[1..]);
      assert a == [x] + a[1..] && b == [y] + b[1..];
    }
  }

  /** Past equal front keys, the rest of distinct `a` lies in the rest of `b`. */
  lemma RestSame(a: seq<int>, b: seq<int>)
    requires Distinct(a) && a != [] && b != [] && a[0] == b[0]
    requires forall x | x in a :: x in b
    ensures forall x | x in a[1..] :: x in b[1..]
  {
    forall x | x in a[1..] ensures x in b[1..] {
      assert x in a && x != a[0];
      assert b == [b[0]] + b[1..];
    }
  }

  /** Any list of the history's keys, each once and ordered by last use, is its recency list. */
  lemma RecencyUnique(h: seq<int>, s: seq<int>)
    requires Distinct(s) && ByRecency(h, s)
    requires forall x :: x in s <==> x in h
    ensures s == Recency(h)
  {
    RecencyMeaning(h);
    ByRecencyUnique(h, s, Recency(h));
  }

  // ---------------------------------------------------------------------------
  // The cache holds the `cap` most recently used keys

  lemma {:induction false} WithoutConcat(a: seq<int>, b: seq<int>, k: int)
    ensures Without(a + b, k) == Without(a, k) + Without(b, k)
  {
    if a != [] {
      assert (a + b)[1..] == a[1..] + b;
      WithoutConcat(a[1..], b, k);
    } else {
      assert a + b == b;
    }
  }

  lemma RecencyAppend(h: seq<int>, k: int)
    ensures Recency(h + [k]) == [k] + Without(Recency(h), k)
  {
    assert (h + [k])[..|h|] == h;
  }

  /** A hit moves the key to the front within the first `n` places. */
  lemma TakeTouch(r: seq<int>, n: nat, k: int)
    requires Distinct(r) && 1 <= n && k in Take(r, n)
    ensures [k] + Without(Take(r, n), k) == Take([k] + Without(r, k), n)
  {
    WithoutDistinct(r, k);
    if |r| > n {
      var i :| 0 <= i < n && r[..n][i] == k;
      TakeTouchAt(r, n, i);
    }
  }

  lemma TakeTouchAt(r: seq<int>, n: nat, i: int)
    requires Distinct(r) && 0 <= i < n < |r|
    ensures [r[i]] + Without(r[..n], r[i]) == Take([r[i]] + Without(r, r[i]), n)
  {
    DistinctPrefix(r, n);
    assert r[..n][i] == r[i];
    WithoutAt(r[..n], i);
    WithoutAt(r, i);
    SpliceFront(r, n, i, r[i]);
  }

  /** Cutting place `i` out of `r` and then keeping `n - 1` keys is cutting it out of `r[..n]`. */
  lemma SpliceFront(r: seq<int>, n: nat, i: int, k: int)
    requires 0 <= i < n < |r|
    ensures ([k] + (r[..i] + r[i + 1..]))[..n] == [k] + (r[..n][..i] + r[..n][i + 1..])
  {
    var w := r[..i] + r[i + 1..];
    assert ([k] + w)[..n] == [k] + w[..n - 1];
    assert w[..n - 1] == r[..i] + r[i + 1..n];
    assert r[..n][..i] == r[..i];
    assert r[..n][i + 1..] == r[i + 1..n];
  }

  /** A new key put into a full cache pushes the `n`-th key out of the first `n` places. */
  lemma TakeEvict(r: seq<int>, n: nat, k: int)
    requires 1 <= n <= |r| && k !in r[..n]
    ensures Take([k] + Without(r, k), n) == [k] + r[..n - 1]
  {
    assert r == r[..n] + r[n..];
    WithoutConcat(r[..n], r[n..], k);
    WithoutAbsent(r[..n], k);
    var w := r[..n] + Without(r[n..], k);
    assert ([k] + w)[..n] == [k] + w[..n - 1];
    assert w[..n - 1] == r[..n - 1];
  }

  /** A new key put into a cache with room goes in front of all the keys. */
  lemma TakeInsert(r: seq<int>, n: nat, k: int)
    requires |r| < n && k !in r
    ensures Take([k] + Without(r, k), n) == [k] + r
  {
    WithoutAbsent(r, k);
  }

  /** A hit of `get` or `put` on a held key moves it to the front of the recency list too. */
  lemma HitIsRecent(c: Cache, cap: int, h: seq<int>, k: int)
    requires Inv(c, cap) && c.order == Take(Recency(h), cap) && k in c.contents
    ensures [k] + Without(c.order, k) == Take(Recency(h + [k]), cap)
  {
    RecencyMeaning(h);
    RecencyAppend(h, k);
    TakeTouch(Recency(h), cap, k);
  }

  /** Evicting the back key for a new one drops the `cap`-th key of the recency list. */
  lemma EvictIsRecent(c: Cache, cap: int, h: seq<int>, k: int)
    requires Inv(c, cap) && c.order == Take(Recency(h), cap)
    requires k !in c.contents && |c.contents| == cap
    ensures [k] + c.order[..|c.order| - 1] == Take(Recency(h + [k]), cap)
  {
    var r := Recency(h);
    RecencyAppend(h, k);
    assert |c.order| == cap;
    assert c.order == r[..cap];
    TakeEvict(r, cap, k);
    assert c.order[..cap - 1] == r[..cap - 1];
  }

  /** A new key put into a cache with room goes in front of the whole recency list. */
  lemma InsertIsRecent(c: Cache, cap: int, h: seq<int>, k: int)
    requires Inv(c, cap) && c.order == Take(Recency(h), cap)
    requires k !in c.contents && |c.contents| < cap
    ensures [k] + c.order == Take(Recency(h + [k]), cap)
  {
    var r := Recency(h);
    RecencyAppend(h, k);
    assert c.order == r;
    TakeInsert(r, cap, k);
  }

  /** One call keeps the order the first `cap` keys of the recency list of the history. */
  lemma StepIsRecent(c: Cache, cap: int, h: seq<int>, op: Op)
    requires Inv(c, cap) && c.order == Take(Recency(h), cap)
    ensures Step(c, cap, op).order == Take(Recency(Record(cap, h, op)), cap)
  {
    var k := op.key;
    assert k in c.contents <==> k in Take(Recency(h), cap);
    if k in c.contents {
      HitIsRecent(c, cap, h, k);
    } else if op.PutOp? {
      if |c.contents| == cap {
        EvictIsRecent(c, cap, h, k);
      } else {
        InsertIsRecent(c, cap, h, k);
      }
    }
  }

  /** One call keeps each held key mapped to the value of its last put. */
  lemma StepKeepsValues(c: Cache, cap: int, ops: seq<Op>)
    requires Inv(c, cap) && ops != []
    requires forall x | x in c.contents :: c.contents[x] == LastPut(ops[..|ops| - 1], x)
    ensures var c' := Step(c, cap, ops[|ops| - 1]);
      forall x | x in c'.contents :: c'.contents[x] == LastPut(ops, x)
  {
    var op := ops[|ops| - 1];
    var c' := Step(c, cap, op);
    if op.PutOp? {
      assert forall x | x in c'.contents && x != op.key :: x in c.contents && c'.contents[x] == c.contents[x];
    }
  }

  /**
   * After any calls on a new cache, its order is the first `cap` keys of the
   * recency list of the calls' history, and each key it holds has the value of
   * the key's last put.
   */
  lemma {:induction false} RunIsRecent(cap: int, ops: seq<Op>)
    requires 1 <= cap
    ensures Run(cap, ops).order == Take(Recency(Uses(cap, ops)), cap)
    ensures forall k | k in Run(cap, ops).contents :: Run(cap, ops).contents[k] == LastPut(ops, k)
    decreases |ops|
  {
    if ops != [] {
      var front := ops[..|ops| - 1];
      RunIsRecent(cap, front);
      StepIsRecent(Run(cap, front), cap, Uses(cap, front), ops[|ops| - 1]);
      StepKeepsValues(Run(cap, front), cap, ops);
    }
  }

  /** The first `n` keys of the recency list go from the most recently used to the least. */
  lemma TakeByLastUse(h: seq<int>, n: nat)
    ensures var t := Take(Recency(h), n);
      forall i, j | 0 <= i < j < |t| :: t[i] in h && t[j] in h && LastUse(h, t[j]) < LastUse(h, t[i])
  {
    var r, t := Recency(h), Take(Recency(h), n);
    RecencyMeaning(h);
    forall i, j | 0 <= i < j < |t| ensures t[i] in h && t[j] in h && LastUse(h, t[j]) < LastUse(h, t[i]) {
      assert t[i] == r[i] && t[j] == r[j];
      ByRecencyAt(h, r, i, j);
    }
  }

  /**
   * A used key outside the first `n` keys of the recency list was used before
   * every key inside them, and there are `n` of those.
   */
  lemma TakeDropsOldest(h: seq<int>, n: nat)
    ensures var t := Take(Recency(h), n);
      forall x | x in h && x !in t :: |t| == n && forall y | y in t :: y in h && LastUse(h, x) < LastUse(h, y)
  {
    var r, t := Recency(h), Take(Recency(h), n);
    RecencyMeaning(h);
    forall x | x in h && x !in t ensures |t| == n && forall y | y in t :: y in h && LastUse(h, x) < LastUse(h, y) {
      var m :| 0 <= m < |r| && r[m] == x;
      assert |r| > n && m >= n;
      forall y | y in t ensures y in h && LastUse(h, x) < LastUse(h, y) {
        var i :| 0 <= i < |t| && t[i] == y;
        assert r[i] == y;
        ByRecencyAt(h, r, i, m);
      }
    }
  }

  /**
   * After any calls on a new cache: every key it holds was used and maps to
   * the value of its last put; the keys go from the most recently used to the
   * least; and a used key it no longer holds was used before every key it
   * holds, which happens only once the cache is full.
   */
  lemma MostRecentlyUsed(cap: int, ops: seq<Op>)
    requires 1 <= cap
    ensures
      var c := Run(cap, ops);
      var h := Uses(cap, ops);
      && (forall k | k in c.contents :: k in h && c.contents[k] == LastPut(ops, k))
      && (forall i, j | 0 <= i < j < |c.order| ::
            c.order[i] in h && c.order[j] in h && LastUse(h, c.order[j]) < LastUse(h, c.order[i]))
      && (forall x | x in h && x !in c.contents ::
            |c.contents| == cap && forall y | y in c.contents :: y in h && LastUse(h, x) < LastUse(h, y))
  {
    var c, h := Run(cap, ops), Uses(cap, ops);
    RunIsRecent(cap, ops);
    RecencyMeaning(h);
    TakeByLastUse(h, cap);
    TakeDropsOldest(h, cap);
  }

  /**
   * After any calls on a new cache, `get(k)` hits exactly when `k` is among the
   * `cap` most recently used keys, and then answers the value of its last put.
   */
  lemma GetAfterCalls(cap: int, ops: seq<Op>, k: int)
    requires 1 <= cap
    ensures Get(Run(cap, ops), k).1 ==
      if k in Take(Recency(Uses(cap, ops)), cap) then LastPut(ops, k) else NotFound
  {
    RunIsRecent(cap, ops);
  }
}
