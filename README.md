# LRU cache, modelled and verified in Dafny

This project models the LRU ("least recently used") cache class `LRUCache` of
`LRUcache/LRUCache.java`. The cache keeps a hash map from integer keys to
nodes. The same nodes form a doubly-linked recency list between two dummy
sentinels, `head` and `tail`. The node right after `head` is the most recently
used entry, and the node right before `tail` is the least recently used one.

- `get(key)` answers -1 on a miss. On a hit it moves the node to the front and
  answers the node's value.
- `put(key, value)` on a key the cache holds overwrites the value and moves the
  node to the front.
- `put` on a new key first evicts the node before `tail` if the map already
  holds `cap` entries. It then inserts a fresh node at the front.

The project has four modules.

- `LruModel` (`lru_model.dfy`) is the abstract meaning of the cache. A `Cache`
  value holds the keys ordered from most to least recently used, and a map from
  each key to its value. `Get` and `Put` are the transitions on that value. The
  invariant `Inv` says:
  - the keys are distinct;
  - the keys in the order are exactly the keys of the map;
  - the size never exceeds the capacity.

  The lemmas state what each transition promises.
- `LruCache` (`lru_cache.dfy`) is the Java class itself. It is a Dafny `class`
  with the real `cache` map and `Node` objects whose `prev`/`next`/`value`
  fields the methods update in place. Its ghost fields are:
  - the node sequence `list`;
  - the abstract value `order`/`contents`;
  - the footprint `Repr`.

  `Valid()` ties these to the heap. Every public method keeps `Valid()` and
  states its effect as the matching `LruModel` transition.
- `LruHistory` (`lru_history.dfy`) says what the cache holds after any sequence
  of calls, without the move-to-front and evict mechanics.
  - A history lists the uses of keys, oldest first. Every `put` uses its key,
    and a `get` uses its key only when it hits.
  - Its recency list holds each used key once, ordered from the latest last use
    down to the earliest. `RecencyMeaning` and `RecencyUnique` prove that it is
    the one list with that property.
  - The cache then holds the first `cap` keys of the recency list. Each of them
    has the value its last `put` gave it.
- `LruDemo` (`lru_demo.dfy`) replays the `main` method's trace at capacity 2,
  both on the abstract model and on the class.

## Model

| member | source | states |
|---|---|---|
| LruModel.Without | LRUcache/LRUCache.java:33-36 | after the key's node leaves its place, the remaining keys are exactly the old keys other than that key, and there are no more of them than before |
| LruModel.WithoutAt | LRUcache/LRUCache.java:22-36 | in a list of distinct keys, removing the key at position i is the same as splicing out exactly position i; every other key keeps its relative order |
| LruModel.DistinctLast | LRUcache/LRUCache.java:70-72 | in a list of distinct keys, the key at the back (the one before `tail`) occurs nowhere else, so evicting it removes exactly one entry |
| LruModel.EmptyKeepsInv | LRUcache/LRUCache.java:42-50 | an empty cache with a positive capacity satisfies the invariant |
| LruModel.GetKeepsInv | LRUcache/LRUCache.java:52-58 | `get` keeps the invariant: distinct keys, map keys equal list keys, same size, size at most the capacity |
| LruModel.EvictKeepsInv | LRUcache/LRUCache.java:69-73 | dropping the back key from the order and the map keeps the invariant and shrinks the size by exactly one |
| LruModel.InsertKeepsInv | LRUcache/LRUCache.java:75-76 | a new key added at the front of a cache with room keeps the invariant |
| LruModel.ReplaceKeepsInv | LRUcache/LRUCache.java:80 | overwriting the value of a held key keeps the invariant |
| LruModel.PutKeepsInv | LRUcache/LRUCache.java:61-83 | every `put` keeps the invariant; in particular the size never exceeds the capacity |
| LruModel.GetMeaning | LRUcache/LRUCache.java:52-58 | a miss returns -1 and changes nothing; a hit returns the stored value, changes no value, moves the key to the front and keeps the relative order of every other key |
| LruModel.GetTwice | LRUcache/LRUCache.java:52-58 | two `get`s of the same key in a row leave the same state and answer as one |
| LruModel.PutExisting | LRUcache/LRUCache.java:79-82 | `put` of a held key replaces its value, moves it to the front, keeps the size and keeps the relative order of the other keys |
| LruModel.PutEvicts | LRUcache/LRUCache.java:64-77 | `put` of a new key into a full cache evicts exactly the back key, keeps every other value, puts the new key at the front with its value and keeps the size at the capacity |
| LruModel.PutInserts | LRUcache/LRUCache.java:64-77 | `put` of a new key into a cache with room adds the key at the front with its value, evicts nothing and grows the size by one |
| LruModel.PutTwice | LRUcache/LRUCache.java:61-83 | after two `put`s of the same key the size is what the first one left, and a `get` of the key answers the second value |
| LruModel.CapacityOne | LRUcache/LRUCache.java:69-76 | at capacity one, `put` of a new key leaves exactly that key and its value |
| LruModel.Get | LRUcache/LRUCache.java:52-58 | `get`: no value changes; a hit answers the stored value and puts the key at the front of the order; a miss answers -1 and leaves the state as it was |
| LruModel.Put | LRUcache/LRUCache.java:61-83 | `put`: afterwards the key is held with the given value and is at the front of the order |
| LruHistory.StepKeepsInv | LRUcache/LRUCache.java:52-83 | each call, `get` or `put`, keeps the invariant |
| LruHistory.Run | LRUcache/LRUCache.java:42-83 | any sequence of calls on a new cache leaves a state that keeps the invariant |
| LruHistory.RecencyMeaning | LRUcache/LRUCache.java:32-36 | the recency list holds exactly the used keys, each once, ordered from the most recently used to the least |
| LruHistory.RecencyUnique | LRUcache/LRUCache.java:32-36 | every list of the used keys, each once and ordered by last use, is the recency list |
| LruHistory.HitIsRecent | LRUcache/LRUCache.java:33-36 | moving a held key to the front of the cache's order matches moving it to the front of the recency list |
| LruHistory.EvictIsRecent | LRUcache/LRUCache.java:69-76 | evicting the back key of a full cache for a new key matches the key of the `cap`-th place dropping out of the recency list's first `cap` places |
| LruHistory.InsertIsRecent | LRUcache/LRUCache.java:75-76 | adding a new key to a cache with room matches the key going in front of the whole recency list |
| LruHistory.StepIsRecent | LRUcache/LRUCache.java:52-83 | if the order is the first `cap` keys of the recency list, it still is after one more call and its use of the key |
| LruHistory.StepKeepsValues | LRUcache/LRUCache.java:61-83 | if each held key maps to the value of its last `put`, it still does after one more call |
| LruHistory.RunIsRecent | LRUcache/LRUCache.java:52-83 | after any calls on a new cache, the order is the first `cap` keys of the recency list, and each key maps to the value of its last `put` |
| LruHistory.TakeByLastUse | LRUcache/LRUCache.java:32-36 | the first `n` keys of the recency list go from the most recently used to the least |
| LruHistory.TakeDropsOldest | LRUcache/LRUCache.java:69-73 | a used key outside the first `n` keys of the recency list was used before every key inside them, and there are `n` of those |
| LruHistory.MostRecentlyUsed | LRUcache/LRUCache.java:52-83 | after any calls on a new cache: each held key was used and has its last `put` value; the order goes from the most recently used key to the least; a used key no longer held was used before every held key, and the cache is full |
| LruHistory.GetAfterCalls | LRUcache/LRUCache.java:52-58 | after any calls on a new cache, `get(k)` hits exactly when `k` is among the `cap` most recently used keys, and then answers the value of the last `put` of `k` |
| LruCache.Node.constructor | LRUcache/LRUCache.java:65-67 | a new node holds the given key and value and has no neighbours yet |
| LruCache.IndexedMoveToFront | LRUcache/LRUCache.java:33-36 | moving the node of the i-th key to the front of the list keeps the index between the map, the list and the order, with that key moved to the front |
| LruCache.IndexedEvict | LRUcache/LRUCache.java:70-72 | unlinking and unmapping the node before `tail` keeps the index, with the back key dropped |
| LruCache.IndexedAdd | LRUcache/LRUCache.java:75-76 | mapping and linking a node of a new key right after `head` keeps the index, with the key at the front |
| LruCache.LRUCache.LinkedDistinct | LRUcache/LRUCache.java:5-8 | in a list linked both ways from `head` to `tail`, no node occurs twice |
| LruCache.LRUCache.constructor | LRUcache/LRUCache.java:42-50 | the new cache is empty: `head.next == tail`, `tail.prev == head`, an empty map, the given capacity, and the invariant holds |
| LruCache.LRUCache.AddNode | LRUcache/LRUCache.java:11-19 | `head.next` is the node, the node's `prev` is `head` and its `next` is the old first node; the list is the node in front of the old entries, linked both ways |
| LruCache.LRUCache.RemoveNode | LRUcache/LRUCache.java:22-30 | the node is unlinked, its two neighbours are linked to each other, the rest of the list is unchanged, and the node's own links are cleared |
| LruCache.LRUCache.MoveToFront | LRUcache/LRUCache.java:33-36 | the node leaves its position and comes right after `head`; every other node keeps its relative order |
| LruCache.LRUCache.Touch | LRUcache/LRUCache.java:57 | the node of a held key moves to the front of the list and its key to the front of the order; no value changes and the invariant holds |
| LruCache.LRUCache.Get | LRUcache/LRUCache.java:52-59 | `get` keeps the invariant, and its answer and new abstract state are those of `LruModel.Get` |
| LruCache.LRUCache.Put | LRUcache/LRUCache.java:61-83 | `put` keeps the invariant, allocates only fresh nodes, and its new abstract state is that of `LruModel.Put` |
| LruCache.LRUCache.EvictLru | LRUcache/LRUCache.java:69-73 | the node before `tail` leaves the map and the list, and its key, the least recently used one, leaves the order and the contents |
| LruCache.LRUCache.Insert | LRUcache/LRUCache.java:65-67 | a freshly allocated node of the new key and value enters the map and sits at `head.next` (by way of `Admit`, lines 75-76); the key goes to the front of the order with its value, and the invariant holds |
| LruCache.LRUCache.Admit | LRUcache/LRUCache.java:75-76 | the map becomes the old map with the node's key sent to that node; the node is linked between `head` and the old first node; the key goes to the front of the order with the node's value, and the invariant holds |
| LruDemo.TracePuts | LRUcache/LRUCache.java:87-88 | at capacity 2, `put(1,1)` then `put(2,2)` leave keys 2, 1 (front first) with their values |
| LruDemo.TraceFirstGet | LRUcache/LRUCache.java:89 | `get(1)` answers 1 and moves key 1 to the front |
| LruDemo.TraceFirstEviction | LRUcache/LRUCache.java:90-91 | `put(3,3)` evicts key 2, so `get(2)` answers -1 |
| LruDemo.TraceSecondEviction | LRUcache/LRUCache.java:92-93 | `put(4,4)` evicts key 1, so `get(1)` answers -1 |
| LruDemo.TraceLastGets | LRUcache/LRUCache.java:94-95 | `get(3)` answers 3 and `get(4)` answers 4 |
| LruDemo.Opening | LRUcache/LRUCache.java:87-89 | on the class: the two puts and the first get, which answers 1 |
| LruDemo.FirstEviction | LRUcache/LRUCache.java:90-91 | on the class: `put(3,3)` evicts key 2, and `get(2)` answers -1 |
| LruDemo.SecondEviction | LRUcache/LRUCache.java:92-93 | on the class: `put(4,4)` evicts key 1, and `get(1)` answers -1 |
| LruDemo.Closing | LRUcache/LRUCache.java:94-95 | on the class: `get(3)` answers 3 and `get(4)` answers 4 |
| LruDemo.Scenario | LRUcache/LRUCache.java:85-96 | the whole `main` trace on a new cache of capacity 2 answers 1, -1, -1, 3, 4 |

## Left out

- Printing: `main` prints the answers. `LruDemo.Scenario` returns them instead.
- The hash map's hashing and its O(1) cost: the map is a Dafny `map`, and the model states no costs.
- Capacity below one: the constructor requires `capacity >= 1`, so two Java behaviours are not modelled. With a capacity of 0, the first `put` of a new key finds `cache.size() == cap` and takes `tail.prev`, which is `head`. `removeNode(head)` then writes through `head.prev`, which is null, and throws a `NullPointerException`. With a negative capacity, `cache.size() == cap` never holds, because a size is never negative. Nothing is then ever evicted, and the cache grows without bound.
- The sentinel -1: `get` answers -1 on a miss, exactly as the Java code does. A stored value of -1 is therefore indistinguishable from a miss, and the model keeps this ambiguity.
- 32-bit `int`: keys and values are only stored and compared, never computed with, so an unbounded `int` behaves the same.
- Node keys: a node's key is a `const` set when the node is made. The Java code sets it right after `new Node()`, on line 66, and never changes it. Likewise `head`, `tail` and `cap` are `const`, since the Java code assigns them only in the constructor.
- LruCache.LRUCache.Put: the branches of `put` are split into the helper methods `EvictLru`, `Insert`/`Admit` and `Touch`. These run the same statements in the same order, with one exception: the fresh node is allocated after the eviction rather than before it. Nothing can observe this difference.
- LruCache.LRUCache.Put: its `ensures` says only that the nodes it adds are fresh, not which node that is.
- Evicted nodes: an evicted node stays in the ghost footprint `Repr` (unreachable from the map and the list), so `Repr` never shrinks.
- Concurrency: the Java class is not thread-safe, and the model is sequential.
