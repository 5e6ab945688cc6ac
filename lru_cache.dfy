/**
 * The LRU cache as the Java class builds it: a map from keys to list nodes and
 * a doubly-linked recency list between two dummy sentinels, `head` and `tail`.
 * `head.next` is the most recently used entry and `tail.prev` the least.  The
 * ghost fields `order` and `contents` are the abstract value (see LruModel);
 * `Valid()` ties them to the map and the list.
 */
module LruCache {
  import LruModel

  /**
   * One list node: a key/value pair and its two neighbours.  A node's key is
   * fixed when the node is made; its value and its links change.
   */
  class Node {
    const key: int
    var value: int
    var prev: Node?
    var next: Node?

    constructor (key: int, value: int)
      ensures this.key == key && this.value == value && prev == null && next == null
    {
      this.key, this.value := key, value;
      prev, next := null, null;
    }
  }

  /**
   * The index: between the two sentinels, the i-th node of `list` carries the
   * i-th key of `order`, and the map sends that key to that node.
   */
  ghost predicate Indexed(list: seq<Node>, order: seq<int>, cache: map<int, Node>) {
    && |list| == |order| + 2
    && forall i | 0 <= i < |order| ::
         list[i + 1].key == order[i] && order[i] in cache && cache[order[i]] == list[i + 1]
  }

  /** Moving the node of the i-th key to the front moves that key to the front. */
  lemma IndexedMoveToFront(list: seq<Node>, order: seq<int>, cache: map<int, Node>, i: int)
    requires Indexed(list, order, cache) && 0 <= i < |order|
    ensures Indexed([list[0], list[i + 1]] + (list[1..i + 1] + list[i + 2..]),
                    [order[i]] + (order[..i] + order[i + 1..]), cache)
  {
    var list' := [list[0], list[i + 1]] + (list[1..i + 1] + list[i + 2..]);
    var order' := [order[i]] + (order[..i] + order[i + 1..]);
    forall j | 0 <= j < |order'|
      ensures list'[j + 1].key == order'[j] && order'[j] in cache && cache[order'[j]] == list'[j + 1]
    {
      if j == 0 {
      } else if j <= i {
        assert list'[j + 1] == list[j] && order'[j] == order[j - 1];
      } else {
        assert list'[j + 1] == list[j + 1] && order'[j] == order[j];
      }
    }
  }

  /** Unlinking the last entry node drops the last key. */
  lemma IndexedEvict(list: seq<Node>, order: seq<int>, cache: map<int, Node>)
    requires Indexed(list, order, cache) && LruModel.Distinct(order) && 0 < |order|
    ensures Indexed(list[..|list| - 2] + list[|list| - 1..], order[..|order| - 1],
                    cache - {order[|order| - 1]})
  {
    var list' := list[..|list| - 2] + list[|list| - 1..];
    var order' := order[..|order| - 1];
    LruModel.DistinctLast(order);
    forall j | 0 <= j < |order'|
      ensures list'[j + 1].key == order'[j] && order'[j] in cache - {order[|order| - 1]}
      ensures (cache - {order[|order| - 1]})[order'[j]] == list'[j + 1]
    {
      assert list'[j + 1] == list[j + 1] && order'[j] == order[j];
    }
  }

  /** Linking a node with a new key in at the front puts that key at the front. */
  lemma IndexedAdd(list: seq<Node>, order: seq<int>, cache: map<int, Node>, node: Node)
    requires Indexed(list, order, cache) && node.key !in cache && 0 < |list|
    ensures Indexed([list[0], node] + list[1..], [node.key] + order, cache[node.key := node])
  {
    var list' := [list[0], node] + list[1..];
    var order' := [node.key] + order;
    forall j | 0 <= j < |order'|
      ensures list'[j + 1].key == order'[j] && order'[j] in cache[node.key := node]
      ensures cache[node.key := node][order'[j]] == list'[j + 1]
    {
      if j > 0 {
        assert list'[j + 1] == list[j] && order'[j] == order[j - 1];
      }
    }
  }

  class LRUCache {
    var cache: map<int, Node>
    const cap: int
    const head: Node
    const tail: Node

    // The list as a sequence of nodes: head, the entries front to back, tail.
    ghost var list: seq<Node>
    // The abstract value: keys front to back, and the value stored for each.
    ghost var order: seq<int>
    ghost var contents: map<int, int>
    // Every node the cache has linked in: the sentinels, the entry nodes and
    // the nodes it has evicted.
    ghost var Repr: set<Node>

    ghost function Model(): LruModel.Cache
      reads this`order, this`contents
    {
      LruModel.Cache(order, contents)
    }

    /** The k-th node of the list, counting `head` as 0. */
    ghost function At(k: int): Node
      reads this`list
      requires 0 <= k < |list|
    {
      list[k]
    }

    /**
     * The nodes of `list` are linked both ways, from `head` to `tail`, and
     * `tail` comes only at the end (so no node comes twice: LinkedDistinct).
     */
    ghost predicate Linked()
      reads this`list, this`Repr, Repr`next, Repr`prev
    {
      && 2 <= |list| && list[0] == head && list[|list| - 1] == tail
      && (forall i | 0 <= i < |list| :: list[i] in Repr)
      && (forall i | 0 <= i < |list| - 1 :: list[i] != tail)
      && (forall i {:trigger list[i].next} | 0 <= i < |list| - 1 :: list[i].next == list[i + 1])
      && (forall i {:trigger list[i].prev} | 0 < i < |list| :: list[i].prev == list[i - 1])
    }

    /** Following `next` from two equal nodes would reach `tail` twice. */
    lemma LinkedDistinct(a: int, b: int)
      requires Linked() && 0 <= a < b < |list|
      ensures list[a] != list[b]
      decreases |list| - b
    {
      if b < |list| - 1 {
        LinkedDistinct(a + 1, b + 1);
        assert list[a].next == list[a + 1] && list[b].next == list[b + 1];
      }
    }

    lemma LinkedAllDistinct()
      requires Linked()
      ensures forall a, b | 0 <= a < b < |list| :: list[a] != list[b]
    {
      forall a, b | 0 <= a < b < |list| ensures list[a] != list[b] {
        LinkedDistinct(a, b);
      }
    }

    /**
     * The object invariant: the list is well linked, the abstract value keeps
     * the LRU invariant, the map and the list index each other, and each node
     * the map gives holds its key's value.
     */
    ghost predicate Valid()
      reads this, Repr
    {
      && Linked()
      && LruModel.Inv(Model(), cap)
      && Indexed(list, order, cache)
      && cache.Keys == contents.Keys
      && Stored()
    }

    /** The node the map gives for a key holds that key and the key's value. */
    ghost predicate Stored()
      reads this`cache, this`contents, this`Repr, Repr`value
    {
      forall k | k in cache :: cache[k] in Repr && cache[k].key == k && k in contents && cache[k].value == contents[k]
    }

    /**
     * Relinking nodes and writing the value of at most the node of `key` keeps
     * every other stored value in place.
     */
    twostate lemma StoredAfterWrite(key: int)
      requires old(Stored()) && unchanged(this`cache, this`Repr) && key in cache
      requires contents == old(contents)[key := cache[key].value]
      requires forall n | n in Repr && n != cache[key] :: n.value == old(n.value)
      ensures Stored()
    {
      forall k | k in cache
        ensures cache[k] in Repr && cache[k].key == k && k in contents && cache[k].value == contents[k]
      {
        if k != key {
          assert cache[k].key != cache[key].key;
        }
      }
    }

    /** Relinking nodes, which changes no value, keeps every stored value in place. */
    twostate lemma StoredAfterRelinking()
      requires old(Stored()) && unchanged(this`cache, this`contents, this`Repr)
      requires forall n | n in Repr :: n.value == old(n.value)
      ensures Stored()
    {
    }

    /** An empty cache: `head <-> tail`, an empty map, and the given capacity. */
    constructor (capacity: int)
      requires capacity >= 1
      ensures Valid() && fresh(Repr)
      ensures cap == capacity && cache == map[] && head.next == tail && tail.prev == head
      ensures order == [] && contents == map[]
    {
      cache := map[];
      cap := capacity;
      head := new Node(0, 0);
      tail := new Node(0, 0);
      new;
      head.next := tail;
      tail.prev := head;
      list := [head, tail];
      order, contents := [], map[];
      Repr := {head, tail};
    }

    /** Splices `node`, which is not in the list, in right after `head`. */
    method AddNode(node: Node)
      requires Linked() && node in Repr && node !in list
      modifies this`list, head`next, At(1)`prev, node`next, node`prev
      ensures Linked()
      ensures list == [head, node] + old(list[1..])
      ensures head.next == node && node.prev == head && node.next == old(head.next)
    {
      LinkedAllDistinct();
      assert head.next == list[1];
      var neighbour := head.next;
      node.next := neighbour;
      node.prev := head;
      neighbour.prev := node;
      head.next := node;
      list := [head, node] + list[1..];
    }

    /** Unlinks `node`, the i-th element of the list, and clears its own links. */
    method RemoveNode(node: Node, ghost i: int)
      requires Linked() && 0 < i < |list| - 1 && list[i] == node
      modifies this`list, At(i - 1)`next, At(i + 1)`prev, node`next, node`prev
      ensures Linked()
      ensures list == old(list[..i] + list[i + 1..])
      ensures node.next == null && node.prev == null
    {
      LinkedAllDistinct();
      assert node.prev == list[i - 1] && node.next == list[i + 1];
      var prevNeighbour := node.prev;
      var nextNeighbour := node.next;
      prevNeighbour.next := nextNeighbour;
      nextNeighbour.prev := prevNeighbour;
      node.next, node.prev := null, null;
      list := list[..i] + list[i + 1..];
    }

    /** Moves `node`, the i-th element of the list, to the front. */
    method MoveToFront(node: Node, ghost i: int)
      requires Linked() && 0 < i < |list| - 1 && list[i] == node
      modifies this`list, At(i - 1)`next, At(i + 1)`prev, node`next, node`prev
      modifies head`next, At(1)`prev
      ensures Linked()
      ensures list == [head, node] + old(list[1..i] + list[i + 1..])
    {
      LinkedAllDistinct();
      RemoveNode(node, i);
      AddNode(node);
    }

    /**
     * Marks an entry as the most recently used: its node moves to the front of
     * the list and its key to the front of the order; no value and no other
     * relative position changes.
     */
    method Touch(node: Node)
      requires Valid() && node.key in cache && cache[node.key] == node
      modifies this, Repr
      ensures Valid() && Repr == old(Repr) && cache == old(cache)
      ensures Model() == LruModel.Cache([node.key] + LruModel.Without(old(order), node.key), old(contents))
    {
      ghost var i :| 0 <= i < |order| && order[i] == node.key;
      MoveToFront(node, i + 1);
      order := [node.key] + LruModel.Without(order, node.key);
      MovedToFrontValid(i);
    }

    /**
     * `get(key)`: a miss answers -1 and changes nothing; a hit moves the key's
     * node to the front of the list and answers the value it stores.
     */
    method Get(key: int) returns (r: int)
      requires Valid()
      modifies this, Repr
      ensures Valid() && Repr == old(Repr)
      ensures (Model(), r) == LruModel.Get(old(Model()), key)
    {
      if key !in cache {
        return -1;
      }
      var node := cache[key];
      Touch(node);
      r := node.value;
    }

    /**
     * `put(key, value)`: an existing key gets the new value and moves to the
     * front; a new key goes in at the front, after the node at the back of the
     * list has been evicted from the map and the list if the cache is full.
     */
    method Put(key: int, value: int)
      requires Valid()
      modifies this, Repr
      ensures Valid() && fresh(Repr - old(Repr))
      ensures Model() == LruModel.Put(old(Model()), cap, key, value)
    {
      if key !in cache {
        assert |cache| == |contents| by {
          assert |cache| == |cache.Keys| && |contents| == |contents.Keys|;
        }
        if |cache| == cap {
          EvictLru();
        }
        Insert(key, value);
      } else {
        var node := cache[key];
        node.value := value;
        contents := contents[key := value];
        WrittenValid(key);
        Touch(node);
      }
    }

    /**
     * The eviction step of `put`: the node before `tail` leaves the map and
     * the list, and its key, the least recently used one, leaves the order.
     */
    method EvictLru()
      requires Valid() && order != []
      modifies this, Repr
      ensures Valid() && Repr == old(Repr)
      ensures Model() == LruModel.Cache(old(order[..|order| - 1]), old(contents) - {old(LruModel.Lru(Model()))})
    {
      var lruNode := tail.prev;
      assert lruNode == list[|list| - 2];
      cache := cache - {lruNode.key};
      RemoveNode(lruNode, |list| - 2);
      order, contents := order[..|order| - 1], contents - {lruNode.key};
      EvictedValid();
    }

    /**
     * The insertion step of `put`: a fresh node made from the new key and its
     * value enters the cache.
     */
    method Insert(key: int, value: int)
      requires Valid() && key !in cache && |cache| < cap
      modifies this, Repr
      ensures Valid() && fresh(Repr - old(Repr))
      ensures Model() == LruModel.Cache([key] + old(order), old(contents)[key := value])
      ensures key in cache && fresh(cache[key]) && head.next == cache[key]
    {
      var newNode := new Node(key, value);
      Admit(newNode);
    }

    /** A node of a new key enters the map and the front of the list. */
    method Admit(node: Node)
      requires Valid() && node.key !in cache && |cache| < cap && node !in Repr
      modifies this, Repr, node
      ensures Valid() && Repr == old(Repr) + {node}
      ensures Model() == LruModel.Cache([node.key] + old(order), old(contents)[node.key := old(node.value)])
      ensures cache == old(cache)[node.key := node]
      ensures head.next == node && node.prev == head && node.next == old(head.next)
    {
      cache := cache[node.key := node];
      Repr := Repr + {node};
      AddNode(node);
      order, contents := [node.key] + order, contents[node.key := node.value];
      InsertedValid(node);
    }

    /**
     * Moving the node of the i-th key to the front of the list, and the key to
     * the front of the order, keeps the invariant.
     */
    twostate lemma MovedToFrontValid(i: int)
      requires old(Valid()) && 0 <= i < |old(order)|
      requires unchanged(this`cache, this`contents, this`Repr)
      requires forall n | n in Repr :: n.value == old(n.value)
      requires Linked()
      requires list == [head, old(list)[i + 1]] + old(list[1..i + 1] + list[i + 2..])
      requires order == [old(order)[i]] + LruModel.Without(old(order), old(order)[i])
      ensures Valid()
    {
      var key := old(order)[i];
      LruModel.WithoutAt(old(order), i);
      LruModel.GetKeepsInv(old(Model()), cap, key);
      IndexedMoveToFront(old(list), old(order), cache, i);
      StoredAfterRelinking();
    }

    /** Writing the value of an entry's node, and of its key, keeps the invariant. */
    twostate lemma WrittenValid(key: int)
      requires old(Valid()) && key in cache
      requires unchanged(this`cache, this`Repr, this`list, this`order)
      requires contents == old(contents)[key := cache[key].value]
      requires forall n | n in Repr && n != cache[key] :: n.value == old(n.value)
      requires forall n | n in Repr :: n.next == old(n.next) && n.prev == old(n.prev)
      ensures Valid()
    {
      LruModel.ReplaceKeepsInv(old(Model()), cap, key, cache[key].value);
      StoredAfterWrite(key);
    }

    /** Unlinking and unmapping the node at the back keeps the invariant. */
    twostate lemma EvictedValid()
      requires old(Valid()) && old(order) != []
      requires unchanged(this`Repr)
      requires cache == old(cache) - {old(order)[|old(order)| - 1]}
      requires contents == old(contents) - {old(order)[|old(order)| - 1]}
      requires forall n | n in Repr :: n.value == old(n.value)
      requires Linked()
      requires list == old(list[..|list| - 2] + list[|list| - 1..])
      requires order == old(order[..|order| - 1])
      ensures Valid()
    {
      LruModel.EvictKeepsInv(old(Model()), cap);
      IndexedEvict(old(list), old(order), old(cache));
    }

    /** Mapping and linking a fresh node of a new key in at the front keeps the invariant. */
    twostate lemma InsertedValid(node: Node)
      requires old(Valid()) && node.key !in old(cache) && |old(contents)| < cap
      requires node !in old(Repr) && Repr == old(Repr) + {node}
      requires cache == old(cache)[node.key := node]
      requires contents == old(contents)[node.key := node.value]
      requires forall n | n in old(Repr) :: n.value == old(n.value)
      requires Linked()
      requires list == [head, node] + old(list[1..])
      requires order == [node.key] + old(order)
      ensures Valid()
    {
      LruModel.InsertKeepsInv(old(Model()), cap, node.key, node.value);
      IndexedAdd(old(list), old(order), old(cache), node);
    }
  }
}
