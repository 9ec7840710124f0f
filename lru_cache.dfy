/**
  The LRU cache of Code.py as objects on the heap: a map from each key to its
  list node, and a doubly linked recency list between two sentinel nodes.

  Ghost state ties the links to the abstract cache of module LruSpec: `nodes`
  is the list as a sequence, head sentinel first and tail sentinel last;
  `order` and `contents` are the keys front to back and their values. Every
  public method is proved to change the abstract state exactly as the
  corresponding LruSpec function does.
 */
module LruCache {
  import LruSpec

  /** An entry of the recency list: a key, its value and the two links. */
  class ListNode {
    const key: int
    var value: int
    var prev: ListNode?
    var next: ListNode?

    constructor (key: int, value: int)
      ensures this.key == key && this.value == value
      ensures prev == null && next == null
    {
      this.key := key;
      this.value := value;
      prev := null;
      next := null;
    }
  }

  class LRUCache {
    const capacity: int
    var cache: map<int, ListNode>
    const head: ListNode  // sentinel before the most recently used node
    const tail: ListNode  // sentinel after the least recently used node
    var accesses: int
    var misses: int

    ghost var nodes: seq<ListNode>
    ghost var order: seq<int>
    ghost var contents: map<int, int>
    ghost var Repr: set<ListNode>

    /** `nodes` is a well-formed doubly linked list from `head` to `tail`. */
    ghost predicate Linked()
      reads this`nodes, this`Repr, Repr`next, Repr`prev
    {
      && 2 <= |nodes|
      && nodes[0] == head && nodes[|nodes| - 1] == tail
      && (forall i :: 0 <= i < |nodes| ==> nodes[i] in Repr)
      && (forall i, j :: 0 <= i < j < |nodes| ==> nodes[i] != nodes[j])
      && (forall i {:trigger nodes[i].next} :: 0 <= i < |nodes| - 1 ==> nodes[i].next == nodes[i + 1])
      && (forall i {:trigger nodes[i].prev} :: 0 < i < |nodes| ==> nodes[i].prev == nodes[i - 1])
    }

    ghost function Abs(): LruSpec.State
      reads this
    {
      LruSpec.State(capacity, order, contents, accesses, misses)
    }

    /** Each node of the map is in `Repr` and holds the value of its key. */
    ghost predicate Stored()
      reads this`cache, this`contents, this`Repr, Repr`value
    {
      forall k :: k in cache ==> cache[k] in Repr && k in contents && cache[k].value == contents[k]
    }

    /**
      The links and the map agree with the ghost state: see Tables for the
      part that does not depend on the nodes' fields.
     */
    ghost predicate Coherent()
      reads this`nodes, this`order, this`cache, this`contents, this`Repr, Repr`next, Repr`prev, Repr`value
    {
      && Linked()
      && Tables(nodes, order, cache, contents)
      && Stored()
    }

    /**
      The object invariant: coherent, a positive capacity that bounds the
      number of keys, and counters with no more misses than accesses.
     */
    ghost predicate Valid()
      reads this, Repr
    {
      && Coherent()
      && 0 < capacity
      && |order| <= capacity
      && 0 <= misses <= accesses
    }

    /** A valid cache abstracts to a state satisfying LruSpec.Inv. */
    lemma AbsInv()
      requires Valid()
      ensures LruSpec.Inv(Abs())
    {
      forall i | 0 <= i < |order| ensures order[i] in contents {
        assert order[i] in cache;
      }
    }

    /** A cache of the given positive capacity, empty, with the sentinels linked. */
    constructor (capacity: int)
      requires capacity > 0
      ensures Valid() && fresh(Repr)
      ensures Abs() == LruSpec.Init(capacity).value
      ensures head.next == tail && tail.prev == head
    {
      var h := new ListNode(0, 0);
      var t := new ListNode(0, 0);
      h.next := t;
      t.prev := h;
      this.capacity := capacity;
      cache := map[];
      head := h;
      tail := t;
      accesses := 0;
      misses := 0;
      nodes := [h, t];
      order := [];
      contents := map[];
      Repr := {h, t};
    }

    /** Unlinks the node at position `i`; its own links are left as they were. */
    method Remove(node: ListNode, ghost i: int)
      requires Linked() && 0 < i < |nodes| - 1 && nodes[i] == node
      requires node.prev == nodes[i - 1] && node.next == nodes[i + 1]
      modifies this`nodes, node.prev`next, node.next`prev
      ensures Linked()
      ensures nodes == old(nodes[..i] + nodes[i + 1..])
    {
      node.prev.next := node.next;
      node.next.prev := node.prev;
      nodes := nodes[..i] + nodes[i + 1..];
    }

    /** Links a node that is not in the list right after `head`. */
    method AddToHead(node: ListNode)
      requires Linked() && node in Repr && node !in nodes
      requires head.next == nodes[1]
      modifies this`nodes, node`prev, node`next, head`next, head.next`prev
      ensures Linked()
      ensures nodes == [head, node] + old(nodes[1..])
    {
      node.prev := head;
      node.next := head.next;
      head.next.prev := node;
      head.next := node;
      nodes := [head, node] + nodes[1..];
    }

    /** Moves the node at position `i` to the front, the others keeping their order. */
    method MoveToHead(node: ListNode, ghost i: int)
      requires Linked() && 0 < i < |nodes| - 1 && nodes[i] == node
      requires node.prev == nodes[i - 1] && node.next == nodes[i + 1] && head.next == nodes[1]
      modifies this`nodes, node`prev, node`next, node.prev`next, node.next`prev, head`next, head.next`prev
      ensures Linked()
      ensures nodes == [head, node] + old(nodes[1..i] + nodes[i + 1..])
    {
      Remove(node, i);
      assert head.next == nodes[1] == if i == 1 then old(node.next) else old(head.next);
      AddToHead(node);
    }

    /**
      The recency update of a hit: the node of a cached key moves to the front
      of the list and the key becomes the most recent one, the other keys
      keeping their order.
     */
    method Refresh(node: ListNode)
      requires Coherent() && node.key in order && cache[node.key] == node
      modifies this`nodes, this`order, Repr`next, Repr`prev
      ensures Coherent() && order == LruSpec.MoveToFront(old(order), node.key)
    {
      ghost var i :| 0 <= i < |order| && order[i] == node.key;
      ghost var ns := nodes;
      TablesMoveToFront(ns, order, cache, contents, i);
      order := LruSpec.MoveToFront(order, node.key);
      assert node.prev == ns[i] && node.next == ns[i + 2] && head.next == ns[1];
      MoveToHead(node, i + 1);
    }

    /** Unlinks and returns the node just before `tail`. */
    method PopTail() returns (lru: ListNode)
      requires Linked() && |nodes| > 2
      requires tail.prev == nodes[|nodes| - 2] && nodes[|nodes| - 2].prev == nodes[|nodes| - 3]
      modifies this`nodes, tail.prev.prev`next, tail`prev
      ensures Linked()
      ensures lru == old(nodes[|nodes| - 2])
      ensures nodes == old(nodes[..|nodes| - 2] + nodes[|nodes| - 1..])
    {
      lru := tail.prev;
      Remove(lru, |nodes| - 2);
    }

    /** `get`: the stored value of `key` (made most recent), or -1 on a miss. */
    method Get(key: int) returns (v: int)
      requires Valid()
      modifies this, Repr
      ensures Valid() && Repr == old(Repr)
      ensures LruSpec.Get(old(Abs()), key) == LruSpec.Answer(Abs(), v)
    {
      assert key in cache ==> key in order by { AbsInv(); LruSpec.KeysAreOrder(Abs()); }
      Tally(key !in cache);
      if key in cache {
        var node := cache[key];
        Refresh(node);
        v := node.value;
        LruSpec.GetHitFields(old(Abs()), key, Abs(), v);
      } else {
        v := LruSpec.NotFound;
        LruSpec.GetMissFields(old(Abs()), key, Abs(), v);
      }
    }

    /**
      `put`: store `value` under `key` as the most recent entry, evicting the
      least recently used entry when a new key pushes the size past capacity.
     */
    method Put(key: int, value: int)
      requires Valid()
      modifies this, Repr
      ensures Valid() && fresh(Repr - old(Repr))
      ensures Abs() == LruSpec.Put(old(Abs()), key, value)
    {
      assert key in cache ==> key in order by { AbsInv(); LruSpec.KeysAreOrder(Abs()); }
      if key in cache {
        PutExisting(cache[key], value);
      } else {
        PutNew(key, value);
      }
    }

    /** The first branch of `put`, counters included. */
    method PutExisting(node: ListNode, value: int)
      requires Valid() && node.key in order && cache[node.key] == node
      modifies this`accesses, this`misses, this`nodes, this`order, this`contents, Repr`next, Repr`prev, node`value
      ensures Valid() && Abs() == LruSpec.Put(old(Abs()), node.key, value)
    {
      Tally(false);
      UpdateExisting(node, value);
      LruSpec.PutHitFields(old(Abs()), node.key, value, Abs());
    }

    /** The second branch of `put`, counters included. */
    method PutNew(key: int, value: int)
      requires Valid() && key !in cache
      modifies this`accesses, this`misses, this`cache, this`Repr, this`nodes, this`order, this`contents, Repr`next, Repr`prev
      ensures Valid() && fresh(Repr - old(Repr))
      ensures Abs() == LruSpec.Put(old(Abs()), key, value)
    {
      Tally(true);
      InsertNew(key, value);
      LruSpec.PutMissFields(old(Abs()), key, value, Abs());
    }

    /** Counts an access of `get` or `put`, and a miss when `miss` holds. */
    method Tally(miss: bool)
      requires Valid()
      modifies this`accesses, this`misses
      ensures Valid()
      ensures accesses == old(accesses) + 1
      ensures misses == if miss then old(misses) + 1 else old(misses)
    {
      accesses := accesses + 1;
      if miss {
        misses := misses + 1;
      }
    }

    /**
      The update of a cached key (the first branch of `put`): its node gets the
      new value and moves to the front of the list.
     */
    method UpdateExisting(node: ListNode, value: int)
      requires Coherent() && node.key in order && cache[node.key] == node
      modifies this`nodes, this`order, this`contents, Repr`next, Repr`prev, node`value
      ensures Coherent() && order == LruSpec.MoveToFront(old(order), node.key)
      ensures contents == old(contents)[node.key := value]
    {
      SetValue(node, value);
      Refresh(node);
    }

    /** The new value of a cached key goes into its node. */
    method SetValue(node: ListNode, value: int)
      requires Coherent() && node.key in cache && cache[node.key] == node
      modifies node`value, this`contents
      ensures Coherent() && contents == old(contents)[node.key := value]
    {
      assert contents.Keys == contents[node.key := value].Keys;
      node.value := value;
      contents := contents[node.key := value];
    }

    /**
      The insertion of a new key (the second branch of `put`): it goes in at
      the front, and when the map then holds more than `capacity` keys the
      least recently used key is evicted.
     */
    method InsertNew(key: int, value: int)
      requires Coherent() && key !in cache && 0 < capacity && |order| <= capacity
      modifies this`cache, this`Repr, this`nodes, this`order, this`contents, Repr`next, Repr`prev
      ensures Coherent() && fresh(Repr - old(Repr)) && |order| <= capacity
      ensures var o := [key] + old(order); var c := old(contents)[key := value];
        if |c| > capacity then order == o[..|o| - 1] && contents == c - {o[|o| - 1]}
        else order == o && contents == c
    {
      AddEntry(key, value);
      assert |cache| == |cache.Keys| == |contents.Keys| == |contents|;
      if |cache| > capacity {
        EvictLru();
      }
    }

    /** A fresh node for a new key goes into the map and right after `head`. */
    method AddEntry(key: int, value: int)
      requires Coherent() && key !in cache
      modifies this`cache, this`Repr, this`nodes, this`order, this`contents, Repr`next, Repr`prev
      ensures Coherent() && fresh(Repr - old(Repr))
      ensures order == [key] + old(order) && contents == old(contents)[key := value]
    {
      var newNode := new ListNode(key, value);
      assert newNode !in nodes;
      Register(newNode);
      assert Linked();
      AddToHead(newNode);
    }

    /** Enters a fresh node into the map under its key; linking it is left to the caller. */
    method Register(node: ListNode)
      requires Tables(nodes, order, cache, contents) && Stored() && node.key !in cache && node !in Repr
      requires 2 <= |nodes|
      modifies this`cache, this`Repr, this`order, this`contents
      ensures Stored() && Tables([nodes[0], node] + nodes[1..], order, cache, contents)
      ensures Repr == old(Repr) + {node}
      ensures order == [node.key] + old(order) && contents == old(contents)[node.key := node.value]
    {
      TablesInsert(nodes, order, cache, contents, node.key, node.value, node);
      cache, Repr, order, contents := cache[node.key := node], Repr + {node}, [node.key] + order, contents[node.key := node.value];
    }

    /**
      The eviction: the node just before `tail` leaves the list and its key,
      the least recently used one, leaves the map.
     */
    method EvictLru()
      requires Coherent() && |order| > 0
      modifies this`cache, this`nodes, this`order, this`contents, Repr`next, Repr`prev
      ensures Coherent()
      ensures order == old(order[..|order| - 1]) && contents == old(contents) - {old(order[|order| - 1])}
    {
      TablesEvict(nodes, order, cache, contents);
      assert tail.prev == nodes[|nodes| - 2] && nodes[|nodes| - 2].prev == nodes[|nodes| - 3];
      var lruNode := PopTail();
      Forget(lruNode.key);
    }

    /** Drops the last key of the order, whose node is already unlinked, from the map. */
    method Forget(key: int)
      requires Stored() && |order| > 0 && key == order[|order| - 1]
      requires Tables(nodes, order[..|order| - 1], cache - {key}, contents - {key})
      modifies this`cache, this`order, this`contents
      ensures Tables(nodes, order, cache, contents) && Stored()
      ensures order == old(order[..|order| - 1]) && contents == old(contents) - {key}
    {
      cache, order, contents := cache - {key}, order[..|order| - 1], contents - {key};
    }

    /** `current_size`: the number of cached keys, never above capacity. */
    method CurrentSize() returns (n: int)
      requires Valid()
      ensures n == LruSpec.Size(Abs()) && n == |order| && n <= capacity
    {
      n := |cache|;
      assert |cache| == |cache.Keys| == |contents.Keys| == |contents|;
    }

    /** `miss_rate`: misses as a percentage of accesses, 0 before any access. */
    method MissRate() returns (r: real)
      requires Valid()
      ensures r == LruSpec.MissRate(accesses, misses)
      ensures 0.0 <= r <= 100.0
      ensures accesses == 0 ==> r == 0.0
    {
      if accesses == 0 {
        r := 0.0;
      } else {
        r := (misses as real / accesses as real) * 100.0;
      }
    }
  }

  /**
    The map and the ghost state agree: the real nodes are the map's nodes for
    the keys of `order`, in that order; each of the map's nodes is in `repr`
    and holds its own key; the map and `contents` have the same keys; and
    `order` lists each of them once.
   */
  ghost predicate Tables(ns: seq<ListNode>, ord: seq<int>, cache: map<int, ListNode>, contents: map<int, int>) {
    && Indexes(ns, ord, cache)
    && (forall k :: k in cache ==> cache[k].key == k)
    && cache.Keys == contents.Keys
    && LruSpec.Distinct(ord)
    && |contents| == |ord|
  }

  /**
    The real nodes of `ns` (all but the two sentinels) are, in order, the nodes
    that `cache` gives for the keys of `ord`.
   */
  ghost predicate Indexes(ns: seq<ListNode>, ord: seq<int>, cache: map<int, ListNode>) {
    && |ns| == |ord| + 2
    && forall i :: 0 <= i < |ord| ==> ord[i] in cache && cache[ord[i]] == ns[i + 1]
  }

  /** Moving the node of `ord[i]` to the front follows moving `ord[i]` to the front. */
  lemma IndexesMoveToFront(ns: seq<ListNode>, ord: seq<int>, cache: map<int, ListNode>, i: int)
    requires Indexes(ns, ord, cache) && 0 <= i < |ord|
    ensures Indexes([ns[0], ns[i + 1]] + (ns[1..i + 1] + ns[i + 2..]), [ord[i]] + ord[..i] + ord[i + 1..], cache)
  {
    var ns' := [ns[0], ns[i + 1]] + (ns[1..i + 1] + ns[i + 2..]);
    var ord' := [ord[i]] + ord[..i] + ord[i + 1..];
    forall j | 0 <= j < |ord'| ensures ord'[j] in cache && cache[ord'[j]] == ns'[j + 1] {
      if j == 0 {
      } else if j <= i {
        assert ord'[j] == ord[j - 1] && ns'[j + 1] == ns[j];
      } else {
        assert ord'[j] == ord[j] && ns'[j + 1] == ns[j + 1];
      }
    }
  }

  /** Linking a new node for a new key after the head sentinel. */
  lemma IndexesInsert(ns: seq<ListNode>, ord: seq<int>, cache: map<int, ListNode>, key: int, n: ListNode)
    requires Indexes(ns, ord, cache) && key !in ord
    ensures Indexes([ns[0], n] + ns[1..], [key] + ord, cache[key := n])
  {
    var ns' := [ns[0], n] + ns[1..];
    var ord' := [key] + ord;
    forall j | 0 <= j < |ord'| ensures ord'[j] in cache[key := n] && cache[key := n][ord'[j]] == ns'[j + 1] {
      if j > 0 {
        assert ord'[j] == ord[j - 1] && ns'[j + 1] == ns[j];
      }
    }
  }

  /** Unlinking the node before the tail sentinel and dropping the last key. */
  lemma IndexesEvict(ns: seq<ListNode>, ord: seq<int>, cache: map<int, ListNode>)
    requires Indexes(ns, ord, cache) && LruSpec.Distinct(ord) && |ord| > 0
    ensures Indexes(ns[..|ns| - 2] + ns[|ns| - 1..], ord[..|ord| - 1], cache - {ord[|ord| - 1]})
  {
    var ns' := ns[..|ns| - 2] + ns[|ns| - 1..];
    var ord' := ord[..|ord| - 1];
    forall j | 0 <= j < |ord'| ensures ord'[j] in cache - {ord[|ord| - 1]} && (cache - {ord[|ord| - 1]})[ord'[j]] == ns'[j + 1] {
      assert ord'[j] == ord[j] != ord[|ord| - 1];
      assert ns'[j + 1] == ns[j + 1];
    }
  }

  /** Touching the key `ord[i]`: its node moves to the front of the real nodes. */
  lemma TablesMoveToFront(ns: seq<ListNode>, ord: seq<int>, cache: map<int, ListNode>, contents: map<int, int>, i: int)
    requires Tables(ns, ord, cache, contents) && 0 <= i < |ord|
    ensures Tables([ns[0], ns[i + 1]] + (ns[1..i + 1] + ns[i + 2..]), LruSpec.MoveToFront(ord, ord[i]), cache, contents)
  {
    IndexesMoveToFront(ns, ord, cache, i);
    LruSpec.MoveToFrontAt(ord, i);
  }

  /** Inserting a new key with a new node right after the head sentinel. */
  lemma TablesInsert(ns: seq<ListNode>, ord: seq<int>, cache: map<int, ListNode>, contents: map<int, int>, key: int, value: int, n: ListNode)
    requires Tables(ns, ord, cache, contents) && key !in cache && n.key == key
    ensures Tables([ns[0], n] + ns[1..], [key] + ord, cache[key := n], contents[key := value])
  {
    assert key !in ord;
    IndexesInsert(ns, ord, cache, key, n);
    LruSpec.DistinctCons(key, ord);
    assert key !in contents;
  }

  /** Evicting the last key of the order together with the node before the tail sentinel. */
  lemma TablesEvict(ns: seq<ListNode>, ord: seq<int>, cache: map<int, ListNode>, contents: map<int, int>)
    requires Tables(ns, ord, cache, contents) && |ord| > 0
    ensures var lru := ord[|ord| - 1];
      Tables(ns[..|ns| - 2] + ns[|ns| - 1..], ord[..|ord| - 1], cache - {lru}, contents - {lru})
  {
    var lru := ord[|ord| - 1];
    IndexesEvict(ns, ord, cache);
    assert lru in contents;
    var ord' := ord[..|ord| - 1];
    assert forall i, j :: 0 <= i < j < |ord'| ==> ord'[i] == ord[i] && ord'[j] == ord[j];
  }

  /**
    The demo of Code.py on the class: capacity 3, put(1,1), put(2,2), get(1),
    put(3,3), put(4,4), get(2), miss_rate().
   */
  method EvictionDemo() returns (hit: int, miss: int, rate: real)
    ensures hit == 1 && miss == LruSpec.NotFound && rate == 250.0 / 3.0
  {
    var c := new LRUCache(3);
    c.Put(1, 1);
    c.Put(2, 2);
    hit := c.Get(1);
    c.Put(3, 3);
    c.Put(4, 4);
    miss := c.Get(2);
    rate := c.MissRate();
    LruSpec.EvictionScenario();
  }

  /** Construction: refuses a capacity below 1 (`__init__` in Code.py raises ValueError). */
  method Create(capacity: int) returns (r: LruSpec.Result<LRUCache>)
    ensures r.Err? <==> capacity <= 0
    ensures r.Err? ==> r.error == LruSpec.InvalidCapacity
    ensures r.Ok? ==> r.value.Valid() && fresh(r.value.Repr)
    ensures r.Ok? ==> r.value.Abs() == LruSpec.Init(capacity).value
  {
    if capacity <= 0 {
      return LruSpec.Err(LruSpec.InvalidCapacity);
    }
    var c := new LRUCache(capacity);
    r := LruSpec.Ok(c);
  }
}
