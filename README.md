# LRU cache, modelled and verified in Dafny

This project models the least-recently-used cache of `Code.py`: class `LRUCache` and its `ListNode` entries.

- **Storage.** A dictionary maps each key to its list node. A doubly linked list between a dummy `head` and a dummy `tail` keeps the keys in recency order. The most recently used key sits right after `head`; the least recently used sits right before `tail`.
- **`get`** answers the stored value and moves the node to the front. A key that is not cached answers `-1`.
- **`put`** updates an existing key and moves it to the front. Otherwise it inserts a new node at the front. When the dictionary then holds more than `capacity` keys, it evicts the node before `tail`.
- **Counters.** Every `get` and `put` counts an access. A `get` miss and a `put` of a new key also count a miss. `current_size` and `miss_rate` read the state.

The model has two modules.

- **`LruSpec`** (`lru_spec.dfy`) describes the cache as a value: `State` holds the capacity, the recency order (`seq<int>`, most recent first), the contents (`map<int, int>`) and the two counters. `Get`, `Put` and `Size` are functions of the state, `Init` of the capacity and `MissRate` of the two counters. The lemmas prove the following about them:
  - what a hit, a miss, an update and an insertion each do;
  - that eviction drops exactly the least recently used key;
  - that every operation preserves the invariant `Inv`: the order lists each key of the map once, the size never exceeds the capacity, and misses never exceed accesses;
  - the capacity-3 scenario of the module's demo.
- **`LruCache`** (`lru_cache.dfy`) is the imperative class. It has heap nodes with mutable `value`/`prev`/`next` fields, the `cache` map, the two sentinels and the counters.
  - Ghost fields tie these to the abstract state: `nodes` is the list as a sequence from `head` to `tail`, and `order` and `contents` are the keys in recency order and their values. `Repr` is the set of nodes the cache owns: the sentinels and every node it has ever created, evicted nodes included, since eviction only unlinks a node.
  - `Valid()` states that the links form a well-formed doubly linked list over `nodes`. It also states that the real nodes are, in order, the map's nodes for the keys of `order`, and that every node holds its key and the value recorded in `contents`.
  - The private list operations (`_remove`, `_add_to_head`, `_move_to_head`, `_pop_tail`) are proved against `nodes`. `get` and `put` are proved to change `Abs()` exactly as `LruSpec.Get` and `LruSpec.Put` do, so every lemma about those functions carries over to the class. `Put` also ensures that the only nodes it adds to `Repr` are newly allocated, so a caller can go on making calls; `LruCache.EvictionDemo` runs the module's demo on one object this way.

Keys and values are `int`, following the annotations of `get` and `put`. A stored value of `-1` cannot be told apart from a miss; lemma `StoredMinusOneLooksLikeMiss` states this.

## Model

| member | source | states |
|---|---|---|
| LruSpec.Init | Code.py:37-47 | capacity <= 0 is refused with InvalidCapacity; otherwise the state is empty (no keys, empty order), both counters are 0, and the invariant holds |
| LruSpec.MissRate | Code.py:119-123 | 0.0 when there were no accesses; otherwise the rate times accesses equals 100 times misses, and the rate lies in [0, 100] when misses <= accesses |
| LruSpec.MoveToFront | Code.py:49-52 | the order after a key is touched starts with that key and holds exactly that key and the old keys; LruSpec.MoveToFrontAt pins it down as the key followed by the others in their old order |
| LruSpec.MoveToFrontAt | Code.py:49-52 | moving the key at position i of a repetition-free order gives that key followed by the others in their old relative order; the result has the same length and keys and stays repetition-free |
| LruSpec.KeysAreOrder | Code.py:104-110 | under the invariant, the keys of the map are exactly the keys in the recency order |
| LruSpec.Get | Code.py:72-88 | get as a function of the state: every call counts an access; a cached key answers its value and moves to the front, an absent key answers -1 and counts a miss. LruSpec.GetHit and LruSpec.GetMiss state each case |
| LruSpec.Put | Code.py:90-110 | put as a function of the state: every call counts an access; a cached key gets the new value and moves to the front; a new key counts a miss and goes first, and if the size then exceeds capacity the least recently used key is evicted. LruSpec.PutUpdate and LruSpec.PutInsert state each case |
| LruSpec.Size | Code.py:115-117 | the number of cached keys; under the invariant it equals the length of the recency order and is at most the capacity |
| LruSpec.GetHit | Code.py:77-82 | get of a cached key answers its stored value and puts the key first, the other keys keeping their relative order; contents, size and misses are unchanged and accesses goes up by 1 |
| LruSpec.GetMiss | Code.py:84-88 | get of an absent key answers -1, leaves order and contents unchanged, and increments both accesses and misses |
| LruSpec.GetPreservesInv | Code.py:72-88 | get preserves the invariant |
| LruSpec.PutUpdate | Code.py:95-99 | put of a cached key replaces only that key's value and puts the key first, the others keeping their order; size and misses are unchanged and accesses goes up by 1 |
| LruSpec.PutInsert | Code.py:100-110 | put of a new key counts an access and a miss and puts the key first with its value; below capacity nothing is dropped; at capacity exactly one key is dropped from both order and map, the last (least recently used) one of the old order, and the size stays at capacity |
| LruSpec.PutPreservesInv | Code.py:90-110 | put preserves the invariant: no duplicates, map keys equal order keys, size <= capacity, misses <= accesses |
| LruSpec.RunPreservesInv | Code.py:72-110 | over any sequence of get and put calls the invariant holds, the size stays within capacity and accesses grows by the number of calls |
| LruSpec.InsertBelowCapacity | Code.py:100-105 | below capacity a new key is put first and nothing is evicted |
| LruSpec.EvictionScenario | Code.py:127-135 | capacity 3 with put(1,1), put(2,2), get(1) (answering 1), put(3,3), put(4,4) leaves order [4, 3, 1] with key 2 evicted; a following get(2) answers -1, and after the six calls misses is 5, accesses 6 and the miss rate 250/3 |
| LruSpec.UpdateNotDuplicate | Code.py:95-98 | putting the same key twice leaves one entry for it, and get then answers the second value |
| LruSpec.StoredMinusOneLooksLikeMiss | Code.py:82-88 | a stored value -1 answers the same as an absent key |
| LruCache.ListNode.constructor | Code.py:29-33 | a node holds the given key and value and has no links |
| LruCache.LRUCache.constructor | Code.py:37-47 | a positive capacity gives a valid, empty cache whose abstract state is LruSpec.Init's, with head.next == tail and tail.prev == head |
| LruCache.EvictionDemo | Code.py:127-135 | the demo's calls on one LRUCache object: get(1) answers 1, get(2) answers -1 after key 2 was evicted, and the miss rate is 250/3 |
| LruCache.Create | Code.py:37-39 | construction fails with InvalidCapacity exactly when capacity <= 0, otherwise returns a fresh valid cache in the initial state |
| LruCache.LRUCache.AbsInv | Code.py:40-47 | the abstract state of a valid cache satisfies LruSpec.Inv |
| LruCache.LRUCache.Remove | Code.py:67-70 | unlinking the node at position i keeps a well-formed list and removes exactly that node from the sequence |
| LruCache.LRUCache.AddToHead | Code.py:54-59 | linking a node that is not in the list right after head keeps a well-formed list with the node first and the rest unchanged |
| LruCache.LRUCache.MoveToHead | Code.py:49-52 | the node at position i moves to the front; every other node keeps its relative order |
| LruCache.LRUCache.PopTail | Code.py:61-65 | returns the node just before tail and removes it, leaving the rest in order |
| LruCache.LRUCache.Refresh | Code.py:78-79 | moving the node of a cached key to the head makes the key the most recent (LruSpec.MoveToFront of the order) and keeps the cache coherent |
| LruCache.LRUCache.Get | Code.py:72-88 | keeps the cache valid and leaves it in exactly the state that LruSpec.Get gives, answering LruSpec.Get's value |
| LruCache.LRUCache.Put | Code.py:90-110 | keeps the cache valid, adds only newly allocated nodes to Repr, and leaves it in exactly the state that LruSpec.Put gives |
| LruCache.LRUCache.PutExisting | Code.py:92-99 | the first branch of put with its access count: the cache stays valid and ends in LruSpec.Put's state for a cached key |
| LruCache.LRUCache.PutNew | Code.py:92-110 | the second branch of put with its access and miss count: the cache stays valid, only fresh nodes join Repr, and the state is LruSpec.Put's for a new key |
| LruCache.LRUCache.Tally | Code.py:75-85 | accesses goes up by 1, and misses goes up by 1 exactly on a miss; the cache stays valid |
| LruCache.LRUCache.UpdateExisting | Code.py:95-99 | the cached key gets the new value and becomes the most recent; no other key or value changes |
| LruCache.LRUCache.SetValue | Code.py:97-98 | the node's new value is the key's new entry in the contents |
| LruCache.LRUCache.InsertNew | Code.py:100-110 | the new key goes first with its value; when the map then exceeds capacity, the last key of the old order leaves both order and contents, and the size stays within capacity |
| LruCache.LRUCache.AddEntry | Code.py:103-105 | a fresh node for the new key is entered in the map and linked right after head: order gains the key at the front and contents gains the pair |
| LruCache.LRUCache.Register | Code.py:103-104 | the new node is entered in the map and the contents; map and contents agree with the list once the node is linked first |
| LruCache.LRUCache.EvictLru | Code.py:108-110 | the node before tail is unlinked and its key, the last of the order, leaves both order and contents |
| LruCache.LRUCache.Forget | Code.py:110 | the unlinked least recently used key leaves the map, the order and the contents |
| LruCache.LRUCache.CurrentSize | Code.py:115-117 | answers the number of cached keys, which is LruSpec.Size of the state, the length of the order, and at most capacity |
| LruCache.LRUCache.MissRate | Code.py:119-123 | answers LruSpec.MissRate of the counters: 0.0 before any access, and always within [0, 100] |
| LruCache.TablesMoveToFront | Code.py:49-52 | moving a node to the front of the list keeps map and list in step with the key moved to the front of the order |
| LruCache.TablesInsert | Code.py:103-105 | a new node linked first for a new key keeps map and list in step, with the key in front of the order |
| LruCache.TablesEvict | Code.py:108-110 | unlinking the node before tail and deleting its key keeps map and list in step, with the last key dropped from the order |

## Left out

- Timing and printing: the `perf_counter` calls and the `print` of operation times in `get` and `put` are left out. They affect neither the state nor any result.
- Floating point: `miss_rate` is modelled with `real`, that is, exact division, not IEEE rounding.
- The `__main__` demo: only its `print` calls are left out. `LruCache.EvictionDemo` replays its calls on one `LRUCache` object and returns the three printed values. `LruSpec.EvictionScenario` replays the same calls on the functions, including the "Evicts 2" comment.
- Testing.py is not part of this model. It is a driver that imports a module which is not available, and it asserts nothing.
- The module docstring mentions a `space_complexity` method. No such method exists in the code, so there is nothing to model.
- Dynamic typing: keys and values are `int`, as the type annotations say. Python would also accept any hashable key and any value.
- LruCache.LRUCache.constructor requires a positive capacity. The `ValueError` branch is modelled by `LruCache.Create`, which returns `Err(InvalidCapacity)`.
- The branches of `put` are split into helper methods (`PutExisting`, `PutNew`, `UpdateExisting`, `InsertNew`, `AddEntry`, `Register`, `EvictLru`, `Forget`), and each branch updates both counters through `Tally` before it changes the entries. `put` in Code.py increments `misses` inside the insert branch after counting the access. Likewise `LruCache.LRUCache.Get` counts its miss through `Tally(key !in cache)` before the lookup branch, while `get` in Code.py counts it after the branch. No caller can observe either difference.
- Memory management and object identity beyond the list nodes (Python's garbage collection of evicted nodes) are not modelled.
