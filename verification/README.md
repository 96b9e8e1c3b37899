# A Dafny model of `cache::LRUCache`

`cache::LRUCache<Key, Val>` (cache/include/lrucache.hpp) is a bounded
key→value store. It is built from two structures:

- an `unordered_map` from key to value (the index);
- a `std::list` of iterators into that map (the recency list).

The front of the list is the newest insertion and the back is the oldest.
`emplace` inserts only keys that are absent. It then calls `keep_coherent`,
which erases the back entry once the map has grown past the capacity, and
finally pushes the new key on the front. The class has no lookup, so no key is
ever promoted. Despite its name, the container is a bounded FIFO.

The model is purely functional:

- `LruCache.Cache(capacity, m, order)` is the cache state. `m` is a Dafny
  `map`, and `order` is a `seq` of the keys the list's iterators point at.
- `LruCache.Valid` is the representation invariant. It requires a capacity of
  at least 1, no duplicate keys in `order`, the keys of `order` to be exactly
  `m`'s keys, and `|order| <= capacity`.
- `capacity` is a 64-bit `std::size_t` (`SizeT`). `ssize()` reduces the count
  to a signed 64-bit value explicitly.

Modules:

- `Seqs`: duplicate-freedom, the element set of a sequence, and reversal.
- `Options`: `Option`. `None` marks a state the C++ leaves undefined.
- `LruCache`: the constructors, `size`/`ssize`, `keep_coherent`, `emplace`
  and the copy constructor.
- `Fifo`: runs of `emplace` calls, and which keys survive them.
- `Scenarios`: concrete runs of the cache.

Decisions about defects in the source:

- **`size_`**: the C++ reads and writes `this->size_` (lines 68, 79, 92, 110
  and 144). No such member exists; the capacity field is `max_size` (line 51).
  The model reads every `size_` as `max_size`.
- **Capacity 0**: the constructor accepts 0. The first `emplace` on such a
  cache then reaches `order.back()` on an empty list. `EmplaceAsWritten`
  models this faithfully, returning `None` for the undefined case. `Emplace`
  requires `Valid`, which includes `capacity >= 1`. See Findings.
- **Copy reverses the order**: the copy constructor walks the source's list
  front to back and calls `push_front` for each element. The copy's list is
  therefore the reverse of the source's. This is modelled as written
  (`CopyAsWritten`) and also as evidently intended (`Copy`). See Findings.
- **Test assertion**: cache/test/test.cpp:47 and :49 expect `size()` to be
  5000 and then 57 right after construction. That contradicts `size()`
  returning the map's size (line 133), so it is not a property here. The
  model proves that a freshly constructed cache has size 0.

## Model

| member | source | states |
|---|---|---|
| LruCache.Default | cache/include/lrucache.hpp:59-60 | the default constructor gives a valid, empty cache whose capacity is `default_size` = 5000 |
| LruCache.WithCapacity | cache/include/lrucache.hpp:62-63 | the explicit constructor gives an empty cache that stores the given capacity; the result is valid exactly when that capacity is positive |
| LruCache.Size | cache/include/lrucache.hpp:131-134 | on a valid cache, `size()` (the map's size) equals the length of the recency list and never exceeds the capacity |
| LruCache.SSize | cache/include/lrucache.hpp:136-139 | `ssize()` stays within the signed 64-bit range and equals `size()` whenever the count fits in it |
| LruCache.KeepCoherent | cache/include/lrucache.hpp:142-151 | it is undefined exactly when the map exceeds the capacity while the list is empty; otherwise the capacity is kept, an in-bound state is left unchanged, and an over-bound state loses exactly the back of the list from both the map and the list |
| LruCache.KeepCoherentRestoresBound | cache/include/lrucache.hpp:141-151 | on the state `emplace` hands it (the invariant held before the map gained the new key k, which is not on the list), `keep_coherent` is defined, brings the map back within the capacity, and leaves the list naming exactly the live keys other than k |
| LruCache.EmplaceAsWritten | cache/include/lrucache.hpp:120-128 | `emplace` on any state, capacity 0 included: a present key leaves the state unchanged; it is undefined exactly when a new key meets a map already at the capacity with an empty list; otherwise the capacity is kept and the new key is at the front, and when it was not already listed the map either just gains it or also loses the back of the list |
| LruCache.Emplace | cache/include/lrucache.hpp:118-128 | preserves `Valid` and the capacity. A present key leaves the cache unchanged: the value is not overwritten and the key keeps its place. An absent key ends up at index 0 holding its value. With room left, nothing else changes and the size grows by one. When full, exactly the oldest key is evicted, every other entry keeps its value, and the size stays the same |
| LruCache.EmplaceUndefinedIff | cache/include/lrucache.hpp:143-148 | on any cache satisfying the invariant apart from a positive capacity, `emplace` is undefined exactly when a new key is inserted at capacity 0 |
| LruCache.ZeroCapacityEmplaceUndefined | cache/include/lrucache.hpp:143-148 | on a cache constructed with capacity 0, the first `emplace` of any key is undefined |
| LruCache.CheckedWithCapacity | cache/include/lrucache.hpp:62-63 | the corrected constructor succeeds exactly when the capacity is positive, and then gives a valid, empty cache with that capacity |
| LruCache.PushFrontEach | cache/include/lrucache.hpp:70-73 | walking a list front to back while calling `push_front` yields the list reversed, followed by what was there before |
| LruCache.CopyAsWritten | cache/include/lrucache.hpp:66-74 | the copy constructor as written keeps the capacity and the key→value map, gives a recency list that is the source's reversed (index i holds the source's element n-1-i), and produces a valid cache from a valid one |
| LruCache.Copy | cache/include/lrucache.hpp:66-74 | the corrected copy equals its source, recency order included, so it evicts the source's oldest key and behaves exactly like the source under every later `emplace` |
| LruCache.CopyAsWrittenEvictsNewest | cache/include/lrucache.hpp:70-73 | on a full cache of capacity at least 2, emplacing a new key into the as-written copy evicts the source's newest key and keeps its oldest, which is the opposite of what the source does |
| Fifo.EmplaceAll | cache/include/lrucache.hpp:120-128 | every run of `emplace` calls on a valid cache keeps it valid and never changes its capacity |
| Fifo.HoldsLastAll | cache/include/lrucache.hpp:120-151 | after emplacing n pairs with distinct keys into an empty cache of capacity c, the cache holds exactly the last min(n, c) pairs, newest first, each with its own value |
| Fifo.EmplaceDistinct | cache/include/lrucache.hpp:120-151 | after emplacing n distinct keys into an empty cache of capacity c, `size()` is min(n, c). The list holds those keys newest first, the first n - min(n, c) keys are exactly the evicted ones, and the survivors keep their values |
| Fifo.DuplicateEmplaceKeepsEviction | cache/include/lrucache.hpp:121-124 | emplacing a present key keeps both the size and the stored value, and does not change which key the next new insertion evicts |
| Scenarios.DefaultIntScenario | cache/include/lrucache.hpp:118-128 | default capacity with integer keys: 42 gives size 1, then 3 gives size 2; 3 again keeps size 2 and the value 5; three more distinct keys give size 5 |
| Scenarios.DefaultStringScenario | cache/include/lrucache.hpp:118-128 | default capacity with string keys: "Hello" twice counts once and keeps its first value; "Test" gives size 2; three more distinct keys give size 5 |
| Scenarios.CapacityTwoScenario | cache/include/lrucache.hpp:118-151 | capacity 2 after emplacing A, B and C: size 2, A is evicted, and B and C are present |

## Left out

- Move constructor and move assignment (lines 77-115): these transfer ownership. With immutable values that is plain assignment, and the state of the moved-from object is unspecified.
- Copy assignment (lines 85-100): it replaces the map but appends to the old list without clearing it. The old list's iterators then point into the replaced map, and keys cannot represent such dangling iterators. The self-assignment check has no meaning for values either.
- `insert(const Pair&)` (line 45): it is declared but never defined.
- Hashing and the `Hashable` concept, iterator stability across rehashing, perfect forwarding of `emplace`'s arguments, `noexcept`, and allocation failure: these are outside a value-level model. Values are stored as given, not constructed in place.
- Thread safety: the class is single-threaded, and so is the model.
- Copy independence, meaning that emplacing into a copy leaves the source alone, holds by construction: caches are immutable values here, so no separate statement is made.
- The gtest fixtures in cache/test/test.hpp and cache/test/test.cpp hold no logic and are not part of this model.
- LruCache.SSize: assumes `std::ptrdiff_t` is 64 bits wide and converts modulo 2^64, as C++20 specifies.

## Findings

| source | as written | input that shows it | evidently intended | confidence | as-written member | corrected member |
|---|---|---|---|---|---|---|
| cache/include/lrucache.hpp:69-73 | the copy rebuilds the recency list by walking the source front to back with `push_front`, so the copy's order is the reverse of the source's (copy assignment at lines 94-97 does the same) | a cache of capacity 2 holding keys 1 then 2: the source evicts 1 on the next new key, while its copy evicts 2 | the copy keeps the source's recency order, so it evicts what the source would | high; not executed | LruCache.CopyAsWrittenEvictsNewest | LruCache.Copy |
| cache/include/lrucache.hpp:143-148 | the constructor accepts capacity 0; the first `emplace` then finds the map over its bound and calls `order.back()` on an empty list, which is undefined behaviour | `LRUCache(0)` followed by `emplace(k, v)` for any k | capacity 0 is rejected at construction | high; not executed | LruCache.ZeroCapacityEmplaceUndefined | LruCache.CheckedWithCapacity |
