/**
 The bounded key-value store `cache::LRUCache<Key, Val>`.

 The C++ class keeps an `unordered_map` from key to value and a `std::list`
 of iterators into that map. Here the map is a Dafny `map` and the list
 holds the keys the iterators point at: front (index 0) is the newest
 insertion, back (last index) the oldest. Nothing ever promotes a key, so
 despite the name the container evicts in insertion (FIFO) order.

 The C++ code writes `this->size_` where it means the capacity field
 `max_size` (no member `size_` exists); this model reads every `size_` as
 the capacity.
 */
module LruCache {

  import opened Options
  import opened Seqs

  /** `default_size`: the capacity of a default-constructed cache. */
  const DefaultSize: nat := 5000

  /** Largest value of a 64-bit `std::size_t`. */
  const SizeMax: nat := 0xFFFF_FFFF_FFFF_FFFF

  /** Largest value of a 64-bit `std::ptrdiff_t`. */
  const PtrdiffMax: nat := 0x7FFF_FFFF_FFFF_FFFF

  type SizeT = n: nat | n <= SizeMax

  /** The abstract state: capacity (`max_size`), index (`map`) and recency list (`order`). */
  datatype Cache<K, V> = Cache(capacity: SizeT, m: map<K, V>, order: seq<K>)

  /**
   The representation invariant every public operation keeps: the recency
   list names every live key exactly once and nothing else, and the cache
   holds at most `capacity` entries. A capacity of at least one is part of
   it, because with capacity 0 the first insertion reaches `order.back()`
   on an empty list.
   */
  predicate Valid<K, V>(c: Cache<K, V>)
  {
    && c.capacity >= 1
    && NoDup(c.order)
    && Elems(c.order) == c.m.Keys
    && |c.order| <= c.capacity
  }

  /** `size()`: the number of live entries, which the recency list mirrors. */
  function Size<K, V>(c: Cache<K, V>): (n: nat)
    ensures Valid(c) ==> n == |c.order| && n <= c.capacity
  {
    NoDupCard(c.order);
    |c.m|
  }

  /**
   `ssize()`: the entry count as a signed 64-bit `std::ptrdiff_t`, i.e. the
   count reduced modulo 2^64 and read in two's complement.
   */
  function SSize<K, V>(c: Cache<K, V>): (r: int)
    ensures -(PtrdiffMax as int) - 1 <= r <= PtrdiffMax
    ensures Size(c) <= PtrdiffMax ==> r == Size(c)
    ensures r >= 0 ==> r == Size(c) % (SizeMax + 1)
  {
    var n := Size(c) % (SizeMax + 1);
    if n <= PtrdiffMax then n else n - (SizeMax + 1)
  }

  /** `LRUCache()`: an empty cache with the default capacity. */
  function Default<K, V>(): (c: Cache<K, V>)
    ensures Valid(c)
    ensures c.capacity == DefaultSize && Size(c) == 0
  {
    Cache(DefaultSize, map[], [])
  }

  /**
   `LRUCache(std::size_t len)`: an empty cache of capacity `len`. The
   constructor accepts 0, which leaves a cache on which `emplace` is
   undefined; hence it is valid exactly when `len` is positive.
   */
  function WithCapacity<K, V>(len: SizeT): (c: Cache<K, V>)
    ensures c.capacity == len && Size(c) == 0 && c.order == []
    ensures Valid(c) <==> len >= 1
  {
    Cache(len, map[], [])
  }

  /**
   The constructor with the zero case rejected: what `WithCapacity` is
   evidently meant to be.
   */
  function CheckedWithCapacity<K, V>(len: SizeT): (r: Option<Cache<K, V>>)
    ensures r.Some? <==> len >= 1
    ensures r.Some? ==> Valid(r.value) && r.value.capacity == len && Size(r.value) == 0
  {
    if len == 0 then None else Some(WithCapacity(len))
  }

  /** The eviction candidate: the back of the recency list. */
  function Oldest<K>(order: seq<K>): (k: K)
    requires order != []
  {
    order[|order| - 1]
  }

  /**
   `keep_coherent()`: when the index has grown past the capacity, erase the
   back of the recency list from both structures. `None` is the case the
   C++ leaves undefined: the bound is exceeded but the list is empty, so
   `order.back()` has nothing to return.
   */
  function KeepCoherent<K, V>(c: Cache<K, V>): (r: Option<Cache<K, V>>)
    ensures r.None? <==> |c.m| > c.capacity && c.order == []
    ensures r.Some? ==> r.value.capacity == c.capacity
    ensures r.Some? && |c.m| <= c.capacity ==> r.value == c
    ensures r.Some? && |c.m| > c.capacity ==>
              && r.value.order == c.order[..|c.order| - 1]
              && r.value.m == c.m - {Oldest(c.order)}
  {
    if |c.m| <= c.capacity || |c.m| == 0 then Some(c)
    else if c.order == [] then None
    else
      var last := Oldest(c.order);
      Some(Cache(c.capacity, c.m - {last}, c.order[..|c.order| - 1]))
  }

  /**
   What `keep_coherent()` is for: on the state `emplace` hands it (a valid
   cache whose map has just gained the key `k`, not yet on the list), it is
   defined and brings the map back within the capacity, leaving the list
   naming every live key except `k`.
   */
  lemma KeepCoherentRestoresBound<K, V>(c: Cache<K, V>, k: K)
    requires c.capacity >= 1 && NoDup(c.order) && |c.order| <= c.capacity
    requires k in c.m && k !in Elems(c.order) && Elems(c.order) == c.m.Keys - {k}
    ensures KeepCoherent(c).Some?
    ensures |KeepCoherent(c).value.m| <= c.capacity
    ensures Elems(KeepCoherent(c).value.order) == KeepCoherent(c).value.m.Keys - {k}
  {
    NoDupCard(c.order);
    assert c.m.Keys == Elems(c.order) + {k};
    assert |c.m| == |c.order| + 1;
    if |c.m| > c.capacity {
      var front := c.order[..|c.order| - 1];
      assert c.order == front + [Oldest(c.order)];
      assert NoDup(front);
      NoDupCard(front);
      assert Elems(c.order) == Elems(front) + {Oldest(c.order)};
    }
  }

  /**
   `emplace(key, value)` as the C++ performs it on any state: the map
   insertion fails on a present key and nothing else happens; otherwise
   `keep_coherent()` runs on the grown map and the new key is pushed on the
   front of the list. `None` when `keep_coherent()` is undefined.
   */
  function EmplaceAsWritten<K, V>(c: Cache<K, V>, k: K, v: V): (r: Option<Cache<K, V>>)
    ensures k in c.m ==> r == Some(c)
    ensures r.None? <==> k !in c.m && |c.m| >= c.capacity && c.order == []
    ensures r.Some? ==> r.value.capacity == c.capacity
    ensures r.Some? && k !in c.m ==> r.value.order != [] && r.value.order[0] == k
    ensures r.Some? && k !in c.m && k !in c.order ==>
              || (r.value.m == c.m[k := v] && r.value.order == [k] + c.order)
              || (&& c.order != []
                  && r.value.m == (c.m - {Oldest(c.order)})[k := v]
                  && r.value.order == [k] + c.order[..|c.order| - 1])
  {
    if k in c.m then Some(c)
    else
      assert |c.m[k := v]| == |c.m| + 1;
      match KeepCoherent(c.(m := c.m[k := v]))
      case None => None
      case Some(d) => Some(d.(order := [k] + d.order))
  }

  /**
   `emplace(key, value)` on a valid cache, where it is always defined.
   A present key leaves the cache as it was (the value is not overwritten
   and the key keeps its place). An absent key is stored with its value at
   the front; if the cache was full, exactly the oldest key is evicted and
   every other entry is kept with its value.
   */
  function Emplace<K, V>(c: Cache<K, V>, k: K, v: V): (r: Cache<K, V>)
    requires Valid(c)
    ensures Valid(r)
    ensures r.capacity == c.capacity
    ensures k in c.m ==> r == c
    ensures k !in c.m ==> k in r.m && r.m[k] == v && r.order[0] == k
    ensures k !in c.m && Size(c) < c.capacity ==>
              && r.m == c.m[k := v]
              && r.order == [k] + c.order
              && Size(r) == Size(c) + 1
    ensures k !in c.m && Size(c) == c.capacity ==>
              && Oldest(c.order) !in r.m
              && r.m == (c.m - {Oldest(c.order)})[k := v]
              && r.order == [k] + c.order[..|c.order| - 1]
              && Size(r) == Size(c)
  {
    assert Size(c) == |c.order|;
    assert k !in c.m ==> |c.m[k := v]| == |c.m| + 1;
    var r := EmplaceAsWritten(c, k, v).value;
    assert k !in c.m && Size(c) == c.capacity ==> Oldest(c.order) != k;
    r
  }

  /**
   Exactly when `emplace` is undefined, on a cache that satisfies every
   part of `Valid` except the positive capacity: a new key is inserted into
   a cache of capacity 0.
   */
  lemma EmplaceUndefinedIff<K, V>(c: Cache<K, V>, k: K, v: V)
    requires NoDup(c.order) && Elems(c.order) == c.m.Keys && |c.order| <= c.capacity
    ensures EmplaceAsWritten(c, k, v).None? <==> k !in c.m && c.capacity == 0
  {
    NoDupCard(c.order);
    if k !in c.m {
      assert |c.m[k := v]| == |c.m| + 1;
    }
  }

  /** With capacity 0 the very first `emplace` is undefined, whatever the key. */
  lemma ZeroCapacityEmplaceUndefined<K, V>(k: K, v: V)
    ensures EmplaceAsWritten(WithCapacity<K, V>(0), k, v).None?
  {
    EmplaceUndefinedIff(WithCapacity<K, V>(0), k, v);
  }

  /** Walk `s` front to back, pushing each element on the front of `acc`. */
  function PushFrontEach<K>(acc: seq<K>, s: seq<K>): (r: seq<K>)
    ensures r == Reverse(s) + acc
    decreases |s|
  {
    if s == [] then acc else PushFrontEach([s[0]] + acc, s[1..])
  }

  /** Walk `s` front to back, pushing each element on the back of `acc`. */
  function PushBackEach<K>(acc: seq<K>, s: seq<K>): (r: seq<K>)
    ensures r == acc + s
    decreases |s|
  {
    if s == [] then acc else PushBackEach(acc + [s[0]], s[1..])
  }

  /**
   The copy constructor as written: the map is copied, and the recency list
   is rebuilt by walking the source's list front to back with `push_front`,
   so the copy's list is the source's reversed. The copy is still valid.
   */
  function CopyAsWritten<K, V>(c: Cache<K, V>): (r: Cache<K, V>)
    ensures r.capacity == c.capacity && r.m == c.m
    ensures |r.order| == |c.order|
    ensures forall i | 0 <= i < |c.order| :: r.order[i] == c.order[|c.order| - 1 - i]
    ensures Valid(c) ==> Valid(r)
  {
    ReverseKeepsElems(c.order);
    Cache(c.capacity, c.m, PushFrontEach([], c.order))
  }

  /**
   The copy constructor as evidently intended: the recency list is rebuilt
   with `push_back`, so the copy equals the source.
   */
  function Copy<K, V>(c: Cache<K, V>): (r: Cache<K, V>)
    ensures r == c
  {
    Cache(c.capacity, c.m, PushBackEach([], c.order))
  }

  /**
   What the reversal costs: on a full cache of capacity at least 2, emplacing
   a new key into the as-written copy evicts the NEWEST entry of the source
   and keeps its oldest, while the source itself evicts its oldest.
   */
  lemma CopyAsWrittenEvictsNewest<K, V>(c: Cache<K, V>, k: K, v: V)
    requires Valid(c) && c.capacity >= 2 && Size(c) == c.capacity && k !in c.m
    ensures var newest, oldest := c.order[0], Oldest(c.order);
            && newest != oldest
            && newest !in Emplace(CopyAsWritten(c), k, v).m
            && oldest in Emplace(CopyAsWritten(c), k, v).m
            && newest in Emplace(c, k, v).m
            && oldest !in Emplace(c, k, v).m
  {
    var d := CopyAsWritten(c);
    assert Oldest(d.order) == c.order[0];
    assert Size(d) == d.capacity;
    assert d.order[0] == Oldest(c.order);
  }
}
