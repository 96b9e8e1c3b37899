/**
 Runs of `emplace` calls on one cache: bounds, and which keys survive.
 */
module Fifo {

  import opened Seqs
  import opened LruCache

  /** Emplace every pair of `ps`, first to last. */
  function EmplaceAll<K, V>(c: Cache<K, V>, ps: seq<(K, V)>): (r: Cache<K, V>)
    requires Valid(c)
    ensures Valid(r) && r.capacity == c.capacity
    decreases |ps|
  {
    if ps == [] then c
    else
      var last := ps[|ps| - 1];
      Emplace(EmplaceAll(c, ps[..|ps| - 1]), last.0, last.1)
  }

  /** No key occurs twice among the pairs. */
  predicate DistinctKeys<K(==), V>(ps: seq<(K, V)>)
  {
    forall i, j | 0 <= i < j < |ps| :: ps[i].0 != ps[j].0
  }

  function Min(a: nat, b: nat): (m: nat)
  {
    if a <= b then a else b
  }

  /**
   `r` holds exactly the last `w` pairs of `ps`, newest first, each key
   with its own value; every earlier key is absent.
   */
  ghost predicate HoldsLast<K, V>(r: Cache<K, V>, ps: seq<(K, V)>, w: nat)
    requires w <= |ps|
  {
    && |r.order| == w
    && (forall i | 0 <= i < w :: r.order[i] == ps[|ps| - 1 - i].0)
    && (forall i | 0 <= i < |ps| :: ps[i].0 in r.m <==> |ps| - w <= i)
    && (forall i | |ps| - w <= i < |ps| :: r.m[ps[i].0] == ps[i].1)
  }

  lemma DistinctPrefix<K, V>(ps: seq<(K, V)>, n: nat)
    requires DistinctKeys(ps) && n <= |ps|
    ensures DistinctKeys(ps[..n])
  {
    var qs := ps[..n];
    forall i, j | 0 <= i < j < |qs| ensures qs[i].0 != qs[j].0 {
      assert qs[i] == ps[i] && qs[j] == ps[j];
    }
  }

  /** The last key of a distinct run is new to a cache holding only earlier keys. */
  lemma {:induction false} LastKeyIsNew<K, V>(prev: Cache<K, V>, ps: seq<(K, V)>, w: nat)
    requires Valid(prev) && DistinctKeys(ps) && |ps| > 0 && w <= |ps| - 1
    requires HoldsLast(prev, ps[..|ps| - 1], w)
    ensures ps[|ps| - 1].0 !in prev.m
  {
    var n := |ps|;
    var k := ps[n - 1].0;
    forall i | 0 <= i < w ensures prev.order[i] != k {
      assert prev.order[i] == ps[..n - 1][n - 2 - i].0 == ps[n - 2 - i].0;
    }
    assert k !in Elems(prev.order);
  }

  /** Pushing the new last key on the front of a holder of the earlier pairs. */
  lemma {:induction false} GrowHolds<K, V>(prev: Cache<K, V>, r: Cache<K, V>, ps: seq<(K, V)>)
    requires DistinctKeys(ps) && |ps| > 0 && HoldsLast(prev, ps[..|ps| - 1], |ps| - 1)
    requires r.order == [ps[|ps| - 1].0] + prev.order
    requires r.m == prev.m[ps[|ps| - 1].0 := ps[|ps| - 1].1]
    ensures HoldsLast(r, ps, |ps|)
  {
    var n := |ps|;
    var qs := ps[..n - 1];
    forall i | 0 <= i < n ensures r.order[i] == ps[n - 1 - i].0 {
      if i > 0 {
        assert r.order[i] == prev.order[i - 1] == qs[n - 2 - (i - 1)].0;
      }
    }
    forall i | 0 <= i < n - 1 ensures ps[i].0 in r.m {
      assert qs[i] == ps[i];
    }
    forall i | 0 <= i < n ensures r.m[ps[i].0] == ps[i].1 {
      if i < n - 1 {
        assert qs[i] == ps[i];
        assert ps[i].0 != ps[n - 1].0;
      }
    }
  }

  /** One emplace into a cache that is not yet full keeps every earlier pair. */
  lemma {:induction false} StepGrow<K, V>(prev: Cache<K, V>, ps: seq<(K, V)>)
    requires Valid(prev) && DistinctKeys(ps) && |ps| > 0 && |ps| - 1 < prev.capacity
    requires HoldsLast(prev, ps[..|ps| - 1], |ps| - 1)
    ensures HoldsLast(Emplace(prev, ps[|ps| - 1].0, ps[|ps| - 1].1), ps, |ps|)
  {
    var n := |ps|;
    var k, v := ps[n - 1].0, ps[n - 1].1;
    LastKeyIsNew(prev, ps, n - 1);
    var r := Emplace(prev, k, v);
    assert Size(prev) == n - 1;
    GrowHolds(prev, r, ps);
  }

  /** Pushing the new last key on the front and dropping the back. */
  lemma {:induction false} EvictHolds<K, V>(prev: Cache<K, V>, r: Cache<K, V>, ps: seq<(K, V)>, cap: nat)
    requires DistinctKeys(ps) && 1 <= cap < |ps| && HoldsLast(prev, ps[..|ps| - 1], cap)
    requires r.order == [ps[|ps| - 1].0] + prev.order[..cap - 1]
    requires r.m == (prev.m - {prev.order[cap - 1]})[ps[|ps| - 1].0 := ps[|ps| - 1].1]
    ensures HoldsLast(r, ps, cap)
  {
    var n := |ps|;
    var qs := ps[..n - 1];
    var gone := prev.order[cap - 1];
    assert gone == ps[n - 1 - cap].0 by {
      assert prev.order[cap - 1] == qs[n - 2 - (cap - 1)].0;
      assert qs[n - 1 - cap] == ps[n - 1 - cap];
    }
    forall i | 0 <= i < cap ensures r.order[i] == ps[n - 1 - i].0 {
      if i > 0 {
        assert r.order[i] == prev.order[i - 1] == qs[n - 2 - (i - 1)].0;
      }
    }
    forall i | 0 <= i < n - 1 ensures ps[i].0 in r.m <==> n - cap <= i {
      assert qs[i] == ps[i];
      if i != n - 1 - cap {
        assert ps[i].0 != gone;
      }
    }
    forall i | n - cap <= i < n - 1 ensures r.m[ps[i].0] == ps[i].1 {
      assert qs[i] == ps[i];
      assert ps[i].0 != gone;
    }
  }

  /** The shape of a full cache after emplacing a new key, by list position. */
  lemma EmplaceWhenFull<K, V>(c: Cache<K, V>, k: K, v: V)
    requires Valid(c) && k !in c.m && |c.order| == c.capacity
    ensures Emplace(c, k, v).order == [k] + c.order[..c.capacity - 1]
    ensures Emplace(c, k, v).m == (c.m - {c.order[c.capacity - 1]})[k := v]
  {
    assert Size(c) == c.capacity;
  }

  /** One emplace into a full cache drops exactly the oldest retained pair. */
  lemma {:induction false} StepEvict<K, V>(prev: Cache<K, V>, ps: seq<(K, V)>)
    requires Valid(prev) && DistinctKeys(ps) && |ps| > prev.capacity
    requires HoldsLast(prev, ps[..|ps| - 1], prev.capacity)
    ensures HoldsLast(Emplace(prev, ps[|ps| - 1].0, ps[|ps| - 1].1), ps, prev.capacity)
  {
    var n := |ps|;
    var k, v := ps[n - 1].0, ps[n - 1].1;
    LastKeyIsNew(prev, ps, prev.capacity);
    EmplaceWhenFull(prev, k, v);
    EvictHolds(prev, Emplace(prev, k, v), ps, prev.capacity);
  }

  /**
   After emplacing n pairs with distinct keys into an empty cache of
   capacity c (c >= 1), the cache holds min(n, c) entries: the last
   min(n, c) pairs, newest first, each with its own value. The first
   n - min(n, c) keys are exactly the ones evicted.
   */
  lemma {:induction false} EmplaceDistinct<K, V>(cap: SizeT, ps: seq<(K, V)>)
    requires cap >= 1 && DistinctKeys(ps)
    ensures var r, n := EmplaceAll(WithCapacity<K, V>(cap), ps), |ps|;
            && Size(r) == Min(n, cap)
            && (forall i | 0 <= i < Min(n, cap) :: r.order[i] == ps[n - 1 - i].0)
            && (forall i | 0 <= i < n :: ps[i].0 in r.m <==> n - Min(n, cap) <= i)
            && (forall i | n - Min(n, cap) <= i < n :: r.m[ps[i].0] == ps[i].1)
  {
    HoldsLastAll(cap, ps);
  }

  lemma {:induction false} HoldsLastAll<K, V>(cap: SizeT, ps: seq<(K, V)>)
    requires cap >= 1 && DistinctKeys(ps)
    ensures HoldsLast(EmplaceAll(WithCapacity<K, V>(cap), ps), ps, Min(|ps|, cap))
  {
    var n := |ps|;
    if n > 0 {
      var qs := ps[..n - 1];
      DistinctPrefix(ps, n - 1);
      HoldsLastAll(cap, qs);
      var prev := EmplaceAll(WithCapacity<K, V>(cap), qs);
      if n - 1 < cap {
        StepGrow(prev, ps);
      } else {
        StepEvict(prev, ps);
      }
    }
  }

  /**
   Emplacing a key that is already present changes nothing: not the size,
   not the stored value, and not the next key to be evicted.
   */
  lemma DuplicateEmplaceKeepsEviction<K, V>(c: Cache<K, V>, k: K, v: V, k2: K, v2: V)
    requires Valid(c) && k in c.m && k2 !in c.m
    ensures Size(Emplace(c, k, v)) == Size(c)
    ensures Emplace(c, k, v).m[k] == c.m[k]
    ensures Emplace(Emplace(c, k, v), k2, v2) == Emplace(c, k2, v2)
  {
  }
}
