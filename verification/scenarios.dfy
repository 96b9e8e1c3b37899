/**
 Concrete runs of the cache, one per documented usage scenario.
 */
module Scenarios {

  import opened Seqs
  import opened LruCache

  /** Emplacing a key that is not in a cache with room left. */
  lemma EmplaceFresh<K, V>(c: Cache<K, V>, k: K, v: V)
    requires Valid(c) && k !in c.order && |c.order| < c.capacity
    ensures Emplace(c, k, v) == Cache(c.capacity, c.m[k := v], [k] + c.order)
  {
    assert k !in Elems(c.order);
  }

  /** Emplacing a key that is not in a full cache. */
  lemma EmplaceEvicting<K, V>(c: Cache<K, V>, k: K, v: V)
    requires Valid(c) && k !in c.order && |c.order| == c.capacity
    ensures Emplace(c, k, v)
            == Cache(c.capacity, (c.m - {Oldest(c.order)})[k := v], [k] + c.order[..|c.order| - 1])
  {
    assert k !in Elems(c.order);
  }

  /**
   Default capacity, integer keys: emplacing 42 gives size 1, then 3 gives size 2, a
   second emplace of 3 leaves the size (and the value 5) alone, and three
   more distinct keys give size 5.
   */
  lemma DefaultIntScenario()
    ensures var c0 := Default<int, int>();
            var c1 := Emplace(c0, 42, 7);
            var c2 := Emplace(c1, 3, 5);
            var c3 := Emplace(c2, 3, 12);
            var c6 := Emplace(Emplace(Emplace(c3, 1, 1), 2, 2), 4, 4);
            && Size(c1) == 1 && Size(c2) == 2 && Size(c3) == 2 && c3.m[3] == 5
            && Size(c6) == 5 && c6.capacity == DefaultSize
  {
    var c0 := Default<int, int>();
    var c1 := Emplace(c0, 42, 7);
    EmplaceFresh(c0, 42, 7);
    var c2 := Emplace(c1, 3, 5);
    EmplaceFresh(c1, 3, 5);
    var c3 := Emplace(c2, 3, 12);
    var c4 := Emplace(c3, 1, 1);
    EmplaceFresh(c3, 1, 1);
    var c5 := Emplace(c4, 2, 2);
    EmplaceFresh(c4, 2, 2);
    var c6 := Emplace(c5, 4, 4);
    EmplaceFresh(c5, 4, 4);
    assert |c6.order| == 5;
    assert c3 == c2 && Size(c3) == 2 && c3.m[3] == 5;
  }

  /**
   Default capacity, string keys: "Hello" twice counts once and keeps its
   first value; "Test" and three more distinct keys bring the size to 5.
   */
  lemma DefaultStringScenario()
    ensures var c0 := Default<string, char>();
            var c1 := Emplace(c0, "Hello", 'c');
            var c1b := Emplace(c1, "Hello", 'e');
            var c2 := Emplace(c1b, "Test", 't');
            var c5 := Emplace(Emplace(Emplace(c2, "a", 'a'), "b", 'b'), "d", 'd');
            && Size(c1) == 1 && Size(c1b) == 1 && c1b.m["Hello"] == 'c'
            && Size(c2) == 2 && Size(c5) == 5
  {
    var c0 := Default<string, char>();
    var c1 := Emplace(c0, "Hello", 'c');
    EmplaceFresh(c0, "Hello", 'c');
    var c1b := Emplace(c1, "Hello", 'e');
    var c2 := Emplace(c1b, "Test", 't');
    assert "Test" !in c1b.order by { assert "Test"[0] != "Hello"[0]; }
    EmplaceFresh(c1b, "Test", 't');
    var c3 := Emplace(c2, "a", 'a');
    assert "a" !in c2.order by { assert "a"[0] != "Test"[0] && "a"[0] != "Hello"[0]; }
    EmplaceFresh(c2, "a", 'a');
    var c4 := Emplace(c3, "b", 'b');
    assert "b" !in c3.order by {
      assert "b"[0] != "a"[0] && "b"[0] != "Test"[0] && "b"[0] != "Hello"[0];
    }
    EmplaceFresh(c3, "b", 'b');
    var c5 := Emplace(c4, "d", 'd');
    assert "d" !in c4.order by {
      assert "d"[0] != "b"[0] && "d"[0] != "a"[0] && "d"[0] != "Test"[0] && "d"[0] != "Hello"[0];
    }
    EmplaceFresh(c4, "d", 'd');
    assert |c5.order| == 5;
  }

  /** Capacity 2: after A, B, C the size stays 2, A is evicted, B and C remain. */
  lemma CapacityTwoScenario()
    ensures var c := Emplace(Emplace(Emplace(WithCapacity<char, int>(2), 'A', 1), 'B', 2), 'C', 3);
            && Size(c) == 2 && 'A' !in c.m && 'B' in c.m && 'C' in c.m
  {
    var c0 := WithCapacity<char, int>(2);
    var c1 := Emplace(c0, 'A', 1);
    EmplaceFresh(c0, 'A', 1);
    var c2 := Emplace(c1, 'B', 2);
    EmplaceFresh(c1, 'B', 2);
    var c3 := Emplace(c2, 'C', 3);
    EmplaceEvicting(c2, 'C', 3);
    assert Oldest(c2.order) == 'A';
    assert c3.m == (c2.m - {'A'})['C' := 3];
  }
}
