/**
 Sequence facts the cache model relies on: duplicate-freedom, the set of
 elements of a sequence, and reversal (the copy constructor's recency list
 comes out reversed).
 */
module Seqs {

  /** No element occurs twice. */
  predicate NoDup<T(==)>(s: seq<T>)
  {
    forall i, j | 0 <= i < j < |s| :: s[i] != s[j]
  }

  /** The set of elements of a sequence. */
  function Elems<T>(s: seq<T>): (r: set<T>)
  {
    set x | x in s
  }

  /** A duplicate-free sequence has exactly as many distinct elements as it is long. */
  lemma {:induction false} NoDupCard<T>(s: seq<T>)
    ensures NoDup(s) ==> |Elems(s)| == |s|
  {
    if s != [] && NoDup(s) {
      var t := s[1..];
      assert NoDup(t) by {
        forall i, j | 0 <= i < j < |t| ensures t[i] != t[j] {
          assert t[i] == s[i + 1] && t[j] == s[j + 1];
        }
      }
      NoDupCard(t);
      assert s[0] !in Elems(t) by {
        forall j | 0 <= j < |t| ensures t[j] != s[0] {
          assert t[j] == s[j + 1];
        }
      }
      assert Elems(s) == {s[0]} + Elems(t);
    }
  }

  /** Reversal, built by moving the head to the back. */
  function Reverse<T>(s: seq<T>): (r: seq<T>)
    ensures |r| == |s|
    ensures forall i | 0 <= i < |s| :: r[i] == s[|s| - 1 - i]
  {
    if s == [] then [] else Reverse(s[1..]) + [s[0]]
  }

  /** Reversal keeps the elements and keeps duplicate-freedom. */
  lemma ReverseKeepsElems<T>(s: seq<T>)
    ensures Elems(Reverse(s)) == Elems(s)
    ensures NoDup(s) ==> NoDup(Reverse(s))
  {
    var r := Reverse(s);
    forall x | x in Elems(s) ensures x in Elems(r) {
      var i :| 0 <= i < |s| && s[i] == x;
      assert r[|s| - 1 - i] == x;
    }
    forall x | x in Elems(r) ensures x in Elems(s) {
      var i :| 0 <= i < |r| && r[i] == x;
      assert s[|s| - 1 - i] == x;
    }
    if NoDup(s) {
      forall i, j | 0 <= i < j < |r| ensures r[i] != r[j] {
        assert r[i] == s[|s| - 1 - i] && r[j] == s[|s| - 1 - j];
      }
    }
  }
}
