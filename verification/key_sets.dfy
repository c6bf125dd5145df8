/** Facts about finite sets and sequences of integer keys, used to pick rows out of a table. */
module KeySets {

  /** A non-empty set of keys has a member. */
  lemma NonEmptyHasMember(ks: set<int>)
    requires ks != {}
    ensures exists k :: k in ks
  {
    if forall k :: k !in ks {
    }
  }

  /** A member of a sequence sits at some index. */
  lemma AtSomeIndex<T>(keys: seq<T>, k: T)
    requires k in keys
    ensures exists i :: 0 <= i < |keys| && keys[i] == k
  {
    if forall i :: 0 <= i < |keys| ==> keys[i] != k {
    }
  }

  /** `k` is the smallest of `ks`. */
  predicate IsLeast(ks: set<int>, k: int) {
    k in ks && forall j :: j in ks ==> k <= j
  }

  /** Every non-empty finite set of keys has a smallest member. */
  lemma {:induction false} LeastExists(ks: set<int>)
    requires ks != {}
    ensures exists k :: IsLeast(ks, k)
    decreases ks
  {
    NonEmptyHasMember(ks);
    var x :| x in ks;
    if ks == {x} {
      assert IsLeast(ks, x);
    } else {
      LeastExists(ks - {x});
      var k :| IsLeast(ks - {x}, k);
      var least := if x < k then x else k;
      forall j | j in ks
        ensures least <= j
      {
        if j != x {
          assert j in ks - {x};
        }
      }
      assert IsLeast(ks, least);
    }
  }

  /** The `n` consecutive integers from `lo`. */
  function Range(lo: int, n: nat): (s: set<int>)
    ensures forall k :: k in s <==> lo <= k < lo + n
    ensures |s| == n
  {
    if n == 0 then {} else Range(lo, n - 1) + {lo + n - 1}
  }
}
