/** Sparse sets (sparse/set.go): constant-time membership over an array that is never cleared. */
module SparseSets {
  predicate Distinct(s: seq<nat>) {
    forall i, j :: 0 <= i < j < |s| ==> s[i] != s[j]
  }

  ghost function Members(s: seq<nat>): set<nat> {
    set x | x in s
  }

  /** Distinct numbers below `n` number at most `n`. */
  lemma {:induction false} DistinctBounded(s: seq<nat>, n: nat)
    requires Distinct(s) && forall x :: x in s ==> x < n
    ensures |s| <= n
    decreases n
  {
    assert s != [] ==> s[0] in s;
    if n == 0 {
    } else if exists i :: 0 <= i < |s| && s[i] == n - 1 {
      var i :| 0 <= i < |s| && s[i] == n - 1;
      var t := s[..i] + s[i + 1..];
      forall x | x in t
        ensures x < n - 1
      {
        assert x in s && x != s[i];
      }
      DistinctBounded(t, n - 1);
    } else {
      forall x | x in s
        ensures x < n - 1
      {
        var i :| 0 <= i < |s| && s[i] == x;
      }
      DistinctBounded(s, n - 1);
    }
  }

  class Set {
    var dense: seq<nat>
    var sparse: array<nat>

    ghost predicate Valid()
      reads this, sparse
    {
      && (forall i :: 0 <= i < |dense| ==> dense[i] < sparse.Length)
      && (forall i :: 0 <= i < |dense| ==> sparse[dense[i]] == i)
    }

    /** NewSet and Init: an empty set for numbers below `max`. */
    constructor (max: nat)
      ensures Valid() && fresh(sparse) && sparse.Length == max && dense == []
    {
      dense := [];
      sparse := new nat[max];
    }

    method Reset()
      requires Valid()
      modifies this
      ensures Valid() && dense == [] && sparse == old(sparse)
    {
      dense := [];
    }

    /** Has, including the test against stale entries of `sparse`. */
    predicate Has(x: nat)
      requires Valid() && x < sparse.Length
      reads this, sparse
      ensures Has(x) <==> x in dense
    {
      sparse[x] < |dense| && dense[sparse[x]] == x
    }

    method Add(x: nat)
      requires Valid() && x < sparse.Length
      modifies this, sparse
      ensures Valid() && sparse == old(sparse)
      ensures dense == if x in old(dense) then old(dense) else old(dense) + [x]
    {
      var v := sparse[x];
      if v < |dense| && dense[v] == x {
        return;
      }
      assert !Has(x);
      var n := |dense|;
      sparse[x] := n;
      dense := dense + [x];
    }

    lemma ValidDistinct()
      requires Valid()
      ensures Distinct(dense) && |dense| <= sparse.Length
    {
      assert Distinct(dense) by {
        forall i, j | 0 <= i < j < |dense|
          ensures dense[i] != dense[j]
        {
          assert sparse[dense[i]] == i && sparse[dense[j]] == j;
        }
      }
      DistinctBounded(dense, sparse.Length);
    }
  }
}
