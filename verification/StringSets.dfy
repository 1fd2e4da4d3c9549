/** The stringSet type of index/regexp.go: lists of strings that stand for sets. */
module StringSets {
  import opened Bytes

  type StrSet = seq<Str>

  // ---------------------------------------------------------------- the two sort orders

  /** bySuffix.Less: compare from the last byte backwards, shorter first on a tie. */
  predicate SuffixLess(s: Str, t: Str) {
    t != [] && (s == [] || s[|s| - 1] < t[|t| - 1]
                || (s[|s| - 1] == t[|t| - 1] && SuffixLess(s[..|s| - 1], t[..|t| - 1])))
  }

  predicate Before(s: Str, t: Str, isSuffix: bool) {
    if isSuffix then SuffixLess(s, t) else Less(s, t)
  }

  lemma {:induction false} ReversedDropLast(s: Str)
    requires s != []
    ensures Reversed(s) == [s[|s| - 1]] + Reversed(s[..|s| - 1])
  {
    var n := |s| - 1;
    if n > 0 {
      ReversedDropLast(s[1..]);
      assert s[1..][..n - 1] == s[..n][1..];
      assert Reversed(s[..n]) == Reversed(s[..n][1..]) + [s[0]];
    }
  }

  lemma {:induction false} SuffixLessIsReversedLess(s: Str, t: Str)
    ensures SuffixLess(s, t) <==> Less(Reversed(s), Reversed(t))
  {
    if s != [] && t != [] {
      ReversedDropLast(s);
      ReversedDropLast(t);
      SuffixLessIsReversedLess(s[..|s| - 1], t[..|t| - 1]);
    }
  }

  lemma BeforeTransitive(s: Str, t: Str, u: Str, isSuffix: bool)
    requires Before(s, t, isSuffix) && Before(t, u, isSuffix)
    ensures Before(s, u, isSuffix)
  {
    if isSuffix {
      SuffixLessIsReversedLess(s, t);
      SuffixLessIsReversedLess(t, u);
      SuffixLessIsReversedLess(s, u);
      LessTransitive(Reversed(s), Reversed(t), Reversed(u));
    } else {
      LessTransitive(s, t, u);
    }
  }

  lemma BeforeIrreflexive(s: Str, isSuffix: bool)
    ensures !Before(s, s, isSuffix)
  {
    SuffixLessIsReversedLess(s, s);
    LessIrreflexive(s);
    LessIrreflexive(Reversed(s));
  }

  lemma BeforeTotal(s: Str, t: Str, isSuffix: bool)
    ensures Before(s, t, isSuffix) || s == t || Before(t, s, isSuffix)
  {
    if isSuffix {
      SuffixLessIsReversedLess(s, t);
      SuffixLessIsReversedLess(t, s);
      LessTotal(Reversed(s), Reversed(t));
      if Reversed(s) == Reversed(t) {
        ReversedTwice(s);
        ReversedTwice(t);
      }
    } else {
      LessTotal(s, t);
    }
  }

  // ---------------------------------------------------------------- clean: sort and drop duplicates

  predicate StrictlySorted(s: StrSet, isSuffix: bool) {
    forall i, j :: 0 <= i < j < |s| ==> Before(s[i], s[j], isSuffix)
  }

  /** Adds `x` to a strictly sorted list at its place, unless it is there already. */
  function Insert(x: Str, s: StrSet, isSuffix: bool): (r: StrSet)
    ensures forall y :: y in r <==> y == x || y in s
    ensures |s| <= |r| <= |s| + 1
  {
    if s == [] then [x]
    else if x == s[0] then s
    else if Before(x, s[0], isSuffix) then [x] + s
    else [s[0]] + Insert(x, s[1..], isSuffix)
  }

  /** clean: the elements of `s`, each once, in order. */
  function Clean(s: StrSet, isSuffix: bool): (r: StrSet)
    ensures forall y :: y in r <==> y in s
    ensures |r| <= |s|
  {
    if s == [] then [] else Insert(s[0], Clean(s[1..], isSuffix), isSuffix)
  }

  lemma {:induction false} InsertSorted(x: Str, s: StrSet, isSuffix: bool)
    requires StrictlySorted(s, isSuffix)
    ensures StrictlySorted(Insert(x, s, isSuffix), isSuffix)
  {
    if s != [] && x != s[0] {
      if Before(x, s[0], isSuffix) {
        forall j | 0 <= j < |s|
          ensures Before(x, s[j], isSuffix)
        {
          if j > 0 {
            BeforeTransitive(x, s[0], s[j], isSuffix);
          }
        }
      } else {
        BeforeTotal(x, s[0], isSuffix);
        InsertSorted(x, s[1..], isSuffix);
        var r := Insert(x, s[1..], isSuffix);
        forall j | 0 <= j < |r|
          ensures Before(s[0], r[j], isSuffix)
        {
          assert r[j] in r;
        }
      }
    }
  }

  lemma {:induction false} CleanSorted(s: StrSet, isSuffix: bool)
    ensures StrictlySorted(Clean(s, isSuffix), isSuffix)
  {
    if s != [] {
      CleanSorted(s[1..], isSuffix);
      InsertSorted(s[0], Clean(s[1..], isSuffix), isSuffix);
    }
  }

  /** A strictly sorted list is determined by its elements. */
  lemma {:induction false} SortedUnique(s: StrSet, t: StrSet, isSuffix: bool)
    requires StrictlySorted(s, isSuffix) && StrictlySorted(t, isSuffix)
    requires forall y :: y in s <==> y in t
    ensures s == t
  {
    assert t != [] ==> t[0] in t;
    if s != [] {
      assert s[0] in s && s[0] in t;
      assert t[0] in s;
      if s[0] != t[0] {
        var i :| 0 <= i < |t| && t[i] == s[0];
        var j :| 0 <= j < |s| && s[j] == t[0];
        BeforeTransitive(s[0], t[0], s[0], isSuffix);
        BeforeIrreflexive(s[0], isSuffix);
        assert false;
      }
      forall y
        ensures y in s[1..] <==> y in t[1..]
      {
        if y == s[0] {
          BeforeIrreflexive(y, isSuffix);
        }
        assert y in s <==> y == s[0] || y in s[1..];
        assert y in t <==> y == t[0] || y in t[1..];
      }
      SortedUnique(s[1..], t[1..], isSuffix);
    }
  }

  lemma CleanDeterminedByElements(s: StrSet, t: StrSet, isSuffix: bool)
    requires forall y :: y in s <==> y in t
    ensures Clean(s, isSuffix) == Clean(t, isSuffix)
  {
    CleanSorted(s, isSuffix);
    CleanSorted(t, isSuffix);
    SortedUnique(Clean(s, isSuffix), Clean(t, isSuffix), isSuffix);
  }

  /** What sort.Sort leaves: the same strings, in order, duplicates included. */
  function SortAll(s: StrSet, isSuffix: bool): (r: StrSet)
    ensures |r| == |s| && forall y :: y in r <==> y in s
  {
    if s == [] then [] else Place(s[0], SortAll(s[1..], isSuffix), isSuffix)
  }

  function Place(x: Str, s: StrSet, isSuffix: bool): (r: StrSet)
    ensures |r| == |s| + 1 && forall y :: y in r <==> y == x || y in s
  {
    if s == [] || Before(x, s[0], isSuffix) then [x] + s else [s[0]] + Place(x, s[1..], isSuffix)
  }

  predicate Sorted(s: StrSet, isSuffix: bool) {
    forall i, j :: 0 <= i < j < |s| ==> s[i] == s[j] || Before(s[i], s[j], isSuffix)
  }

  lemma {:induction false} PlaceSorted(x: Str, s: StrSet, isSuffix: bool)
    requires Sorted(s, isSuffix)
    ensures Sorted(Place(x, s, isSuffix), isSuffix)
  {
    if s != [] {
      if Before(x, s[0], isSuffix) {
        forall j | 0 <= j < |s|
          ensures Before(x, s[j], isSuffix)
        {
          if j > 0 && s[0] != s[j] {
            BeforeTransitive(x, s[0], s[j], isSuffix);
          }
        }
      } else {
        BeforeTotal(x, s[0], isSuffix);
        PlaceSorted(x, s[1..], isSuffix);
        var r := Place(x, s[1..], isSuffix);
        forall j | 0 <= j < |r|
          ensures s[0] == r[j] || Before(s[0], r[j], isSuffix)
        {
          assert r[j] in r;
        }
      }
    }
  }

  lemma {:induction false} SortAllSorted(s: StrSet, isSuffix: bool)
    ensures Sorted(SortAll(s, isSuffix), isSuffix)
  {
    if s != [] {
      SortAllSorted(s[1..], isSuffix);
      PlaceSorted(s[0], SortAll(s[1..], isSuffix), isSuffix);
    }
  }

  /** The deduplication loop of clean over `a[..n]`: it keeps a string unless it equals the last one
      kept, writing the kept ones over the front of the array. */
  method Compact(a: array<Str>, n: nat) returns (w: nat)
    requires n <= a.Length
    modifies a
    ensures w <= n
    ensures forall y :: y in a[..w] <==> y in old(a[..n])
    ensures forall isSuffix :: Sorted(old(a[..n]), isSuffix) ==> StrictlySorted(a[..w], isSuffix)
  {
    w := 0;
    ghost var was := a[..n];
    for k := 0 to n
      invariant w <= k && a[k..n] == was[k..]
      invariant forall y :: y in a[..w] <==> y in was[..k]
      invariant w > 0 ==> k > 0 && a[w - 1] == was[k - 1]
      invariant forall isSuffix :: Sorted(was, isSuffix) ==> StrictlySorted(a[..w], isSuffix)
    {
      var str := a[k];
      assert str == was[k..][0] == was[k];
      assert was[..k + 1] == was[..k] + [str];
      ghost var kept := a[..w];
      if w == 0 || a[w - 1] != str {
        CompactStep(was, k, kept);
        a[w] := str;
        w := w + 1;
        assert a[..w] == kept + [str];
      }
      assert a[k + 1..n] == was[k + 1..];
    }
    assert was[..n] == was;
  }

  lemma CompactStep(was: StrSet, k: nat, kept: StrSet)
    requires k < |was| && forall y :: y in kept ==> y in was[..k]
    requires kept != [] ==> k > 0 && kept[|kept| - 1] == was[k - 1] != was[k]
    ensures forall isSuffix :: Sorted(was, isSuffix) && StrictlySorted(kept, isSuffix)
              ==> StrictlySorted(kept + [was[k]], isSuffix)
  {
    forall isSuffix | Sorted(was, isSuffix) && StrictlySorted(kept, isSuffix)
      ensures StrictlySorted(kept + [was[k]], isSuffix)
    {
      if kept != [] {
        assert Before(was[k - 1], was[k], isSuffix);
        forall i | 0 <= i < |kept|
          ensures Before(kept[i], was[k], isSuffix)
        {
          if i < |kept| - 1 {
            BeforeTransitive(kept[i], kept[|kept| - 1], was[k], isSuffix);
          }
        }
      }
    }
  }

  /** clean, in place on `a[..n]`: sort, then compact. */
  method CleanInPlace(a: array<Str>, n: nat, isSuffix: bool) returns (w: nat)
    requires n <= a.Length
    modifies a
    ensures w <= n && a[..w] == Clean(old(a[..n]), isSuffix)
  {
    var sorted := SortAll(a[..n], isSuffix);
    forall i | 0 <= i < n {
      a[i] := sorted[i];
    }
    assert a[..n] == sorted;
    SortAllSorted(old(a[..n]), isSuffix);
    w := Compact(a, n);
    CleanSorted(old(a[..n]), isSuffix);
    SortedUnique(a[..w], Clean(old(a[..n]), isSuffix), isSuffix);
  }

  // ---------------------------------------------------------------- set operations

  function Union(s: StrSet, t: StrSet, isSuffix: bool): (r: StrSet)
    ensures forall y :: y in r <==> y in s || y in t
  {
    Clean(s + t, isSuffix)
  }

  /** All concatenations of an element of `s` and an element of `t`, in loop order. */
  function Products(s: StrSet, t: StrSet): StrSet {
    if s == [] then [] else seq(|t|, j requires 0 <= j < |t| => s[0] + t[j]) + Products(s[1..], t)
  }

  function Cross(s: StrSet, t: StrSet, isSuffix: bool): StrSet {
    Clean(Products(s, t), isSuffix)
  }

  ghost predicate IsProduct(x: Str, s: StrSet, t: StrSet) {
    exists i, j :: 0 <= i < |s| && 0 <= j < |t| && x == s[i] + t[j]
  }

  lemma {:induction false} ProductsElements(s: StrSet, t: StrSet, x: Str)
    ensures x in Products(s, t) <==> IsProduct(x, s, t)
  {
    if s != [] {
      ProductsElements(s[1..], t, x);
      var row := seq(|t|, j requires 0 <= j < |t| => s[0] + t[j]);
      assert x in Products(s, t) <==> x in row || x in Products(s[1..], t);
      if IsProduct(x, s, t) {
        var i, j :| 0 <= i < |s| && 0 <= j < |t| && x == s[i] + t[j];
        if i == 0 {
          assert row[j] == x;
        } else {
          assert s[1..][i - 1] + t[j] == x;
        }
      }
      if x in row {
        var j :| 0 <= j < |t| && row[j] == x;
        assert x == s[0] + t[j];
      } else if IsProduct(x, s[1..], t) {
        var i, j :| 0 <= i < |s[1..]| && 0 <= j < |t| && x == s[1..][i] + t[j];
        assert x == s[i + 1] + t[j];
      }
    }
  }

  lemma CrossElements(s: StrSet, t: StrSet, isSuffix: bool, x: Str)
    ensures x in Cross(s, t, isSuffix) <==> IsProduct(x, s, t)
  {
    ProductsElements(s, t, x);
  }

  /** minLen: 0 for the empty set, as in the source. */
  function MinLen(s: StrSet): (m: nat)
    ensures forall x :: x in s ==> m <= |x|
    ensures s != [] ==> exists x :: x in s && |x| == m
    ensures s == [] ==> m == 0
  {
    if s == [] then 0
    else if |s| == 1 then assert s[0] in s; |s[0]|
    else
      var m := MinLen(s[1..]);
      assert s == [s[0]] + s[1..];
      assert s[0] in s;
      if |s[0]| < m then |s[0]| else m
  }

  // ---------------------------------------------------------------- isSubsetOf

  function SkipLess(t: StrSet, x: Str): (r: StrSet)
    ensures |r| <= |t|
    ensures forall y :: y in r ==> y in t
  {
    if t != [] && Less(t[0], x) then SkipLess(t[1..], x) else t
  }

  /** isSubsetOf: one cursor over `t`, which never moves back. */
  predicate IsSubsetOf(s: StrSet, t: StrSet) {
    s == [] || (var u := SkipLess(t, s[0]); u != [] && u[0] == s[0] && IsSubsetOf(s[1..], u))
  }

  /** A true answer is right for any two lists, sorted or not. */
  lemma {:induction false} IsSubsetOfSound(s: StrSet, t: StrSet)
    requires IsSubsetOf(s, t)
    ensures forall y :: y in s ==> y in t
  {
    if s != [] {
      var u := SkipLess(t, s[0]);
      IsSubsetOfSound(s[1..], u);
      assert u[0] in u;
      assert s == [s[0]] + s[1..];
    }
  }

  lemma {:induction false} SkipLessKeeps(t: StrSet, x: Str, y: Str)
    requires StrictlySorted(t, false) && y in t && LessEq(x, y)
    ensures y in SkipLess(t, x) && StrictlySorted(SkipLess(t, x), false)
    ensures y == x ==> SkipLess(t, x) != [] && SkipLess(t, x)[0] == x
  {
    if t != [] && Less(t[0], x) {
      if y == t[0] {
        LessAsymmetric(y, x);
        assert false;
      }
      assert t == [t[0]] + t[1..];
      SkipLessKeeps(t[1..], x, y);
    }
  }

  /** On sorted sets the answer is exact. */
  lemma {:induction false} IsSubsetOfComplete(s: StrSet, t: StrSet)
    requires StrictlySorted(s, false) && StrictlySorted(t, false)
    requires forall y :: y in s ==> y in t
    ensures IsSubsetOf(s, t)
  {
    if s != [] {
      assert s[0] in s;
      SkipLessKeeps(t, s[0], s[0]);
      var u := SkipLess(t, s[0]);
      forall y | y in s[1..]
        ensures y in u
      {
        var i :| 0 <= i < |s[1..]| && s[1..][i] == y;
        assert Before(s[0], s[i + 1], false);
        assert y in s;
        SkipLessKeeps(t, s[0], y);
      }
      IsSubsetOfComplete(s[1..], u);
    }
  }

  /** The loop of isSubsetOf. */
  method ScanSubset(s: StrSet, t: StrSet) returns (subset: bool)
    ensures subset == IsSubsetOf(s, t)
  {
    var j := 0;
    assert s[0..] == s && t[0..] == t;
    for k := 0 to |s|
      invariant j <= |t|
      invariant IsSubsetOf(s, t) == IsSubsetOf(s[k..], t[j..])
    {
      assert s[k..][0] == s[k] && s[k..][1..] == s[k + 1..];
      ghost var left := t[j..];
      while j < |t| && Less(t[j], s[k])
        invariant j <= |t|
        invariant SkipLess(left, s[k]) == SkipLess(t[j..], s[k])
      {
        assert t[j..][0] == t[j] && t[j..][1..] == t[j + 1..];
        j := j + 1;
      }
      assert SkipLess(t[j..], s[k]) == t[j..];
      if j >= |t| || t[j] != s[k] {
        return false;
      }
    }
    return true;
  }

  /** The loop of minLen. */
  method ScanMinLen(s: StrSet) returns (m: nat)
    ensures m == MinLen(s)
  {
    if |s| == 0 {
      return 0;
    }
    m := |s[0]|;
    for k := 0 to |s|
      invariant exists x :: x in s && |x| == m
      invariant forall x :: x in s[..k] ==> m <= |x|
    {
      assert s[..k + 1] == s[..k] + [s[k]];
      if m > |s[k]| {
        m := |s[k]|;
        assert s[k] in s;
      }
    }
    assert s[..|s|] == s;
  }
}
