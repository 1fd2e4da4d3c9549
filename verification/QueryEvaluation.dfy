/** Evaluating trigram queries on an index (index/read.go, postingQuery). */
module QueryEvaluation {
  import opened Bytes
  import opened Varints
  import opened PostEntries
  import opened StringSets
  import opened Queries
  import opened IndexFormat
  import opened Postings

  // ---------------------------------------------------------------- what a query selects

  /** The trigrams whose lists hold `id`. */
  ghost function IdTrigrams(ps: seq<Posting>, id: nat): iset<Str> {
    iset t: Str | |t| == 3 && id in Lookup(ps, TriNum(t))
  }

  /** The ids that a restriction leaves; nil leaves all of them. */
  ghost predicate InScope(restrict: Option<seq<uint32>>, numName: nat, id: nat) {
    match restrict
    case None => id < numName
    case Some(r) => id in r
  }

  /** The ids in scope whose trigrams satisfy `q`. */
  ghost predicate Selected(q: Query, restrict: Option<seq<uint32>>, v: View, id: nat) {
    InScope(restrict, |v.names|, id) && Sat(q, IdTrigrams(v.postings, id))
  }

  ghost predicate NoEmptyAnd(q: Query) {
    !IsEmptyAnd(q) && forall x :: x in q.sub ==> NoEmptyAnd(x)
  }

  lemma {:induction false} InnerEvaluable(q: Query)
    requires Inner(q)
    ensures ThreeByte(q) && NoEmptyAnd(q)
  {
    forall x | x in q.sub
      ensures ThreeByte(x) && NoEmptyAnd(x)
    {
      InnerEvaluable(x);
    }
  }

  lemma WellFormedEvaluable(q: Query)
    requires WellFormed(q)
    ensures ThreeByte(q) && NoEmptyAnd(q)
  {
    if Inner(q) {
      InnerEvaluable(q);
    }
  }

  /** `s` lists, in order, the ids in scope that satisfy `p`. */
  ghost predicate Lists(s: seq<uint32>, restrict: Option<seq<uint32>>, numName: nat, p: nat -> bool) {
    Increasing(s) && forall id: nat :: id in s <==> InScope(restrict, numName, id) && p(id)
  }

  ghost function HasAll(ps: seq<Posting>, ts: StrSet): nat -> bool {
    (id: nat) => forall t :: t in ts ==> t in IdTrigrams(ps, id)
  }

  ghost function HasSome(ps: seq<Posting>, ts: StrSet): nat -> bool {
    (id: nat) => exists t :: t in ts && t in IdTrigrams(ps, id)
  }

  ghost function SatAll(ps: seq<Posting>, qs: seq<Query>): nat -> bool {
    (id: nat) => forall x :: x in qs ==> Sat(x, IdTrigrams(ps, id))
  }

  ghost function SatSome(ps: seq<Posting>, qs: seq<Query>): nat -> bool {
    (id: nat) => exists x :: x in qs && Sat(x, IdTrigrams(ps, id))
  }

  ghost function Either(p: nat -> bool, q: nat -> bool): nat -> bool {
    (id: nat) => p(id) || q(id)
  }

  /** One trigram's list, restricted, is the ids in scope that have the trigram. */
  lemma WantedIds(v: View, t: Str, restrict: Option<seq<uint32>>)
    requires ValidView(v) && |t| == 3
    requires restrict.Some? ==> Increasing(restrict.value)
    ensures var w := Wanted(Lookup(v.postings, TriNum(t)), restrict);
            Increasing(w) && forall id: nat :: id in w <==> InScope(restrict, |v.names|, id) && t in IdTrigrams(v.postings, id)
  {
    LookupValid(v.postings, TriNum(t), |v.names|);
    WantedIncreasing(Lookup(v.postings, TriNum(t)), restrict);
  }

  // ---------------------------------------------------------------- the trigram loops

  ghost function TrigramIds(v: View, t: Str, r: Option<seq<uint32>>): seq<uint32>
    requires |t| == 3
  {
    Wanted(Lookup(v.postings, TriNum(t)), r)
  }

  lemma AllStep(v: View, ts: StrSet, k: nat, r: Option<seq<uint32>>, before: seq<uint32>)
    requires ValidView(v) && k < |ts| && |ts[k]| == 3 && (r.Some? ==> Increasing(r.value))
    requires k > 0 ==> Lists(before, r, |v.names|, HasAll(v.postings, ts[..k]))
    ensures var w := TrigramIds(v, ts[k], r);
            Lists(if k == 0 then w else Keep(before, w), r, |v.names|, HasAll(v.postings, ts[..k + 1]))
  {
    WantedIds(v, ts[k], r);
    assert ts[..k + 1] == ts[..k] + [ts[k]];
    if k > 0 {
      KeepIncreasing(before, TrigramIds(v, ts[k], r));
    }
  }

  lemma SomeStep(v: View, ts: StrSet, k: nat, r: Option<seq<uint32>>, before: seq<uint32>, s: seq<uint32>)
    requires ValidView(v) && k < |ts| && |ts[k]| == 3 && (r.Some? ==> Increasing(r.value))
    requires Lists(before, r, |v.names|, HasSome(v.postings, ts[..k]))
    requires IsUnion(s, before, TrigramIds(v, ts[k], r)) || (before == [] && s == TrigramIds(v, ts[k], r))
    ensures Lists(s, r, |v.names|, HasSome(v.postings, ts[..k + 1]))
  {
    WantedIds(v, ts[k], r);
    assert ts[..k + 1] == ts[..k] + [ts[k]];
  }

  lemma ListsIncreasing(s: seq<uint32>, r: Option<seq<uint32>>, n: nat, p: nat -> bool)
    requires Lists(s, r, n, p)
    ensures Increasing(s)
  {
  }

  /** The trigrams of an And node. None of them leaves the list nil; running out of ids is `empty`. */
  method AndList(ix: Index, ts: StrSet, restrict: IdList, ghost v: View) returns (list: IdList, empty: bool)
    requires Represents(ix, v) && forall t :: t in ts ==> |t| == 3
    requires Fits(restrict) && Increasing(Elems(restrict))
    ensures list.Ids? ==> fresh(list.arr) && Fits(list)
    ensures list.Nil? <==> ts == []
    ensures empty ==> list.Ids? && list.n == 0
    ensures list.Ids? ==> Lists(Elems(list), Restriction(restrict), |v.names|, HasAll(v.postings, ts))
  {
    hide Represents, Lists, HasAll, Increasing;
    list, empty := Nil, false;
    var r := Restriction(restrict);
    for k := 0 to |ts|
      invariant list.Nil? <==> k == 0
      invariant list.Ids? ==> fresh(list.arr) && Fits(list)
      invariant list.Ids? ==> Lists(Elems(list), r, |v.names|, HasAll(v.postings, ts[..k]))
    {
      list := AndOne(ix, ts, k, list, r, v);
      if Len(list) == 0 {
        assert Elems(list) == [];
        AllOfMore(v, ts, k + 1, r);
        return list, true;
      }
    }
    assert ts[..|ts|] == ts;
  }

  /** The body of that loop, up to its early exit. */
  method AndOne(ix: Index, ts: StrSet, k: nat, list0: IdList, r: Option<seq<uint32>>, ghost v: View)
    returns (list: IdList)
    requires Represents(ix, v) && k < |ts| && |ts[k]| == 3 && (r.Some? ==> Increasing(r.value))
    requires Fits(list0) && (list0.Nil? <==> k == 0)
    requires list0.Ids? ==> Lists(Elems(list0), r, |v.names|, HasAll(v.postings, ts[..k]))
    modifies Cells(list0)
    ensures list.Ids? && Fits(list) && (fresh(list.arr) || (list0.Ids? && list.arr == list0.arr))
    ensures Lists(Elems(list), r, |v.names|, HasAll(v.postings, ts[..k + 1]))
  {
    assert ValidView(v);
    hide Represents, ValidView, Lists, HasAll, Lookup, Wanted, Keep, Increasing;
    var t := ts[k];
    AllStep(v, ts, k, r, Elems(list0));
    if list0.Nil? {
      list := PostingList(ix, TriNum(t), r, v);
    } else {
      ListsIncreasing(Elems(list0), r, |v.names|, HasAll(v.postings, ts[..k]));
      list := PostingAnd(ix, list0, TriNum(t), r, v);
    }
  }

  /** Once no id has the first `k` trigrams, none has all of them. */
  lemma AllOfMore(v: View, ts: StrSet, k: nat, r: Option<seq<uint32>>)
    requires k <= |ts| && Lists([], r, |v.names|, HasAll(v.postings, ts[..k]))
    ensures Lists([], r, |v.names|, HasAll(v.postings, ts))
  {
    forall id: nat | InScope(r, |v.names|, id)
      ensures !HasAll(v.postings, ts)(id)
    {
      assert !HasAll(v.postings, ts[..k])(id);
    }
  }

  lemma NoneOf(v: View, r: Option<seq<uint32>>)
    ensures Lists([], r, |v.names|, HasSome(v.postings, []))
  {
  }

  /** The trigrams of an Or node; the list stays nil if there is none. */
  method OrList(ix: Index, ts: StrSet, restrict: IdList, ghost v: View) returns (list: IdList)
    requires Represents(ix, v) && forall t :: t in ts ==> |t| == 3
    requires Fits(restrict) && Increasing(Elems(restrict))
    ensures list.Ids? ==> fresh(list.arr)
    ensures Fits(list) && Lists(Elems(list), Restriction(restrict), |v.names|, HasSome(v.postings, ts))
  {
    assert ValidView(v);
    hide Represents, ValidView, Lists, HasSome, Lookup, Wanted, IsUnion, Increasing;
    list := Nil;
    var r := Restriction(restrict);
    NoneOf(v, r);
    assert ts[..0] == [];
    for k := 0 to |ts|
      invariant list.Ids? ==> fresh(list.arr)
      invariant Fits(list) && Lists(Elems(list), r, |v.names|, HasSome(v.postings, ts[..k]))
    {
      list := OrOne(ix, ts, k, list, r, v);
    }
    assert ts[..|ts|] == ts;
  }

  /** The body of that loop. */
  method OrOne(ix: Index, ts: StrSet, k: nat, list0: IdList, r: Option<seq<uint32>>, ghost v: View)
    returns (list: IdList)
    requires Represents(ix, v) && k < |ts| && |ts[k]| == 3 && (r.Some? ==> Increasing(r.value))
    requires Fits(list0) && Lists(Elems(list0), r, |v.names|, HasSome(v.postings, ts[..k]))
    ensures list.Ids? && fresh(list.arr) && Fits(list)
    ensures Lists(Elems(list), r, |v.names|, HasSome(v.postings, ts[..k + 1]))
  {
    assert ValidView(v);
    hide Represents, ValidView, Lists, HasSome, Lookup, Wanted, IsUnion, Increasing;
    var t := ts[k];
    ghost var before := Elems(list0);
    if list0.Nil? {
      list := PostingList(ix, TriNum(t), r, v);
    } else {
      ListsIncreasing(before, r, |v.names|, HasSome(v.postings, ts[..k]));
      list := PostingOr(ix, list0, TriNum(t), r, v);
    }
    SomeStep(v, ts, k, r, before, Elems(list));
  }

  // ---------------------------------------------------------------- postingQuery

  /** postingQuery: exactly the ids in scope that satisfy the query, in order. An empty And node, which
      andOr never builds, evaluates to nothing although it means everything. */
  method PostingQuery(ix: Index, q: Query, restrict: IdList, ghost v: View) returns (ret: IdList)
    requires Represents(ix, v) && ThreeByte(q)
    requires Fits(restrict) && Increasing(Elems(restrict))
    ensures Fits(ret) && (ret.Ids? ==> fresh(ret.arr) || ret == restrict)
    ensures Increasing(Elems(ret))
    ensures NoEmptyAnd(q) ==>
              forall id: nat :: id in Elems(ret) <==> Selected(q, Restriction(restrict), v, id)
    ensures IsEmptyAnd(q) ==> Elems(ret) == []
    decreases q, 1
  {
    hide Represents, Lists, HasAll, SatAll, HasSome, SatSome, Either, Selected;
    ghost var r := Restriction(restrict);
    match q.op
    case QNone =>
      ret := Nil;
      assert forall id: nat :: !Selected(q, r, v, id) by {
        NoneSelected(q, r, v);
      }
    case QAll =>
      if !restrict.Nil? {
        ret := restrict;
      } else {
        assert ix.numName == |v.names| < NoId by {
          ViewSizes(ix, v);
        }
        ret := AllIds(ix.numName);
      }
      assert forall id: nat :: id in Elems(ret) <==> Selected(q, r, v, id) by {
        AllSelected(q, r, v, Elems(ret));
      }
    case QAnd =>
      var list, empty := AndList(ix, q.trigram, restrict, v);
      ghost var base := Restriction(if list.Nil? then restrict else list);
      if empty {
        ret := Nil;
        assert forall id: nat :: !Selected(q, r, v, id) by {
          AndNoneSelected(q, r, v);
        }
      } else {
        assert Increasing(Elems(list)) by {
          if list.Ids? {
            ListsIncreasing(Elems(list), r, |v.names|, HasAll(v.postings, q.trigram));
          }
        }
        ret := AndSubs(ix, q.sub, list, restrict, v);
        assert NoEmptyAnd(q) ==> forall id: nat :: id in Elems(ret) <==> Selected(q, r, v, id) by {
          if NoEmptyAnd(q) {
            AndSelected(q, r, v, base, Elems(ret));
          }
        }
      }
    case QOr =>
      var list := OrList(ix, q.trigram, restrict, v);
      ret := OrSubs(ix, q.sub, list, restrict, v, HasSome(v.postings, q.trigram));
      assert NoEmptyAnd(q) ==> forall id: nat :: id in Elems(ret) <==> Selected(q, r, v, id) by {
        if NoEmptyAnd(q) {
          OrSelected(q, r, v, Elems(ret));
        }
      }
  }

  lemma ViewSizes(ix: Index, v: View)
    requires Represents(ix, v)
    ensures ix.numName == |v.names| < NoId
  {
  }

  lemma NoneSelected(q: Query, r: Option<seq<uint32>>, v: View)
    requires q.op == QNone
    ensures forall id: nat :: !Selected(q, r, v, id)
  {
  }

  lemma AllSelected(q: Query, r: Option<seq<uint32>>, v: View, s: seq<uint32>)
    requires q.op == QAll && if r.Some? then s == r.value else forall id: nat :: id in s <==> id < |v.names|
    ensures forall id: nat :: id in s <==> Selected(q, r, v, id)
  {
  }

  lemma AndNoneSelected(q: Query, r: Option<seq<uint32>>, v: View)
    requires q.op == QAnd && Lists([], r, |v.names|, HasAll(v.postings, q.trigram))
    ensures forall id: nat :: !Selected(q, r, v, id)
  {
    forall id: nat
      ensures !Selected(q, r, v, id)
    {
      assert InScope(r, |v.names|, id) ==> !HasAll(v.postings, q.trigram)(id);
    }
  }

  /** What the trigrams leave (`base`), narrowed by the subqueries, is what the And node selects. */
  lemma AndSelected(q: Query, r: Option<seq<uint32>>, v: View, base: Option<seq<uint32>>, s: seq<uint32>)
    requires q.op == QAnd && !IsEmptyAnd(q)
    requires if q.trigram == [] then base == r
             else base.Some? && Lists(base.value, r, |v.names|, HasAll(v.postings, q.trigram))
    requires if q.sub == [] then base.Some? && s == base.value
             else Lists(s, base, |v.names|, SatAll(v.postings, q.sub))
    ensures forall id: nat :: id in s <==> Selected(q, r, v, id)
  {
    forall id: nat
      ensures id in s <==> Selected(q, r, v, id)
    {
      assert Selected(q, r, v, id) <==>
             InScope(r, |v.names|, id) && HasAll(v.postings, q.trigram)(id) && SatAll(v.postings, q.sub)(id);
      assert InScope(base, |v.names|, id) <==> InScope(r, |v.names|, id) && HasAll(v.postings, q.trigram)(id);
    }
  }

  lemma OrSelected(q: Query, r: Option<seq<uint32>>, v: View, s: seq<uint32>)
    requires q.op == QOr
    requires Lists(s, r, |v.names|, Either(HasSome(v.postings, q.trigram), SatSome(v.postings, q.sub)))
    ensures forall id: nat :: id in s <==> Selected(q, r, v, id)
  {
  }

  method AllIds(n: nat) returns (l: IdList)
    requires n < NoId
    ensures l.Ids? && fresh(l.arr) && Fits(l) && Increasing(Elems(l))
    ensures forall id: nat :: id in Elems(l) <==> id < n
  {
    var s: seq<uint32> := seq(n, i requires 0 <= i < n => i);
    l := FromSeq(s);
    assert Elems(l) == s;
    forall id: nat
      ensures id in s <==> id < n
    {
      if id < n {
        assert s[id] == id;
      }
    }
  }

  /** The subqueries of an And node: each is evaluated within the list so far, or within the
      restriction as long as there is no list. */
  method AndSubs(ix: Index, qs: seq<Query>, list0: IdList, restrict: IdList, ghost v: View) returns (list: IdList)
    requires Represents(ix, v) && forall x :: x in qs ==> ThreeByte(x)
    requires Fits(restrict) && Increasing(Elems(restrict)) && Fits(list0) && Increasing(Elems(list0))
    ensures Fits(list) && (list.Ids? ==> fresh(list.arr) || list == list0 || list == restrict)
    ensures Increasing(Elems(list))
    ensures qs == [] ==> list == list0
    ensures qs != [] && (forall x :: x in qs ==> NoEmptyAnd(x)) ==>
              Lists(Elems(list), Restriction(if list0.Nil? then restrict else list0), |v.names|, SatAll(v.postings, qs))
    decreases qs, 0
  {
    hide Represents, Lists, SatAll, Selected, Increasing;
    list := list0;
    ghost var base := Restriction(if list0.Nil? then restrict else list0);
    for k := 0 to |qs|
      invariant Fits(list) && (list.Ids? ==> fresh(list.arr) || list == list0 || list == restrict)
      invariant Increasing(Elems(list))
      invariant k == 0 ==> list == list0
      invariant k > 0 ==> list.Ids?
      invariant k > 0 && (forall x :: x in qs ==> NoEmptyAnd(x)) ==>
                  Lists(Elems(list), base, |v.names|, SatAll(v.postings, qs[..k]))
    {
      var from := if list.Nil? then restrict else list;
      ghost var r := Restriction(from);
      assert qs[k] in qs;
      list := PostingQuery(ix, qs[k], from, v);
      assert (forall x :: x in qs ==> NoEmptyAnd(x)) ==>
          Lists(Elems(list), base, |v.names|, SatAll(v.postings, qs[..k + 1])) by {
        if forall x :: x in qs ==> NoEmptyAnd(x) {
          SatAllStep(v, qs, k, base, r, Elems(list));
        }
      }
      if Len(list) == 0 {
        assert Elems(list) == [];
        assert (forall x :: x in qs ==> NoEmptyAnd(x)) ==>
            Lists([], base, |v.names|, SatAll(v.postings, qs)) by {
          if forall x :: x in qs ==> NoEmptyAnd(x) {
            SatAllMore(v, qs, k + 1, base);
          }
        }
        return Nil;
      }
    }
    assert qs[..|qs|] == qs;
  }

  lemma SatAllStep(v: View, qs: seq<Query>, k: nat, base: Option<seq<uint32>>, r: Option<seq<uint32>>, s: seq<uint32>)
    requires k < |qs| && Increasing(s)
    requires if k == 0 then r == base
             else r.Some? && Lists(r.value, base, |v.names|, SatAll(v.postings, qs[..k]))
    requires forall id: nat :: id in s <==> Selected(qs[k], r, v, id)
    ensures Lists(s, base, |v.names|, SatAll(v.postings, qs[..k + 1]))
  {
    assert qs[..k + 1] == qs[..k] + [qs[k]];
  }

  lemma SatAllMore(v: View, qs: seq<Query>, k: nat, base: Option<seq<uint32>>)
    requires k <= |qs| && Lists([], base, |v.names|, SatAll(v.postings, qs[..k]))
    ensures Lists([], base, |v.names|, SatAll(v.postings, qs))
  {
    forall id: nat | InScope(base, |v.names|, id)
      ensures !SatAll(v.postings, qs)(id)
    {
      assert !SatAll(v.postings, qs[..k])(id);
    }
  }

  /** The subqueries of an Or node, merged into what the trigrams gave. */
  method OrSubs(ix: Index, qs: seq<Query>, list0: IdList, restrict: IdList, ghost v: View, ghost p: nat -> bool)
    returns (list: IdList)
    requires Represents(ix, v) && forall x :: x in qs ==> ThreeByte(x)
    requires Fits(restrict) && Increasing(Elems(restrict)) && Fits(list0)
    requires Lists(Elems(list0), Restriction(restrict), |v.names|, p)
    ensures Fits(list) && (list.Ids? ==> fresh(list.arr) || list == list0)
    ensures Increasing(Elems(list))
    ensures (forall x :: x in qs ==> NoEmptyAnd(x)) ==>
              Lists(Elems(list), Restriction(restrict), |v.names|, Either(p, SatSome(v.postings, qs)))
    decreases qs, 0
  {
    hide Represents, Lists, SatSome, Selected, Either, IsUnion, Increasing;
    list := list0;
    ghost var r := Restriction(restrict);
    assert Increasing(Elems(list0)) && Lists(Elems(list0), r, |v.names|, Either(p, SatSome(v.postings, qs[..0]))) by {
      ListsIncreasing(Elems(list0), r, |v.names|, p);
      NoneSat(v, Elems(list0), r, p);
      assert qs[..0] == [];
    }
    for k := 0 to |qs|
      invariant Fits(list) && (list.Ids? ==> fresh(list.arr) || list == list0)
      invariant Increasing(Elems(list))
      invariant (forall x :: x in qs ==> NoEmptyAnd(x)) ==>
                  Lists(Elems(list), r, |v.names|, Either(p, SatSome(v.postings, qs[..k])))
    {
      assert qs[k] in qs;
      list := OrSub(ix, qs, k, list, restrict, v, p);
    }
    assert qs[..|qs|] == qs;
  }

  /** The body of that loop. */
  method OrSub(ix: Index, qs: seq<Query>, k: nat, list0: IdList, restrict: IdList, ghost v: View, ghost p: nat -> bool)
    returns (list: IdList)
    requires Represents(ix, v) && k < |qs| && ThreeByte(qs[k])
    requires Fits(restrict) && Increasing(Elems(restrict)) && Fits(list0) && Increasing(Elems(list0))
    ensures list.Ids? && Fits(list) && fresh(list.arr) && Increasing(Elems(list))
    ensures NoEmptyAnd(qs[k])
            && Lists(Elems(list0), Restriction(restrict), |v.names|, Either(p, SatSome(v.postings, qs[..k]))) ==>
              Lists(Elems(list), Restriction(restrict), |v.names|, Either(p, SatSome(v.postings, qs[..k + 1])))
    decreases qs[k], 2
  {
    hide Represents, Lists, SatSome, Selected, Either, Increasing, IsUnion, ThreeByte, NoEmptyAnd;
    ghost var r, before := Restriction(restrict), Elems(list0);
    var list1 := PostingQuery(ix, qs[k], restrict, v);
    ghost var more := Elems(list1);
    list := MergeOr(list0, list1);
    assert Increasing(Elems(list)) by {
      UnionIncreasing(Elems(list), before, more);
    }
    if NoEmptyAnd(qs[k]) && Lists(before, r, |v.names|, Either(p, SatSome(v.postings, qs[..k]))) {
      SatSomeStep(v, qs, k, r, p, before, more, Elems(list));
    }
  }

  lemma UnionIncreasing(s: seq<uint32>, a: seq<uint32>, b: seq<uint32>)
    requires IsUnion(s, a, b)
    ensures Increasing(s)
  {
  }

  lemma NoneSat(v: View, s: seq<uint32>, r: Option<seq<uint32>>, p: nat -> bool)
    requires Lists(s, r, |v.names|, p)
    ensures Lists(s, r, |v.names|, Either(p, SatSome(v.postings, [])))
  {
  }

  lemma SatSomeStep(v: View, qs: seq<Query>, k: nat, r: Option<seq<uint32>>, p: nat -> bool,
                    before: seq<uint32>, more: seq<uint32>, s: seq<uint32>)
    requires k < |qs| && IsUnion(s, before, more)
    requires Lists(before, r, |v.names|, Either(p, SatSome(v.postings, qs[..k])))
    requires forall id: nat :: id in more <==> Selected(qs[k], r, v, id)
    ensures Lists(s, r, |v.names|, Either(p, SatSome(v.postings, qs[..k + 1])))
  {
    assert qs[..k + 1] == qs[..k] + [qs[k]];
  }
}
