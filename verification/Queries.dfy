/** Trigram queries and their Boolean simplifier (index/regexp.go, the Query type). */
module Queries {
  import opened Bytes
  import opened StringSets

  datatype QueryOp = QAll | QNone | QAnd | QOr

  datatype Query = Query(op: QueryOp, trigram: StrSet, sub: seq<Query>)

  const AllQuery := Query(QAll, [], [])
  const NoneQuery := Query(QNone, [], [])

  /** What a query means: whether a text whose trigrams are `s` passes it. */
  ghost predicate Sat(q: Query, s: iset<Str>) {
    match q.op
    case QAll => true
    case QNone => false
    case QAnd => (forall t :: t in q.trigram ==> t in s) && (forall x :: x in q.sub ==> Sat(x, s))
    case QOr => (exists t :: t in q.trigram && t in s) || (exists x :: x in q.sub && Sat(x, s))
  }

  /** The Boolean connective that `op` stands for. */
  predicate Connect(op: QueryOp, a: bool, b: bool) {
    if op == QAnd then a && b else a || b
  }

  /** QAnd + QOr - op. */
  function Other(op: QueryOp): QueryOp {
    if op == QAnd then QOr else QAnd
  }

  predicate IsAtom(q: Query) {
    |q.trigram| == 1 && |q.sub| == 0
  }

  /** A node with nothing but one child stands for that child. */
  function Unwrap(q: Query): Query {
    if |q.trigram| == 0 && |q.sub| == 1 then q.sub[0] else q
  }

  // ---------------------------------------------------------------- implies

  /** trigramsImply: whether the conjunction of `t` implies `q`; a false answer may be wrong. */
  predicate TrigramsImply(t: StrSet, q: Query) {
    match q.op
    case QOr =>
      (exists x :: x in q.sub && TrigramsImply(t, x))
      || (exists a :: a in t && IsSubsetOf([a], q.trigram))
    case QAnd =>
      (forall x :: x in q.sub ==> TrigramsImply(t, x)) && IsSubsetOf(q.trigram, t)
    case _ => false
  }

  /** implies: a false answer may be wrong. */
  predicate Implies(q: Query, r: Query) {
    if q.op == QNone || r.op == QAll then true
    else if q.op == QAll || r.op == QNone then false
    else if q.op == QAnd || (q.op == QOr && IsAtom(q)) then TrigramsImply(q.trigram, r)
    else
      q.op == QOr && r.op == QOr && |q.trigram| > 0 && |q.sub| == 0 && IsSubsetOf(q.trigram, r.trigram)
  }

  lemma {:induction false} TrigramsImplySound(t: StrSet, q: Query, s: iset<Str>)
    requires TrigramsImply(t, q) && forall x :: x in t ==> x in s
    ensures Sat(q, s)
  {
    match q.op
    case QOr =>
      if x :| x in q.sub && TrigramsImply(t, x) {
        TrigramsImplySound(t, x, s);
      } else {
        var a :| a in t && IsSubsetOf([a], q.trigram);
        IsSubsetOfSound([a], q.trigram);
        assert a in [a];
      }
    case QAnd =>
      IsSubsetOfSound(q.trigram, t);
      forall x | x in q.sub
        ensures Sat(x, s)
      {
        TrigramsImplySound(t, x, s);
      }
    case _ =>
  }

  /** `implies` never answers true wrongly. */
  lemma ImpliesSound(q: Query, r: Query, s: iset<Str>)
    requires Implies(q, r) && Sat(q, s)
    ensures Sat(r, s)
  {
    if q.op == QNone || r.op == QAll {
    } else if q.op == QAnd || IsAtom(q) {
      TrigramsImplySound(q.trigram, r, s);
    } else {
      IsSubsetOfSound(q.trigram, r.trigram);
    }
  }

  // ---------------------------------------------------------------- factoring

  datatype Factored = Factored(q: StrSet, r: StrSet, common: StrSet)

  /** Splits off common trigrams with one cursor in each list; what is not matched stays. */
  function Factor(q: StrSet, r: StrSet): Factored
    decreases |q| + |r|
  {
    if q == [] || r == [] then Factored(q, r, [])
    else if Less(q[0], r[0]) then
      var f := Factor(q[1..], r);
      f.(q := [q[0]] + f.q)
    else if Less(r[0], q[0]) then
      var f := Factor(q, r[1..]);
      f.(r := [r[0]] + f.r)
    else
      var f := Factor(q[1..], r[1..]);
      f.(common := [q[0]] + f.common)
  }

  lemma {:induction false} FactorElements(q: StrSet, r: StrSet)
    ensures var f := Factor(q, r);
            && (forall t :: t in q <==> t in f.q || t in f.common)
            && (forall t :: t in r <==> t in f.r || t in f.common)
            && |q| == |f.q| + |f.common| && |r| == |f.r| + |f.common|
            && (f.common == [] ==> f.q == q && f.r == r)
    decreases |q| + |r|
  {
    if q != [] && r != [] {
      LessTotal(q[0], r[0]);
      assert q == [q[0]] + q[1..] && r == [r[0]] + r[1..];
      if Less(q[0], r[0]) {
        FactorElements(q[1..], r);
      } else if Less(r[0], q[0]) {
        FactorElements(q, r[1..]);
      } else {
        FactorElements(q[1..], r[1..]);
      }
    }
  }

  /** At cursors `i` and `j`, what is kept and common so far plus factoring the rest is the whole. */
  ghost predicate FactoredSoFar(q: StrSet, r: StrSet, i: nat, j: nat, kept: Factored)
  {
    i <= |q| && j <= |r|
    && var f := Factor(q[i..], r[j..]);
       Factor(q, r) == Factored(kept.q + f.q, kept.r + f.r, kept.common + f.common)
  }

  lemma FactorStart(q: StrSet, r: StrSet)
    ensures FactoredSoFar(q, r, 0, 0, Factored([], [], []))
  {
    assert q[0..] == q && r[0..] == r;
  }

  lemma FactorEnd(q: StrSet, r: StrSet, i: nat, j: nat, kept: Factored)
    requires FactoredSoFar(q, r, i, j, kept) && (i == |q| || j == |r|)
    ensures i <= |q| && j <= |r| && Factor(q, r) == Factored(kept.q + q[i..], kept.r + r[j..], kept.common)
  {
  }

  /** One turn of the factoring loop. */
  lemma FactorStep(q: StrSet, r: StrSet, i: nat, j: nat, kept: Factored)
    requires i < |q| && j < |r| && FactoredSoFar(q, r, i, j, kept)
    ensures if Less(q[i], r[j]) then FactoredSoFar(q, r, i + 1, j, kept.(q := kept.q + [q[i]]))
            else if Less(r[j], q[i]) then FactoredSoFar(q, r, i, j + 1, kept.(r := kept.r + [r[j]]))
            else FactoredSoFar(q, r, i + 1, j + 1, kept.(common := kept.common + [q[i]]))
  {
    assert q[i..][1..] == q[i + 1..] && r[j..][1..] == r[j + 1..];
    assert q[i..][0] == q[i] && r[j..][0] == r[j];
    var f := Factor(q[i..], r[j..]);
    if Less(q[i], r[j]) {
      var g := Factor(q[i + 1..], r[j..]);
      assert f == g.(q := [q[i]] + g.q);
      assert kept.q + f.q == (kept.q + [q[i]]) + g.q;
    } else if Less(r[j], q[i]) {
      var g := Factor(q[i..], r[j + 1..]);
      assert f == g.(r := [r[j]] + g.r);
      assert kept.r + f.r == (kept.r + [r[j]]) + g.r;
    } else {
      var g := Factor(q[i + 1..], r[j + 1..]);
      assert f == g.(common := [q[i]] + g.common);
      assert kept.common + f.common == (kept.common + [q[i]]) + g.common;
    }
  }

  /** `a[w] = a[i]`, for a write cursor behind the read cursor. */
  method WriteDown(a: array<Str>, w: nat, i: nat)
    requires w <= i < a.Length
    modifies a
    ensures a[..w + 1] == old(a[..w]) + [old(a[i])]
    ensures a[i + 1..] == old(a[i + 1..])
  {
    a[w] := a[i];
  }

  /** Copies what is left from `i` on down to `w`. */
  method CopyDown(a: array<Str>, w: nat, i: nat) returns (w': nat)
    requires w <= i <= a.Length
    modifies a
    ensures w' <= a.Length && a[..w'] == old(a[..w]) + old(a[i..])
  {
    var k := i;
    w' := w;
    ghost var was := a[..];
    while k < a.Length
      invariant w' <= k <= a.Length && i <= k && w' - w == k - i
      invariant a[k..] == was[k..]
      invariant a[..w'] == was[..w] + was[i..k]
    {
      assert a[k] == a[k..][0] == was[k] && a[k + 1..] == was[k + 1..];
      assert was[i..k + 1] == was[i..k] + [was[k]];
      a[w'] := a[k];
      w', k := w' + 1, k + 1;
    }
  }

  /** The factoring loops of andOr: they compact both lists in place while reading them. */
  method FactorInPlace(q: array<Str>, r: array<Str>) returns (wi: nat, wj: nat, common: StrSet)
    requires q != r
    modifies q, r
    ensures wi <= q.Length && wj <= r.Length
    ensures Factored(q[..wi], r[..wj], common) == Factor(old(q[..]), old(r[..]))
  {
    hide Factor, FactoredSoFar, Less;
    common := [];
    var i, j := 0, 0;
    wi, wj := 0, 0;
    ghost var wasQ, wasR := q[..], r[..];
    ghost var kept := Factored([], [], []);
    FactorStart(wasQ, wasR);
    while i < q.Length && j < r.Length
      invariant wi <= i <= q.Length && wj <= j <= r.Length
      invariant q[i..] == wasQ[i..] && r[j..] == wasR[j..]
      invariant q[..wi] == kept.q && r[..wj] == kept.r && common == kept.common
      invariant FactoredSoFar(wasQ, wasR, i, j, kept)
    {
      var qt, rt := q[i], r[j];
      assert qt == wasQ[i] && rt == wasR[j] by {
        assert q[i..][0] == qt && r[j..][0] == rt;
      }
      FactorStep(wasQ, wasR, i, j, kept);
      if Less(qt, rt) {
        WriteDown(q, wi, i);
        kept := kept.(q := kept.q + [qt]);
        wi, i := wi + 1, i + 1;
      } else if Less(rt, qt) {
        WriteDown(r, wj, j);
        kept := kept.(r := kept.r + [rt]);
        wj, j := wj + 1, j + 1;
      } else {
        LessTotal(qt, rt);
        common := common + [qt];
        kept := kept.(common := common);
        i, j := i + 1, j + 1;
      }
    }
    FactorEnd(wasQ, wasR, i, j, kept);
    wi := CopyDown(q, wi, i);
    wj := CopyDown(r, wj, j);
  }

  // ---------------------------------------------------------------- andOr

  function TriCount(q: Query): nat {
    |q.trigram| + TriCountAll(q.sub)
  }

  function TriCountAll(qs: seq<Query>): nat {
    if qs == [] then 0 else TriCount(qs[0]) + TriCountAll(qs[1..])
  }

  function Measure(q: Query, r: Query, op: QueryOp): nat {
    if q.op == op && q.trigram != [] then 0 else 1 + TriCount(q) + TriCount(r)
  }

  lemma UnwrapShrinks(q: Query)
    ensures TriCount(Unwrap(q)) <= TriCount(q)
  {
    if |q.sub| == 1 {
      assert TriCountAll(q.sub) == TriCount(q.sub[0]) + TriCountAll([]);
    }
  }

  /** andOr: `q op r`, with every simplification of the source, branch by branch. */
  function AndOr(q0: Query, r0: Query, op: QueryOp): Query
    requires op == QAnd || op == QOr
    decreases Measure(q0, r0, op)
  {
    var q, r := Unwrap(q0), Unwrap(r0);
    if Implies(q, r) then
      if op == QAnd then q else r
    else if Implies(r, q) then
      if op == QAnd then r else q
    else if q.op == op && (r.op == op || IsAtom(r)) then
      q.(trigram := Union(q.trigram, r.trigram, false), sub := q.sub + r.sub)
    else if r.op == op && IsAtom(q) then
      r.(trigram := Union(r.trigram, q.trigram, false))
    else if IsAtom(q) && IsAtom(r) then
      q.(op := op, trigram := q.trigram + r.trigram)
    else if q.op == op then
      q.(sub := q.sub + [r])
    else if r.op == op then
      r.(sub := r.sub + [q])
    else
      var f := Factor(q.trigram, r.trigram);
      FactorElements(q.trigram, r.trigram);
      if f.common != [] then
        UnwrapShrinks(q0);
        UnwrapShrinks(r0);
        var s := AndOr(q.(trigram := f.q), r.(trigram := f.r), op);
        AndOr(Query(Other(op), f.common, []), s, Other(op))
      else
        Query(op, [], [q, r])
  }

  // ---------------------------------------------------------------- andOr is exact

  /** Constants carry no operands, at any depth. */
  ghost predicate Bare(q: Query) {
    (q.op == QAll || q.op == QNone ==> q.trigram == [] && q.sub == [])
    && forall x :: x in q.sub ==> Bare(x)
  }

  lemma UnwrapSat(q: Query, s: iset<Str>)
    requires Bare(q)
    ensures Sat(Unwrap(q), s) == Sat(q, s) && Bare(Unwrap(q))
  {
    if |q.trigram| == 0 && |q.sub| == 1 {
      assert q.sub[0] in q.sub;
    }
  }

  /** Pooling the operands of two nodes with the same connective connects them. */
  lemma PoolSat(op: QueryOp, q: Query, r: Query, t: StrSet, s: iset<Str>)
    requires (op == QAnd || op == QOr) && q.op == op && r.op == op && Bare(q) && Bare(r)
    requires forall x :: x in t <==> x in q.trigram || x in r.trigram
    ensures var p := Query(op, t, q.sub + r.sub);
            Sat(p, s) == Connect(op, Sat(q, s), Sat(r, s)) && Bare(p)
  {
    assert forall x :: x in q.sub + r.sub <==> x in q.sub || x in r.sub;
  }

  /** A node with one child means what the child means, and so does an atom under either connective. */
  lemma SingleSat(op: QueryOp, q: Query, s: iset<Str>)
    requires op == QAnd || op == QOr
    ensures Sat(Query(op, [], [q]), s) == Sat(q, s)
    ensures IsAtom(q) && (q.op == QAnd || q.op == QOr) ==>
              Sat(Query(op, q.trigram, []), s) == Sat(q, s)
  {
    assert q in [q];
    if IsAtom(q) {
      assert q.trigram[0] in q.trigram;
    }
  }

  lemma PoolChildSat(op: QueryOp, q: Query, r: Query, s: iset<Str>)
    requires (op == QAnd || op == QOr) && q.op == op && Bare(q) && Bare(r)
    ensures var p := q.(sub := q.sub + [r]);
            Sat(p, s) == Connect(op, Sat(q, s), Sat(r, s)) && Bare(p)
  {
    SingleSat(op, r, s);
    PoolSat(op, q, Query(op, [], [r]), q.trigram, s);
  }

  lemma PoolAtomSat(op: QueryOp, q: Query, r: Query, t: StrSet, s: iset<Str>)
    requires (op == QAnd || op == QOr) && q.op == op && (r.op == QAnd || r.op == QOr) && IsAtom(r) && Bare(q)
    requires forall x :: x in t <==> x in q.trigram || x in r.trigram
    ensures var p := q.(trigram := t);
            Sat(p, s) == Connect(op, Sat(q, s), Sat(r, s)) && Bare(p)
  {
    SingleSat(op, r, s);
    PoolSat(op, q, Query(op, r.trigram, []), t, s);
    assert q.sub + [] == q.sub;
  }

  /** Taking `common` out of a node leaves `common` connected with the rest. */
  lemma FactoredSat(q: Query, rest: StrSet, common: StrSet, s: iset<Str>)
    requires (q.op == QAnd || q.op == QOr) && Bare(q)
    requires forall t :: t in q.trigram <==> t in rest || t in common
    ensures Sat(q, s) == Connect(q.op, Sat(Query(q.op, common, []), s), Sat(q.(trigram := rest), s))
    ensures Bare(q.(trigram := rest)) && Bare(Query(q.op, common, []))
  {
    PoolSat(q.op, Query(q.op, common, []), q.(trigram := rest), q.trigram, s);
    assert [] + q.sub == q.sub;
  }

  /** andOr computes exactly `q op r`, for sorted and unsorted trigram lists alike. */
  lemma {:induction false} AndOrSat(q0: Query, r0: Query, op: QueryOp, s: iset<Str>)
    requires (op == QAnd || op == QOr) && Bare(q0) && Bare(r0)
    ensures Sat(AndOr(q0, r0, op), s) == Connect(op, Sat(q0, s), Sat(r0, s))
    ensures Bare(AndOr(q0, r0, op))
    decreases Measure(q0, r0, op)
  {
    var q, r := Unwrap(q0), Unwrap(r0);
    UnwrapSat(q0, s);
    UnwrapSat(r0, s);
    if Implies(q, r) {
      if Sat(q, s) { ImpliesSound(q, r, s); }
    } else if Implies(r, q) {
      if Sat(r, s) { ImpliesSound(r, q, s); }
    } else if q.op == op && r.op == op {
      PoolSat(op, q, r, Union(q.trigram, r.trigram, false), s);
    } else if q.op == op && IsAtom(r) {
      PoolAtomSat(op, q, r, Union(q.trigram, r.trigram, false), s);
      assert q.sub + r.sub == q.sub;
    } else if r.op == op && IsAtom(q) {
      PoolAtomSat(op, r, q, Union(r.trigram, q.trigram, false), s);
    } else if IsAtom(q) && IsAtom(r) {
      SingleSat(op, q, s);
      PoolAtomSat(op, Query(op, q.trigram, []), r, q.trigram + r.trigram, s);
    } else if q.op == op {
      PoolChildSat(op, q, r, s);
    } else if r.op == op {
      PoolChildSat(op, r, q, s);
    } else {
      AndOrFactorSat(q0, r0, op, s);
    }
  }

  lemma {:induction false} AndOrFactorSat(q0: Query, r0: Query, op: QueryOp, s: iset<Str>)
    requires (op == QAnd || op == QOr) && Bare(q0) && Bare(r0)
    requires var q, r := Unwrap(q0), Unwrap(r0);
             !Implies(q, r) && !Implies(r, q) && q.op == r.op == Other(op) && !(IsAtom(q) && IsAtom(r))
    ensures Sat(AndOr(q0, r0, op), s) == Connect(op, Sat(q0, s), Sat(r0, s))
    ensures Bare(AndOr(q0, r0, op))
    decreases Measure(q0, r0, op), 0
  {
    var q, r := Unwrap(q0), Unwrap(r0);
    UnwrapSat(q0, s);
    UnwrapSat(r0, s);
    UnwrapShrinks(q0);
    UnwrapShrinks(r0);
    var f := Factor(q.trigram, r.trigram);
    FactorElements(q.trigram, r.trigram);
    if f.common != [] {
      var q', r' := q.(trigram := f.q), r.(trigram := f.r);
      FactoredSat(q, f.q, f.common, s);
      FactoredSat(r, f.r, f.common, s);
      AndOrSat(q', r', op, s);
      AndOrSat(Query(Other(op), f.common, []), AndOr(q', r', op), Other(op), s);
    } else {
      SingleSat(op, q, s);
      PoolChildSat(op, Query(op, [], [q]), r, s);
      assert [q] + [r] == [q, r];
    }
  }

  /** Evaluation indexes the three bytes of each trigram. */
  ghost predicate ThreeByte(q: Query) {
    (forall t :: t in q.trigram ==> |t| == 3) && forall x :: x in q.sub ==> ThreeByte(x)
  }

  // ---------------------------------------------------------------- andOr keeps queries well-formed

  predicate IsEmptyAnd(q: Query) {
    q.op == QAnd && q.trigram == [] && q.sub == []
  }

  /** No constant and no empty And anywhere, and every trigram has three bytes. */
  ghost predicate Inner(q: Query) {
    (q.op == QAnd || q.op == QOr) && !IsEmptyAnd(q)
    && (forall t :: t in q.trigram ==> |t| == 3)
    && (forall x :: x in q.sub ==> Inner(x))
  }

  /** The shape that query evaluation relies on: constants only at the root. */
  ghost predicate WellFormed(q: Query) {
    q == AllQuery || q == NoneQuery || Inner(q)
  }

  lemma {:induction false} InnerBare(q: Query)
    requires Inner(q)
    ensures Bare(q)
  {
    forall x | x in q.sub
      ensures Bare(x)
    {
      InnerBare(x);
    }
  }

  lemma WellFormedBare(q: Query)
    requires WellFormed(q)
    ensures Bare(q)
  {
    if Inner(q) {
      InnerBare(q);
    }
  }

  /** Implied by every conjunction of trigrams. */
  ghost predicate AlwaysImplied(q: Query) {
    forall t: StrSet :: TrigramsImply(t, q)
  }

  lemma {:induction false} TrigramsImplyMonotone(q: Query, t: StrSet)
    requires TrigramsImply([], q)
    ensures TrigramsImply(t, q)
  {
    match q.op
    case QOr =>
      var x :| x in q.sub && TrigramsImply([], x);
      TrigramsImplyMonotone(x, t);
    case QAnd =>
      assert q.trigram != [] ==> q.trigram[0] in q.trigram;
      IsSubsetOfSound(q.trigram, []);
      forall x | x in q.sub
        ensures TrigramsImply(t, x)
      {
        TrigramsImplyMonotone(x, t);
      }
    case _ =>
  }

  lemma AlwaysImpliedFromEmpty(q: Query)
    requires TrigramsImply([], q)
    ensures AlwaysImplied(q)
  {
    forall t
      ensures TrigramsImply(t, q)
    {
      TrigramsImplyMonotone(q, t);
    }
  }

  lemma UnwrapAlwaysImplied(q: Query)
    requires AlwaysImplied(q)
    ensures AlwaysImplied(Unwrap(q)) && (q.op == QAnd || q.op == QOr)
  {
    assert TrigramsImply([], q);
    if |q.trigram| == 0 && |q.sub| == 1 {
      forall t
        ensures TrigramsImply(t, q.sub[0])
      {
        assert TrigramsImply(t, q);
        assert q.sub[0] in q.sub;
      }
    }
  }

  /** A node from which factoring may have taken everything. */
  ghost predicate PreInner(q: Query) {
    Inner(q) || IsEmptyAnd(q)
  }

  lemma UnwrapInner(q: Query)
    ensures Inner(q) ==> Inner(Unwrap(q))
    ensures WellFormed(q) ==> WellFormed(Unwrap(q))
    ensures PreInner(q) ==> PreInner(Unwrap(q))
  {
    if |q.trigram| == 0 && |q.sub| == 1 {
      assert q.sub[0] in q.sub;
    }
  }

  /** Or with an emptied And: the result is something every conjunction implies. */
  lemma OrEmptyAnd(q0: Query, r0: Query)
    requires PreInner(q0) && PreInner(r0) && (IsEmptyAnd(q0) || IsEmptyAnd(r0))
    ensures AlwaysImplied(AndOr(q0, r0, QOr))
  {
    var q, r := Unwrap(q0), Unwrap(r0);
    UnwrapInner(q0);
    UnwrapInner(r0);
    var s := AndOr(q0, r0, QOr);
    var e, x := if IsEmptyAnd(q) then q else r, if IsEmptyAnd(q) then r else q;
    assert TrigramsImply([], e);
    if !Implies(q, r) && !Implies(r, q) {
      assert x.op == QOr && !IsAtom(x);
      assert s == x.(sub := x.sub + [e]) && e in s.sub;
    }
    AlwaysImpliedFromEmpty(s);
  }

  /** From well-formed operands andOr makes a well-formed query. */
  lemma {:induction false} AndOrWellFormed(q0: Query, r0: Query, op: QueryOp)
    requires (op == QAnd || op == QOr) && WellFormed(q0) && WellFormed(r0)
    ensures WellFormed(AndOr(q0, r0, op))
    ensures Inner(q0) && Inner(r0) ==> Inner(AndOr(q0, r0, op))
    decreases Measure(q0, r0, op)
  {
    var q, r := Unwrap(q0), Unwrap(r0);
    UnwrapInner(q0);
    UnwrapInner(r0);
    if Implies(q, r) || Implies(r, q) {
    } else {
      assert Inner(q) && Inner(r);
      if q.op == op || r.op == op || (IsAtom(q) && IsAtom(r)) {
        assert forall x :: x in q.sub + r.sub <==> x in q.sub || x in r.sub;
      } else {
        AndOrFactorWellFormed(q0, r0, op);
      }
    }
  }

  lemma {:induction false} AndOrFactorWellFormed(q0: Query, r0: Query, op: QueryOp)
    requires (op == QAnd || op == QOr) && WellFormed(q0) && WellFormed(r0)
    requires var q, r := Unwrap(q0), Unwrap(r0);
             !Implies(q, r) && !Implies(r, q) && q.op == r.op == Other(op) && !(IsAtom(q) && IsAtom(r))
             && Inner(q) && Inner(r)
    ensures Inner(AndOr(q0, r0, op))
    decreases Measure(q0, r0, op), 0
  {
    var q, r := Unwrap(q0), Unwrap(r0);
    UnwrapShrinks(q0);
    UnwrapShrinks(r0);
    var f := Factor(q.trigram, r.trigram);
    FactorElements(q.trigram, r.trigram);
    if f.common != [] {
      var q', r' := q.(trigram := f.q), r.(trigram := f.r);
      var t := Query(Other(op), f.common, []);
      var s := AndOr(q', r', op);
      if IsEmptyAnd(q') || IsEmptyAnd(r') {
        OrEmptyAnd(q', r');
        UnwrapAlwaysImplied(s);
        assert TrigramsImply(f.common, Unwrap(s));
        assert AndOr(q0, r0, op) == t;
      } else {
        AndOrWellFormed(q', r', op);
        AndOrWellFormed(t, s, Other(op));
      }
    }
  }

  // ---------------------------------------------------------------- what andOr does not promise

  /** Joining two atoms appends without sorting, so `implies` misses that the result implies itself,
      and the conjunction of the result with itself keeps empty Or nodes inside. */
  lemma AndOrKeepsEmptyOr(a: Str, b: Str)
    requires |a| == 3 && |b| == 3 && Less(a, b)
    ensures var p := AndOr(Query(QAnd, [b], []), Query(QAnd, [a], []), QOr);
            var e := Query(QOr, [], []);
            p == Query(QOr, [b, a], []) && !Implies(p, p)
            && AndOr(p, p, QAnd) == Query(QOr, [b, a], [Query(QAnd, [], [e, e])])
  {
    LessAsymmetric(a, b);
    LessIrreflexive(a);
    LessIrreflexive(b);
    var x, y := Query(QAnd, [b], []), Query(QAnd, [a], []);
    assert [b][1..] == [] && [a][1..] == [] && [b, a][1..] == [a];
    assert SkipLess([b, a], b) == [b, a] && SkipLess([b, a], a) == [b, a];
    assert SkipLess([a], b) == [] && SkipLess([b], a) == [b];
    assert !IsSubsetOf([b, a], [b, a]) && !IsSubsetOf([a], [b]) && !IsSubsetOf([b], [a]);
    assert !Implies(x, y) && !Implies(y, x);
    var p := Query(QOr, [b, a], []);
    var e := Query(QOr, [], []);
    assert Factor([a], [a]) == Factored([], [], [a]);
    assert Factor([b, a], [b, a]) == Factored([], [], [b, a]);
    assert !Implies(e, e);
    var s := Query(QAnd, [], [e, e]);
    assert Factor([], []) == Factored([], [], []);
    assert AndOr(e, e, QAnd) == s;
    assert e in s.sub;
    assert AndOr(p, s, QOr) == Query(QOr, [b, a], [s]);
  }
}
