/** The docid maps, the name list and the path list of a merge (index/merge.go, first half of Merge). */
module MergeMaps {
  import opened Bytes
  import opened Utf8
  import opened IndexFormat
  import opened IndexReader

  /** The half-open interval [lo, hi) maps to [new_, new_ + hi - lo). */
  datatype IdRange = IdRange(lo: nat, hi: nat, new_: nat)

  /** A file of the merged index: file `id` of the newer or of the older input. */
  datatype Origin = Origin(newer: bool, id: nat)

  // ---------------------------------------------------------------- paths and their limits

  /** The end of the names below a path: the last byte plus one, as a one-rune string. */
  function Limit(path: Str): Str
    requires path != []
  {
    var last: nat := path[|path| - 1];
    path[..|path| - 1] + EncodeRune((last + 1) % 256)
  }

  ghost predicate GoodPath(path: Str) {
    path != [] && path[|path| - 1] < 0x7f
  }

  ghost predicate GoodPaths(paths: seq<Str>) {
    forall i :: 0 <= i < |paths| ==> GoodPath(paths[i])
  }

  lemma {:induction false} LessPrefix(p: Str, s: Str, t: Str)
    ensures Less(p + s, p + t) <==> Less(s, t)
  {
    if p == [] {
      assert p + s == s && p + t == t;
    } else {
      assert (p + s)[1..] == p[1..] + s && (p + t)[1..] == p[1..] + t;
      LessPrefix(p[1..], s, t);
    }
  }

  lemma {:induction false} Divergence(s: Str, q: Str)
    requires !(q <= s) && LessEq(q, s)
    ensures forall t, u :: Less(q + t, s + u)
  {
    if q != [] && s != [] && q[0] == s[0] {
      Divergence(s[1..], q[1..]);
      forall t, u
        ensures Less(q + t, s + u)
      {
        assert (q + t)[1..] == q[1..] + t && (s + u)[1..] == s[1..] + u;
      }
    }
  }

  lemma LessEqTransitive(s: Str, t: Str, u: Str)
    requires LessEq(s, t) && LessEq(t, u)
    ensures LessEq(s, u)
    ensures Less(s, t) || Less(t, u) ==> Less(s, u)
  {
    if Less(s, t) && Less(t, u) {
      LessTransitive(s, t, u);
    }
  }

  /** In front of a shared `q`, the bytes from `b` up to its successor are those that start with `b`. */
  lemma ByteSpan(q: Str, b: byte, rest: Str)
    requires b < 0xff
    ensures LessEq(q + [b], q + rest) && Less(q + rest, q + [b + 1]) <==> rest != [] && rest[0] == b
  {
    LessPrefix(q, [b], rest);
    LessPrefix(q, rest, [b + 1]);
    assert q + [b] == q + rest ==> [b] == (q + rest)[|q|..] == rest;
  }

  lemma SpanKeepsFront(q: Str, b: byte, name: Str)
    requires b < 0xff && LessEq(q + [b], name) && Less(name, q + [b + 1])
    ensures q <= name
  {
    if !(q <= name) {
      PrefixIsLessEq(q, q + [b]);
      LessEqTransitive(q, q + [b], name);
      Divergence(name, q);
      assert name + [] == name;
      assert Less(q + [b + 1], name + []);
      LessAsymmetric(name, q + [b + 1]);
    }
  }

  /** [path, limit) holds exactly the names that start with the path. */
  lemma RangeIsPrefix(path: Str, name: Str)
    requires GoodPath(path)
    ensures LessEq(path, name) && Less(name, Limit(path)) <==> path <= name
  {
    var q, b := path[..|path| - 1], path[|path| - 1];
    assert path == q + [b] && Limit(path) == q + [b + 1];
    hide Limit, Less, LessEq;
    if q <= name {
      var rest := name[|q|..];
      assert name == q + rest;
      ByteSpan(q, b, rest);
    } else if LessEq(path, name) && Less(name, Limit(path)) {
      SpanKeepsFront(q, b, name);
    }
  }

  ghost predicate SortedPaths(paths: seq<Str>) {
    forall i, j :: 0 <= i < j < |paths| ==> LessEq(paths[i], paths[j])
  }

  ghost predicate Under(paths: seq<Str>, name: Str) {
    exists p :: p in paths && p <= name
  }

  /** The name lies between the path and its limit: what Merge takes as belonging to the path. */
  predicate Spans(path: Str, name: Str) {
    path != [] && LessEq(path, name) && Less(name, Limit(path))
  }

  ghost predicate Within(paths: seq<Str>, name: Str) {
    exists p :: p in paths && Spans(p, name)
  }

  ghost predicate NonEmpty(paths: seq<Str>) {
    forall i :: 0 <= i < |paths| ==> paths[i] != []
  }

  /** With last bytes below 0x7f, that is to start with one of the paths. */
  lemma WithinIsUnder(paths: seq<Str>, name: Str)
    requires GoodPaths(paths)
    ensures Within(paths, name) <==> Under(paths, name)
  {
    hide Limit, Less;
    forall i | 0 <= i < |paths|
      ensures Spans(paths[i], name) <==> paths[i] <= name
    {
      assert GoodPath(paths[i]);
      RangeIsPrefix(paths[i], name);
    }
    if Under(paths, name) {
      var p :| p in paths && p <= name;
      var i :| 0 <= i < |paths| && paths[i] == p;
      assert Spans(p, name);
    }
  }

  /** With a last byte of 0x7f or more the limit is not the path's successor, and some name gives it away: the next
      byte's as long as it is below 0xC3, the limit's first byte, */
  lemma LimitTooHigh(q: Str, b: byte) returns (name: Str)
    requires 0x7f <= b < 0xC3
    ensures Spans(q + [b], name) && !(q + [b] <= name)
  {
    name := q + [b + 1];
    LimitIs(q, b);
    LimitChar(b);
    hide EncodeRune, Limit, Less;
    LessPrefix(q, [b], [b + 1]);
    LessPrefix(q, [b + 1], EncodeRune(b as int + 1));
    assert (q + [b])[|q|] == b && name[|q|] == b + 1;
  }

  lemma LimitChar(b: byte)
    requires 0x7f <= b < 0xC3
    ensures Less([b], [b + 1]) && Less([b + 1], EncodeRune(b as int + 1))
  {
    var c := EncodeRune(b as int + 1);
    assert c[0] >= 0xC2 && c[1..] != [];
  }

  /** then a name that starts with the path and is past the limit, */
  lemma LimitTooLow(q: Str) returns (name: Str)
    ensures !Spans(q + [0xC3], name) && q + [0xC3] <= name
  {
    name := q + [0xC3, 0xFF];
    var rest: Str, c: Str := [0xC3, 0xFF], [0xC3, 0x84];
    LimitIs(q, 0xC3);
    assert EncodeRune(0xC4) == c;
    assert Less(c[1..], rest[1..]) && c[0] == rest[0];
    LessPrefix(q, c, rest);
    LessAsymmetric(q + c, q + rest);
  }

  /** and at last the path itself. */
  lemma LimitBelowPath(q: Str, b: byte) returns (name: Str)
    requires 0xC3 < b
    ensures !Spans(q + [b], name) && q + [b] <= name
  {
    name := q + [b];
    var c := EncodeRune((b as int + 1) % 256);
    assert c[0] <= 0xC3;
    LimitIs(q, b);
    LessPrefix(q, c, [b]);
    LessAsymmetric(q + c, q + [b]);
  }

  lemma LimitIs(q: Str, b: byte)
    ensures Limit(q + [b]) == q + EncodeRune((b as int + 1) % 256)
  {
    hide EncodeRune;
    assert (q + [b])[..|q|] == q;
  }

  lemma LimitWrong(path: Str) returns (name: Str)
    requires path != [] && path[|path| - 1] >= 0x7f
    ensures Spans(path, name) != (path <= name)
  {
    hide Spans;
    var q, b := path[..|path| - 1], path[|path| - 1];
    assert path == q + [b];
    if b < 0xC3 {
      name := LimitTooHigh(q, b);
    } else if b == 0xC3 {
      name := LimitTooLow(q);
    } else {
      name := LimitBelowPath(q, b);
    }
  }

  /** A path spans the names below it exactly when its last byte is below 0x7f. */
  lemma LimitRightIff(path: Str)
    requires path != []
    ensures (forall name :: Spans(path, name) <==> path <= name) <==> GoodPath(path)
  {
    hide Limit, Less;
    if GoodPath(path) {
      forall name
        ensures Spans(path, name) <==> path <= name
      {
        RangeIsPrefix(path, name);
      }
    } else {
      var _ := LimitWrong(path);
    }
  }

  // ---------------------------------------------------------------- the merged order

  function OriginName(o: Origin, names1: seq<Str>, names2: seq<Str>): Str {
    var names := if o.newer then names2 else names1;
    if o.id < |names| then names[o.id] else []
  }

  ghost predicate StrictNames(names: seq<Str>) {
    forall i, j :: 0 <= i < j < |names| ==> Less(names[i], names[j])
  }

  /** The order names files in strict name order. */
  ghost predicate StrictOrder(order: seq<Origin>, names1: seq<Str>, names2: seq<Str>) {
    forall a, b :: 0 <= a < b < |order| ==>
      Less(OriginName(order[a], names1, names2), OriginName(order[b], names1, names2))
  }

  /** Every file in the order comes before the names from `i` on. */
  ghost predicate Before(order: seq<Origin>, names1: seq<Str>, names2: seq<Str>, names: seq<Str>, i: nat) {
    forall o, h :: o in order && i <= h < |names| ==> Less(OriginName(o, names1, names2), names[h])
  }

  /** Which files the order has: of the older index those below `i1` that lie within none of the paths, of
      the newer index those below `i2`. */
  ghost predicate Chosen(order: seq<Origin>, paths: seq<Str>, names1: seq<Str>, i1: nat, i2: nat) {
    (forall h: nat :: Origin(true, h) in order <==> h < i2)
    && (forall h: nat :: Origin(false, h) in order <==> h < i1 && h < |names1| && !Within(paths, names1[h]))
  }

  function RangeOf(newer: bool, lo: nat, hi: nat): (r: seq<Origin>)
    requires lo <= hi
    ensures |r| == hi - lo && forall j :: 0 <= j < hi - lo ==> r[j] == Origin(newer, lo + j)
    ensures forall o :: o in r <==> o.newer == newer && lo <= o.id < hi
    decreases hi - lo
  {
    if lo == hi then [] else [Origin(newer, lo)] + RangeOf(newer, lo + 1, hi)
  }

  predicate Holds(r: IdRange, n: nat) {
    r.new_ <= n < r.new_ + (r.hi - r.lo)
  }

  /** The range gives its files their places in the order. */
  ghost predicate Places(r: IdRange, order: seq<Origin>, newer: bool) {
    r.lo < r.hi && r.new_ + (r.hi - r.lo) <= |order|
    && forall n: nat :: Holds(r, n) ==> order[n] == Origin(newer, r.lo + n - r.new_)
  }

  /** The map covers the files of its side, in ranges that follow each other on both ends. */
  ghost predicate MapFor(m: seq<IdRange>, order: seq<Origin>, newer: bool) {
    && (forall r :: r in m ==> Places(r, order, newer))
    && (forall a, b :: 0 <= a < b < |m| ==> m[a].hi <= m[b].lo && m[a].new_ + (m[a].hi - m[a].lo) <= m[b].new_)
    && (forall n: nat :: n < |order| && order[n].newer == newer ==> exists r :: r in m && Holds(r, n))
  }

  lemma AppendOrder(order: seq<Origin>, newer: bool, lo: nat, hi: nat, names1: seq<Str>, names2: seq<Str>)
    requires StrictNames(names1) && StrictNames(names2) && StrictOrder(order, names1, names2)
    requires lo <= hi <= |if newer then names2 else names1|
    requires Before(order, names1, names2, if newer then names2 else names1, lo)
    ensures StrictOrder(order + RangeOf(newer, lo, hi), names1, names2)
    ensures Before(order + RangeOf(newer, lo, hi), names1, names2, if newer then names2 else names1, hi)
  {
    var names := if newer then names2 else names1;
    var r := RangeOf(newer, lo, hi);
    var all := order + r;
    forall a, b | 0 <= a < b < |all|
      ensures Less(OriginName(all[a], names1, names2), OriginName(all[b], names1, names2))
    {
      if b >= |order| {
        assert OriginName(all[b], names1, names2) == names[lo + (b - |order|)];
        if a < |order| {
          assert all[a] in order;
        } else {
          assert OriginName(all[a], names1, names2) == names[lo + (a - |order|)];
        }
      }
    }
    forall o, h | o in all && hi <= h < |names|
      ensures Less(OriginName(o, names1, names2), names[h])
    {
      if o !in order {
        assert o in r && OriginName(o, names1, names2) == names[o.id];
      }
    }
  }

  /** The other side: the range must come before what is left there. */
  lemma AppendBefore(order: seq<Origin>, newer: bool, lo: nat, hi: nat, names1: seq<Str>, names2: seq<Str>, i: nat)
    requires lo <= hi <= |if newer then names2 else names1|
    requires Before(order, names1, names2, if newer then names1 else names2, i)
    requires var names, others := if newer then names2 else names1, if newer then names1 else names2;
             forall h, g :: lo <= h < hi && i <= g < |others| ==> Less(names[h], others[g])
    ensures Before(order + RangeOf(newer, lo, hi), names1, names2, if newer then names1 else names2, i)
  {
    var names, others := if newer then names2 else names1, if newer then names1 else names2;
    var all := order + RangeOf(newer, lo, hi);
    forall o, g | o in all && i <= g < |others|
      ensures Less(OriginName(o, names1, names2), others[g])
    {
      if o !in order {
        assert OriginName(o, names1, names2) == names[o.id];
      }
    }
  }

  lemma AppendMap(m: seq<IdRange>, order: seq<Origin>, newer: bool, lo: nat, hi: nat)
    requires MapFor(m, order, newer) && lo < hi && forall r :: r in m ==> r.hi <= lo
    ensures MapFor(m + [IdRange(lo, hi, |order|)], order + RangeOf(newer, lo, hi), newer)
    ensures forall r :: r in m + [IdRange(lo, hi, |order|)] ==> r.hi <= hi
  {
    var r := IdRange(lo, hi, |order|);
    var m', all := m + [r], order + RangeOf(newer, lo, hi);
    forall x | x in m'
      ensures Places(x, all, newer)
    {
      if x in m {
        assert Places(x, order, newer);
      }
    }
    forall n: nat | n < |all| && all[n].newer == newer
      ensures exists x :: x in m' && Holds(x, n)
    {
      if n < |order| {
        var x :| x in m && Holds(x, n);
        assert x in m';
      } else {
        assert r in m' && Holds(r, n);
      }
    }
    forall a, b | 0 <= a < b < |m'|
      ensures m'[a].hi <= m'[b].lo && m'[a].new_ + (m'[a].hi - m'[a].lo) <= m'[b].new_
    {
      if b == |m| {
        assert m[a] in m && Places(m[a], order, newer);
      }
    }
  }

  lemma AppendOtherMap(m: seq<IdRange>, order: seq<Origin>, newer: bool, lo: nat, hi: nat)
    requires MapFor(m, order, !newer) && lo <= hi
    ensures MapFor(m, order + RangeOf(newer, lo, hi), !newer)
  {
    var all := order + RangeOf(newer, lo, hi);
    forall x | x in m
      ensures Places(x, all, !newer)
    {
      assert Places(x, order, !newer);
    }
    forall n: nat | n < |all| && all[n].newer == !newer
      ensures exists x :: x in m && Holds(x, n)
    {
      assert n < |order|;
    }
  }

  /** Everything about the maps and the order after some paths. */
  datatype Progress = Progress(order: seq<Origin>, map1: seq<IdRange>, map2: seq<IdRange>)

  ghost predicate Merged(p: Progress, names1: seq<Str>, names2: seq<Str>, i1: nat, i2: nat) {
    && i1 <= |names1| && i2 <= |names2| && |p.order| <= i1 + i2
    && StrictOrder(p.order, names1, names2)
    && Before(p.order, names1, names2, names1, i1) && Before(p.order, names1, names2, names2, i2)
    && MapFor(p.map1, p.order, false) && MapFor(p.map2, p.order, true)
    && (forall r :: r in p.map1 ==> r.hi <= i1) && (forall r :: r in p.map2 ==> r.hi <= i2)
  }

  /** What appending a range, and recording it unless it is empty, makes of the progress. */
  function Extend(p: Progress, newer: bool, lo: nat, hi: nat): Progress
    requires lo <= hi
  {
    if lo == hi then p
    else
      var r := IdRange(lo, hi, |p.order|);
      Progress(p.order + RangeOf(newer, lo, hi), if newer then p.map1 else p.map1 + [r],
               if newer then p.map2 + [r] else p.map2)
  }

  lemma ExtendMerged(p: Progress, newer: bool, lo: nat, hi: nat, names1: seq<Str>, names2: seq<Str>, i1: nat, i2: nat)
    requires StrictNames(names1) && StrictNames(names2) && Merged(p, names1, names2, i1, i2)
    requires lo == (if newer then i2 else i1) && lo <= hi <= |if newer then names2 else names1|
    requires var names, others := if newer then names2 else names1, if newer then names1 else names2;
             forall h, g :: lo <= h < hi && (if newer then i1 else i2) <= g < |others| ==> Less(names[h], others[g])
    ensures Merged(Extend(p, newer, lo, hi), names1, names2, if newer then i1 else hi, if newer then hi else i2)
  {
    if lo < hi {
      AppendOrder(p.order, newer, lo, hi, names1, names2);
      AppendBefore(p.order, newer, lo, hi, names1, names2, if newer then i1 else i2);
      AppendMap(if newer then p.map2 else p.map1, p.order, newer, lo, hi);
      AppendOtherMap(if newer then p.map1 else p.map2, p.order, newer, lo, hi);
    }
  }

  // ---------------------------------------------------------------- the docid maps

  /** No name from `i` on lies below the limit of one of the first `k` paths. */
  ghost predicate Past(paths: seq<Str>, k: nat, names: seq<Str>, i: nat)
    requires k <= |paths| && NonEmpty(paths)
  {
    forall j, h :: 0 <= j < k && i <= h < |names| ==> !Less(names[h], Limit(paths[j]))
  }

  lemma NotLess(s: Str, t: Str)
    requires !Less(s, t)
    ensures LessEq(t, s)
  {
    LessTotal(s, t);
  }

  /** A name that is past the first `k` paths and before the next one lies within none of them. */
  lemma NotWithin(paths: seq<Str>, k: nat, names: seq<Str>, i: nat, h: nat)
    requires SortedPaths(paths) && NonEmpty(paths) && k <= |paths|
    requires Past(paths, k, names, i) && i <= h < |names| && (k < |paths| ==> Less(names[h], paths[k]))
    ensures !Within(paths, names[h])
  {
    hide Limit, Less;
    forall p | p in paths
      ensures !Spans(p, names[h])
    {
      var j :| 0 <= j < |paths| && paths[j] == p;
      if Spans(p, names[h]) && j >= k {
        assert LessEq(paths[k], p);
        LessEqTransitive(names[h], paths[k], p);
        LessEqTransitive(p, names[h], p);
        LessIrreflexive(p);
      }
    }
  }

  /** The first index from `i0` on whose name is not below `bound`. */
  method AdvanceBelow(ix: Index, i0: nat, bound: Str, ghost v: View) returns (i: nat)
    requires Represents(ix, v) && i0 <= |v.names|
    ensures i0 <= i <= |v.names|
    ensures forall h :: i0 <= h < i ==> Less(v.names[h], bound)
    ensures StrictNames(v.names) ==> forall h :: i <= h < |v.names| ==> !Less(v.names[h], bound)
  {
    assert ix.numName == |v.names|;
    hide Represents;
    i := i0;
    while i < ix.numName
      invariant i0 <= i <= |v.names| && forall h :: i0 <= h < i ==> Less(v.names[h], bound)
    {
      var name := Name(ix, i, v);
      if !Less(name, bound) {
        StayAbove(v.names, i, bound);
        return;
      }
      i := i + 1;
    }
  }

  lemma StayAbove(names: seq<Str>, i: nat, bound: Str)
    requires i < |names| && !Less(names[i], bound)
    ensures StrictNames(names) ==> forall h :: i <= h < |names| ==> !Less(names[h], bound)
  {
    if StrictNames(names) {
      forall h | i <= h < |names|
        ensures !Less(names[h], bound)
      {
        if Less(names[h], bound) && h > i {
          LessTransitive(names[i], names[h], bound);
        }
      }
    }
  }

  /** The cursors passed over a path: what was before it stays, what lies within it is replaced. */
  lemma ChosenStep(p: Progress, paths: seq<Str>, k: nat, names1: seq<Str>, i1: nat, lo: nat, hi: nat, i2: nat, hi2: nat)
    requires SortedPaths(paths) && NonEmpty(paths) && k < |paths|
    requires Past(paths, k, names1, i1) && Chosen(p.order, paths, names1, i1, i2)
    requires i1 <= lo <= hi <= |names1| && i2 <= hi2
    requires forall h :: i1 <= h < lo ==> Less(names1[h], paths[k])
    requires forall h :: lo <= h < hi ==> !Less(names1[h], paths[k]) && Less(names1[h], Limit(paths[k]))
    ensures Chosen(Extend(Extend(p, false, i1, lo), true, i2, hi2).order, paths, names1, hi, hi2)
  {
    forall h | i1 <= h < lo
      ensures !Within(paths, names1[h])
    {
      NotWithin(paths, k, names1, i1, h);
    }
    forall h | lo <= h < hi
      ensures Within(paths, names1[h])
    {
      NotLess(names1[h], paths[k]);
      assert Spans(paths[k], names1[h]) && paths[k] in paths;
    }
  }

  lemma PastStep(paths: seq<Str>, k: nat, names: seq<Str>, i: nat, i': nat)
    requires NonEmpty(paths) && k < |paths| && Past(paths, k, names, i) && i <= i'
    requires forall h :: i' <= h < |names| ==> !Less(names[h], Limit(paths[k]))
    ensures Past(paths, k + 1, names, i')
  {
  }

  /** Every name of the newer index lies within one of its paths. */
  ghost predicate Covered(paths: seq<Str>, names: seq<Str>) {
    forall n :: n in names ==> Within(paths, n)
  }

  /** A covered name that is past the first `k` paths is not before the next one, and there is a next one. */
  lemma CoveredNext(paths: seq<Str>, k: nat, names: seq<Str>, i: nat)
    requires SortedPaths(paths) && NonEmpty(paths) && k <= |paths|
    requires Past(paths, k, names, i) && i < |names| && Covered(paths, names)
    ensures k < |paths| && !Less(names[i], paths[k])
  {
    assert names[i] in names;
    if k == |paths| || Less(names[i], paths[k]) {
      NotWithin(paths, k, names, i, i);
    }
  }

  /** What Merge demands of its inputs. */
  ghost predicate Mergeable(v1: View, v2: View) {
    && StrictNames(v1.names) && StrictNames(v2.names)
    && SortedPaths(v2.paths)
    && |v1.names| + |v2.names| < NoId
  }

  /** How far the two cursors and the maps have come after the first `k` paths. */
  ghost predicate Sound(p: Progress, paths: seq<Str>, k: nat, names1: seq<Str>, names2: seq<Str>, i1: nat, i2: nat) {
    k <= |paths| && NonEmpty(paths) && i1 <= |names1| && i2 <= |names2|
    && Merged(p, names1, names2, i1, i2) && Chosen(p.order, paths, names1, i1, i2)
    && Past(paths, k, names1, i1) && Past(paths, k, names2, i2) && AllWithin(paths, names2, i2)
  }

  /** The first `i` names lie within some path. */
  ghost predicate AllWithin(paths: seq<Str>, names: seq<Str>, i: nat)
    requires i <= |names|
  {
    forall h :: 0 <= h < i ==> Within(paths, names[h])
  }

  /** The names that a path's turn takes lie within the path. */
  lemma WithinStep(paths: seq<Str>, k: nat, names: seq<Str>, i: nat, hi: nat)
    requires NonEmpty(paths) && k < |paths| && i <= hi <= |names| && AllWithin(paths, names, i)
    requires forall h :: i <= h < hi ==> !Less(names[h], paths[k]) && Less(names[h], Limit(paths[k]))
    ensures AllWithin(paths, names, hi)
  {
    forall h | i <= h < hi
      ensures Within(paths, names[h])
    {
      NotLess(names[h], paths[k]);
      assert Spans(paths[k], names[h]) && paths[k] in paths;
    }
  }

  /** The first part of Merge: the docid maps. The panic of the source is `ok == false`. */
  method DocMaps(ix1: Index, ix2: Index, paths: seq<Str>, ghost v1: View, ghost v2: View)
    returns (ok: bool, map1: seq<IdRange>, map2: seq<IdRange>, numName: nat, ghost order: seq<Origin>)
    requires Represents(ix1, v1) && Represents(ix2, v2) && paths == v2.paths && Mergeable(v1, v2)
    ensures ok <==> Covered(paths, v2.names)
    ensures ok ==> Merged(Progress(order, map1, map2), v1.names, v2.names, |v1.names|, |v2.names|)
                   && Chosen(order, paths, v1.names, |v1.names|, |v2.names|) && numName == |order|
  {
    hide Represents, Sound, Merged, Chosen, StrictNames, SortedPaths, Covered, NonEmpty, Extend;
    var i1: nat, i2: nat, new_: nat := 0, 0, 0;
    map1, map2, order := [], [], [];
    PathsNonEmpty(ix2, v2);
    NothingMerged(paths, v1.names, v2.names);
    for k := 0 to |paths|
      invariant Sound(Progress(order, map1, map2), paths, k, v1.names, v2.names, i1, i2) && new_ == |order|
      invariant i1 <= |v1.names| && i2 <= |v2.names|
    {
      ok, map1, map2, new_, i1, i2, order := PathMaps(ix1, ix2, paths, k, map1, map2, new_, i1, i2, v1, v2, order);
      if !ok {
        return false, [], [], 0, [];
      }
    }
    ghost var p := Progress(order, map1, map2);
    assert ix1.numName == |v1.names| && ix2.numName == |v2.names| by {
      NameCounts(ix1, v1);
      NameCounts(ix2, v2);
    }
    if i2 < ix2.numName {
      NotCovered(p, paths, |paths|, v1.names, v2.names, i1, i2);
      return false, [], [], 0, [];
    }
    ExtendIs(p, false, i1, |v1.names|);
    if i1 < ix1.numName {
      map1 := map1 + [IdRange(i1, ix1.numName, new_)];
      new_ := new_ + (ix1.numName - i1);
    }
    order := Extend(p, false, i1, |v1.names|).order;
    RestMerged(p, paths, v1.names, v2.names, i1);
    assert Covered(paths, v2.names) by {
      AllCovered(p, paths, v1.names, v2.names, i1);
    }
    return true, map1, map2, new_, order;
  }

  /** The body of the loop over the paths. */
  method PathMaps(ix1: Index, ix2: Index, paths: seq<Str>, k: nat, map1_: seq<IdRange>, map2_: seq<IdRange>, new0: nat,
                  i1_: nat, i2_: nat, ghost v1: View, ghost v2: View, ghost order_: seq<Origin>)
    returns (ok: bool, map1: seq<IdRange>, map2: seq<IdRange>, new_: nat, i1: nat, i2: nat, ghost order: seq<Origin>)
    requires Represents(ix1, v1) && Represents(ix2, v2) && paths == v2.paths && Mergeable(v1, v2) && k < |paths|
    requires i1_ <= |v1.names| && i2_ <= |v2.names| && new0 == |order_|
    requires Sound(Progress(order_, map1_, map2_), paths, k, v1.names, v2.names, i1_, i2_)
    ensures Covered(paths, v2.names) ==> ok
    ensures i1 <= |v1.names| && i2 <= |v2.names|
    ensures ok ==> new_ == |order| && Sound(Progress(order, map1, map2), paths, k + 1, v1.names, v2.names, i1, i2)
  {
    hide Represents, Sound, Merged, Chosen, StrictNames, SortedPaths, Covered, NonEmpty, Extend, Limit, Less;
    map1, map2, new_, i1, i2, order := map1_, map2_, new0, i1_, i2_, order_;
    ghost var p := Progress(order, map1, map2);
    var path := paths[k];
    PathsNonEmpty(ix2, v2);
    assert path != [] by {
      PathNotEmpty(paths, k);
    }
    var lo := AdvanceBelow(ix1, i1, path, v1);
    var hi := AdvanceBelow(ix1, lo, Limit(path), v1);
    ExtendIs(p, false, i1, lo);
    if i1 < lo {
      map1 := map1 + [IdRange(i1, lo, new_)];
      new_ := new_ + (lo - i1);
    }
    ok := AboveOrEnd(ix2, i2, path, v2);
    if !ok {
      NotCovered(p, paths, k, v1.names, v2.names, i1, i2);
      return;
    }
    var hi2 := AdvanceBelow(ix2, i2, Limit(path), v2);
    ghost var q := Extend(p, false, i1, lo);
    ExtendIs(q, true, i2, hi2);
    if i2 < hi2 {
      map2 := map2 + [IdRange(i2, hi2, new_)];
      new_ := new_ + (hi2 - i2);
    }
    order := Extend(q, true, i2, hi2).order;
    PathMerged(p, paths, k, v1.names, v2.names, i1, lo, hi, i2, hi2);
    i1, i2 := hi, hi2;
  }

  lemma NameCounts(ix: Index, v: View)
    requires Represents(ix, v)
    ensures ix.numName == |v.names|
  {
  }

  lemma PathsNonEmpty(ix: Index, v: View)
    requires Represents(ix, v)
    ensures NonEmpty(v.paths)
  {
    assert forall i :: 0 <= i < |v.paths| ==> v.paths[i] in v.paths;
  }

  lemma PathNotEmpty(paths: seq<Str>, k: nat)
    requires NonEmpty(paths) && k < |paths|
    ensures paths[k] != []
  {
  }

  lemma ExtendIs(p: Progress, newer: bool, lo: nat, hi: nat)
    requires lo <= hi
    ensures var q := Extend(p, newer, lo, hi);
            var r := IdRange(lo, hi, |p.order|);
            |q.order| == |p.order| + (hi - lo)
            && q.map1 == (if !newer && lo < hi then p.map1 + [r] else p.map1)
            && q.map2 == (if newer && lo < hi then p.map2 + [r] else p.map2)
  {
  }

  /** A name that comes before the next path, or is left at the end, belongs to no path. */
  lemma NotCovered(p: Progress, paths: seq<Str>, k: nat, names1: seq<Str>, names2: seq<Str>, i1: nat, i2: nat)
    requires SortedPaths(paths) && Sound(p, paths, k, names1, names2, i1, i2) && i2 < |names2|
    requires k < |paths| ==> Less(names2[i2], paths[k])
    ensures !Covered(paths, names2)
  {
    if Covered(paths, names2) {
      CoveredNext(paths, k, names2, i2);
    }
  }

  /** Whether the next name of the newer index, if there is one, is at or above the path. */
  method AboveOrEnd(ix: Index, i: nat, path: Str, ghost v: View) returns (above: bool)
    requires Represents(ix, v) && i <= |v.names|
    ensures !above ==> i < |v.names| && Less(v.names[i], path)
    ensures above && StrictNames(v.names) ==> forall h :: i <= h < |v.names| ==> !Less(v.names[h], path)
  {
    above := true;
    if i < ix.numName {
      var name := Name(ix, i, v);
      above := !Less(name, path);
      if above {
        StayAbove(v.names, i, path);
      }
    }
  }

  lemma NothingMerged(paths: seq<Str>, names1: seq<Str>, names2: seq<Str>)
    requires NonEmpty(paths)
    ensures Sound(Progress([], [], []), paths, 0, names1, names2, 0, 0)
  {
  }

  /** One path's turn. */
  lemma PathMerged(p: Progress, paths: seq<Str>, k: nat, names1: seq<Str>, names2: seq<Str>, i1: nat, lo: nat, hi: nat,
                   i2: nat, hi2: nat)
    requires SortedPaths(paths) && k < |paths| && paths[k] != []
    requires StrictNames(names1) && StrictNames(names2) && Sound(p, paths, k, names1, names2, i1, i2)
    requires i1 <= lo <= hi <= |names1| && i2 <= hi2 <= |names2|
    requires forall h :: i1 <= h < lo ==> Less(names1[h], paths[k])
    requires forall h :: lo <= h < |names1| ==> !Less(names1[h], paths[k])
    requires forall h :: lo <= h < hi ==> Less(names1[h], Limit(paths[k]))
    requires forall h :: hi <= h < |names1| ==> !Less(names1[h], Limit(paths[k]))
    requires forall h :: i2 <= h < |names2| ==> !Less(names2[h], paths[k])
    requires forall h :: i2 <= h < hi2 ==> Less(names2[h], Limit(paths[k]))
    requires forall h :: hi2 <= h < |names2| ==> !Less(names2[h], Limit(paths[k]))
    ensures Sound(Extend(Extend(p, false, i1, lo), true, i2, hi2), paths, k + 1, names1, names2, hi, hi2)
  {
    hide Chosen, Past, SortedPaths, Extend;
    forall h, g | i1 <= h < lo && i2 <= g < |names2|
      ensures Less(names1[h], names2[g])
    {
      NotLess(names2[g], paths[k]);
      LessEqTransitive(names1[h], paths[k], names2[g]);
    }
    ExtendMerged(p, false, i1, lo, names1, names2, i1, i2);
    var q := Extend(p, false, i1, lo);
    SkipMerged(q, names1, names2, lo, hi, i2);
    forall h, g | i2 <= h < hi2 && hi <= g < |names1|
      ensures Less(names2[h], names1[g])
    {
      NotLess(names1[g], Limit(paths[k]));
      LessEqTransitive(names2[h], Limit(paths[k]), names1[g]);
    }
    ExtendMerged(q, true, i2, hi2, names1, names2, hi, i2);
    ChosenStep(p, paths, k, names1, i1, lo, hi, i2, hi2);
    PastStep(paths, k, names1, i1, hi);
    PastStep(paths, k, names2, i2, hi2);
    WithinStep(paths, k, names2, i2, hi2);
  }

  lemma AllCovered(p: Progress, paths: seq<Str>, names1: seq<Str>, names2: seq<Str>, i1: nat)
    requires Sound(p, paths, |paths|, names1, names2, i1, |names2|)
    ensures Covered(paths, names2)
  {
  }

  lemma SkipMerged(p: Progress, names1: seq<Str>, names2: seq<Str>, i1: nat, i1': nat, i2: nat)
    requires Merged(p, names1, names2, i1, i2) && i1 <= i1' <= |names1|
    ensures Merged(p, names1, names2, i1', i2)
  {
  }

  /** The names of the older index behind the last path. */
  lemma RestMerged(p: Progress, paths: seq<Str>, names1: seq<Str>, names2: seq<Str>, i1: nat)
    requires SortedPaths(paths) && StrictNames(names1) && StrictNames(names2)
    requires Sound(p, paths, |paths|, names1, names2, i1, |names2|) && i1 <= |names1|
    ensures var p' := Extend(p, false, i1, |names1|);
            Merged(p', names1, names2, |names1|, |names2|) && Chosen(p'.order, paths, names1, |names1|, |names2|)
  {
    ExtendMerged(p, false, i1, |names1|, names1, names2, i1, |names2|);
    forall h | i1 <= h < |names1|
      ensures !Within(paths, names1[h])
    {
      NotWithin(paths, |paths|, names1, i1, h);
    }
  }

  // ---------------------------------------------------------------- the merged names

  /** The names of the merged index. */
  function MergedNames(order: seq<Origin>, names1: seq<Str>, names2: seq<Str>): (names: seq<Str>)
    ensures |names| == |order| && forall n :: 0 <= n < |order| ==> names[n] == OriginName(order[n], names1, names2)
  {
    seq(|order|, n requires 0 <= n < |order| => OriginName(order[n], names1, names2))
  }

  /** The ranges before `mi` end by `n`, the others start there or later. */
  ghost predicate RangesAt(m: seq<IdRange>, mi: nat, n: nat) {
    mi <= |m| && (forall a :: 0 <= a < mi ==> m[a].new_ + (m[a].hi - m[a].lo) <= n)
    && (forall a :: mi <= a < |m| ==> n <= m[a].new_)
  }

  /** The next file's range is the next one of its side. */
  lemma RangeFound(m: seq<IdRange>, order: seq<Origin>, newer: bool, mi: nat, n: nat)
    requires MapFor(m, order, newer) && RangesAt(m, mi, n) && n < |order|
    ensures order[n].newer == newer <==> mi < |m| && m[mi].new_ == n
  {
    if order[n].newer == newer {
      var r :| r in m && Holds(r, n);
      var a :| 0 <= a < |m| && m[a] == r;
      assert Places(r, order, newer);
      assert m[mi] in m && Places(m[mi], order, newer);
    } else if mi < |m| && m[mi].new_ == n {
      assert m[mi] in m && Places(m[mi], order, newer) && Holds(m[mi], n);
    }
  }

  lemma RangePassed(m: seq<IdRange>, other: seq<IdRange>, order: seq<Origin>, newer: bool, mi: nat, mo: nat)
    requires MapFor(m, order, newer) && mi < |m| && MapFor(other, order, !newer)
    requires RangesAt(m, mi, m[mi].new_) && RangesAt(other, mo, m[mi].new_)
    ensures var n' := m[mi].new_ + (m[mi].hi - m[mi].lo);
            m[mi].lo < m[mi].hi && n' <= |order| && RangesAt(m, mi + 1, n') && RangesAt(other, mo, n')
    ensures forall n: nat :: m[mi].new_ <= n < m[mi].new_ + (m[mi].hi - m[mi].lo) ==>
              order[n] == Origin(newer, m[mi].lo + n - m[mi].new_)
  {
    var r := m[mi];
    var n' := r.new_ + (r.hi - r.lo);
    assert r in m && Places(r, order, newer);
    forall n: nat | r.new_ <= n < n'
      ensures order[n] == Origin(newer, r.lo + n - r.new_)
    {
      assert Holds(r, n);
    }
    forall a | mo <= a < |other|
      ensures n' <= other[a].new_
    {
      var x := other[a];
      assert x in other && Places(x, order, !newer) && Holds(x, x.new_);
      assert order[x.new_].newer == !newer;
    }
  }

  /** One range's names, appended to the name list and its index. */
  method RangeNames(ix: Index, r: IdRange, data0: Str, index0: Str, ghost v: View, ghost names0: seq<Str>)
    returns (data: Str, index: Str, ghost names: seq<Str>)
    requires Represents(ix, v) && r.lo <= r.hi <= |v.names|
    requires data0 == Terminated(names0) && index0 == NameOffsets(names0)
    ensures data == Terminated(names) && index == NameOffsets(names)
    ensures names == names0 + v.names[r.lo..r.hi]
  {
    hide Represents, Terminated, NameOffsets;
    data, index, names := data0, index0, names0;
    for i := r.lo to r.hi
      invariant data == Terminated(names) && index == NameOffsets(names) && names == names0 + v.names[r.lo..i]
    {
      var name := Name(ix, i, v);
      NamesAppend(names, name);
      index := index + U32(|data|);
      data := data + (name + [0]);
      assert v.names[r.lo..i + 1] == v.names[r.lo..i] + [name];
      names := names + [name];
    }
  }

  /** The names of one range are those that the order puts there. */
  lemma RangeNamesAre(r: IdRange, order: seq<Origin>, newer: bool, names1: seq<Str>, names2: seq<Str>)
    requires r.lo < r.hi && r.new_ + (r.hi - r.lo) <= |order|
    requires r.hi <= |if newer then names2 else names1|
    requires forall n: nat :: r.new_ <= n < r.new_ + (r.hi - r.lo) ==> order[n] == Origin(newer, r.lo + n - r.new_)
    ensures var all := MergedNames(order, names1, names2);
            all[..r.new_] + (if newer then names2 else names1)[r.lo..r.hi] == all[..r.new_ + (r.hi - r.lo)]
  {
  }

  /** The second part of Merge: the name list and its index. Neither panic of this loop can happen. */
  method NameList(ix1: Index, ix2: Index, map1: seq<IdRange>, map2: seq<IdRange>, numName: nat,
                  ghost v1: View, ghost v2: View, ghost order: seq<Origin>) returns (nameData: Str, nameIndex: Str)
    requires Represents(ix1, v1) && Represents(ix2, v2) && numName == |order|
    requires Merged(Progress(order, map1, map2), v1.names, v2.names, |v1.names|, |v2.names|)
    ensures var names := MergedNames(order, v1.names, v2.names);
            nameData == Terminated(names) && nameIndex == NameOffsets(names)
  {
    hide Represents, MapFor, StrictOrder, Before, Terminated, NameOffsets, RangesAt;
    ghost var all := MergedNames(order, v1.names, v2.names);
    var new_, mi1, mi2 := 0, 0, 0;
    nameData, nameIndex := [], [];
    assert nameData == Terminated(all[..0]) && nameIndex == NameOffsets(all[..0])
      && RangesAt(map1, 0, 0) && RangesAt(map2, 0, 0) by {
      NoNames(map1, map2);
    }
    while new_ < numName
      invariant 0 <= new_ <= numName && 0 <= mi1 && 0 <= mi2
      invariant nameData == Terminated(all[..new_]) && nameIndex == NameOffsets(all[..new_])
      invariant RangesAt(map1, mi1, new_) && RangesAt(map2, mi2, new_) && mi1 <= |map1| && mi2 <= |map2|
    {
      RangeFound(map1, order, false, mi1, new_);
      RangeFound(map2, order, true, mi2, new_);
      if mi1 < |map1| && map1[mi1].new_ == new_ {
        var r := map1[mi1];
        assert r in map1;
        RangePassed(map1, map2, order, false, mi1, mi2);
        ghost var names;
        nameData, nameIndex, names := RangeNames(ix1, r, nameData, nameIndex, v1, all[..new_]);
        RangeNamesAre(r, order, false, v1.names, v2.names);
        new_ := new_ + (r.hi - r.lo);
        mi1 := mi1 + 1;
      } else if mi2 < |map2| && map2[mi2].new_ == new_ {
        var r := map2[mi2];
        assert r in map2;
        RangePassed(map2, map1, order, true, mi2, mi1);
        ghost var names;
        nameData, nameIndex, names := RangeNames(ix2, r, nameData, nameIndex, v2, all[..new_]);
        RangeNamesAre(r, order, true, v1.names, v2.names);
        new_ := new_ + (r.hi - r.lo);
        mi2 := mi2 + 1;
      } else {
        assert false;
      }
    }
    assert all[..new_] == all;
  }

  lemma NoNames(map1: seq<IdRange>, map2: seq<IdRange>)
    ensures Terminated([]) == [] && NameOffsets([]) == []
    ensures RangesAt(map1, 0, 0) && RangesAt(map2, 0, 0)
  {
  }

  // ---------------------------------------------------------------- the merged paths

  /** No other string of `paths` is a prefix of `p`. */
  ghost predicate Shortest(p: Str, paths: seq<Str>) {
    p in paths && forall q :: q in paths && q <= p ==> q == p
  }

  /** `merged` lists, in order, the paths that have none of the others as a prefix. */
  ghost predicate MergedPaths(merged: seq<Str>, paths: seq<Str>) {
    StrictNames(merged) && (forall p :: p in merged <==> Shortest(p, paths)) && forall p :: p in paths ==> Under(merged, p)
  }

  lemma ShortestAppend(x: Str, paths: seq<Str>, p: Str)
    ensures Shortest(x, paths + [p]) <==>
            (x in paths || x == p) && (p <= x ==> p == x) && forall q :: q in paths && q <= x ==> q == x
  {
    assert p in paths + [p];
    assert forall q :: q in paths + [p] <==> q in paths || q == p;
  }

  /** The next path, not before any of those before it, starts with the last one kept. */
  lemma PathSkipped(merged: seq<Str>, paths: seq<Str>, p: Str)
    requires MergedPaths(merged, paths) && merged != [] && merged[|merged| - 1] <= p
    ensures MergedPaths(merged, paths + [p])
  {
    var last := merged[|merged| - 1];
    assert last in merged && Shortest(last, paths) && last in paths;
    forall x
      ensures x in merged <==> Shortest(x, paths + [p])
    {
      ShortestAppend(x, paths, p);
      if x in merged {
        assert Shortest(x, paths);
        if p <= x {
          assert last <= x;
        }
      }
    }
    forall x | x in paths + [p]
      ensures Under(merged, x)
    {
      assert x in paths || x == p;
    }
  }

  lemma PathKept(merged: seq<Str>, paths: seq<Str>, p: Str)
    requires MergedPaths(merged, paths) && forall q :: q in paths ==> LessEq(q, p)
    requires merged != [] ==> !(merged[|merged| - 1] <= p)
    ensures MergedPaths(merged + [p], paths + [p])
  {
    forall q | q in paths
      ensures !(q <= p) && !(p <= q)
    {
      if q <= p {
        NothingBelow(merged, paths, p, q);
      } else if p <= q {
        PrefixIsLessEq(p, q);
        LessEqTransitive(p, q, p);
        LessIrreflexive(p);
      }
    }
    forall i | 0 <= i < |merged|
      ensures Less(merged[i], p)
    {
      assert merged[i] in merged && Shortest(merged[i], paths);
    }
    forall x
      ensures x in merged + [p] <==> Shortest(x, paths + [p])
    {
      ShortestAppend(x, paths, p);
      assert x in merged + [p] <==> x in merged || x == p;
      if x in merged {
        assert Shortest(x, paths);
      }
    }
    forall x | x in paths + [p]
      ensures Under(merged + [p], x)
    {
      if x in paths {
        var o :| o in merged && o <= x;
        assert o in merged + [p];
      } else {
        assert p in merged + [p];
      }
    }
  }

  lemma NothingBelow(merged: seq<Str>, paths: seq<Str>, p: Str, q: Str)
    requires MergedPaths(merged, paths) && (forall r :: r in paths ==> LessEq(r, p)) && q in paths && q <= p
    ensures merged != [] && merged[|merged| - 1] <= p
  {
    var o :| o in merged && o <= q;
    var k :| 0 <= k < |merged| && merged[k] == o;
    var last := merged[|merged| - 1];
    assert last in merged && Shortest(last, paths) && Shortest(o, paths);
    PrefixInterval(o, last, p);
  }

  /** `merged` has some of the paths, and each of them starts with one that it has. */
  ghost predicate Represented(merged: seq<Str>, paths: seq<Str>) {
    (forall p :: p in merged ==> p in paths) && forall p :: p in paths ==> Under(merged, p)
  }

  lemma StillRepresented(merged: seq<Str>, paths: seq<Str>, p: Str)
    requires Represented(merged, paths)
    ensures (exists q :: q in merged && q <= p) ==> Represented(merged, paths + [p])
    ensures Represented(merged + [p], paths + [p])
  {
    forall x | x in paths + [p]
      ensures Under(merged + [p], x) && (Under(merged, x) || x == p)
    {
      if x in paths {
        var o :| o in merged && o <= x;
        assert o in merged + [p];
      } else {
        assert p in merged + [p];
      }
    }
  }

  /** The third part of Merge: the path list, dropping each path below the last one kept. */
  method PathList(paths1: seq<Str>, paths2: seq<Str>) returns (merged: seq<Str>, pathData: Str)
    requires forall p :: p in paths1 + paths2 ==> 0 !in p
    ensures pathData == Terminated(merged) && Represented(merged, paths1 + paths2)
    ensures SortedPaths(paths1) && SortedPaths(paths2) ==> MergedPaths(merged, paths1 + paths2)
  {
    hide MergedPaths, Terminated, SortedPaths, Represented;
    var mi1, mi2 := 0, 0;
    var last: Str := [0];
    merged, pathData := [], [];
    ghost var seen: seq<Str> := [];
    ghost var sorted := SortedPaths(paths1) && SortedPaths(paths2);
    NoPaths();
    while mi1 < |paths1| || mi2 < |paths2|
      invariant 0 <= mi1 <= |paths1| && 0 <= mi2 <= |paths2|
      invariant forall p :: p in seen <==> p in paths1[..mi1] || p in paths2[..mi2]
      invariant pathData == Terminated(merged) && Represented(merged, seen)
      invariant last == if merged == [] then [0] else merged[|merged| - 1]
      invariant sorted ==> MergedPaths(merged, seen) && Ahead(paths1, mi1, paths2, mi2, seen)
      decreases |paths1| - mi1 + |paths2| - mi2
    {
      var p;
      ghost var was := seen;
      if mi2 >= |paths2| || (mi1 < |paths1| && LessEq(paths1[mi1], paths2[mi2])) {
        p := paths1[mi1];
        if sorted {
          PathTaken(paths1, mi1, paths2, mi2, seen);
        }
        assert paths1[..mi1 + 1] == paths1[..mi1] + [p];
        mi1 := mi1 + 1;
      } else {
        p := paths2[mi2];
        if mi1 < |paths1| {
          NotLessEq(paths1[mi1], paths2[mi2]);
        }
        if sorted {
          PathTaken(paths2, mi2, paths1, mi1, seen);
        }
        assert paths2[..mi2 + 1] == paths2[..mi2] + [p];
        mi2 := mi2 + 1;
      }
      assert p in paths1 + paths2;
      assert merged == [] ==> !HasPrefix(p, last) by {
        if [0] <= p {
          assert p[0] in p;
        }
      }
      seen := seen + [p];
      StillRepresented(merged, was, p);
      if HasPrefix(p, last) {
        assert last in merged;
        if sorted {
          PathSkipped(merged, was, p);
        }
        continue;
      }
      if sorted {
        PathKept(merged, was, p);
      }
      last := p;
      NamesAppend(merged, p);
      pathData := pathData + (p + [0]);
      merged := merged + [p];
    }
    assert paths1[..mi1] == paths1 && paths2[..mi2] == paths2;
    SamePaths(merged, seen, paths1 + paths2);
  }

  /** What is left of two sorted lists comes after the paths seen. */
  ghost predicate Ahead(paths1: seq<Str>, mi1: nat, paths2: seq<Str>, mi2: nat, seen: seq<Str>) {
    forall p :: p in seen ==> (mi1 < |paths1| ==> LessEq(p, paths1[mi1])) && (mi2 < |paths2| ==> LessEq(p, paths2[mi2]))
  }

  lemma NoPaths()
    ensures MergedPaths([], []) && Terminated([]) == [] && Represented([], [])
  {
  }

  lemma NotLessEq(s: Str, t: Str)
    requires !LessEq(s, t)
    ensures LessEq(t, s)
  {
    LessTotal(s, t);
  }

  lemma PathTaken(paths: seq<Str>, mi: nat, others: seq<Str>, mo: nat, seen: seq<Str>)
    requires SortedPaths(paths) && mi < |paths| && mo <= |others| && Ahead(paths, mi, others, mo, seen)
    requires mo < |others| ==> LessEq(paths[mi], others[mo])
    ensures forall p :: p in seen ==> LessEq(p, paths[mi])
    ensures Ahead(paths, mi + 1, others, mo, seen + [paths[mi]]) && Ahead(others, mo, paths, mi + 1, seen + [paths[mi]])
  {
    forall p | p in seen + [paths[mi]] && mi + 1 < |paths|
      ensures LessEq(p, paths[mi + 1])
    {
      if p in seen {
        LessEqTransitive(p, paths[mi], paths[mi + 1]);
      }
    }
  }

  lemma SamePaths(merged: seq<Str>, seen: seq<Str>, paths: seq<Str>)
    requires forall p :: p in seen <==> p in paths
    ensures MergedPaths(merged, seen) ==> MergedPaths(merged, paths)
    ensures Represented(merged, seen) ==> Represented(merged, paths)
  {
    forall p
      ensures Shortest(p, seen) <==> Shortest(p, paths)
    {
    }
  }
}
