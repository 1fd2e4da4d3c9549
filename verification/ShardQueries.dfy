/** Reading the second index (index2/read.go): finding a trigram, and evaluating queries over bitmaps. */
module ShardQueries {
  import opened Bytes
  import opened IndexFormat
  import opened StringSets
  import opened Queries
  import opened ShardIndex

  // ---------------------------------------------------------------- finding a trigram

  /** The number that FindTrigram puts together from three bytes. */
  lemma ThreeBytes(b: Str)
    requires |b| >= 3
    ensures TriNum(b) == b[0] as int * 0x1_0000 + b[1] as int * 0x100 + b[2] as int
  {
    var b0: int, b1: int, b2: int := b[0], b[1], b[2];
    assert b[..3] == [b[0], b[1], b[2]] && [b[0], b[1], b[2]][..2] == [b[0], b[1]];
    assert [b[0], b[1]][..1] == [b[0]] && [b[0]][..0] == [];
    assert ReadBigEndian([]) == 0;
    assert ReadBigEndian([b[0]]) == b0;
    assert ReadBigEndian([b[0], b[1]]) == b0 * 256 + b1;
    assert ReadBigEndian([b[0], b[1], b[2]]) == (b0 * 256 + b1) * 256 + b2;
  }

  /** FindTrigram: binary search in the packed table; an unknown trigram leaves the bitmap empty. The error of the
      source, a table longer than its lists, does not come up. */
  method FindTrigram(pl: PostingLists, trigram: nat, bitmap: Bitmap)
    requires ValidLists(pl) && bitmap.docs == {}
    modifies bitmap
    ensures forall d: nat :: d in bitmap.docs <==> Listed(pl, trigram, d)
  {
    var stride := 3;
    var lower, upper := 0, |pl.trigrams| / stride;
    while lower < upper
      invariant 0 <= lower <= upper <= |pl.lists|
      invariant forall k :: 0 <= k < lower ==> TableAt(pl, k) < trigram
      invariant forall k :: upper <= k < |pl.lists| ==> trigram < TableAt(pl, k)
    {
      var h := (lower + upper) / 2;
      var idx := h * stride;
      var v := pl.trigrams[idx] as int * 0x1_0000 + pl.trigrams[idx + 1] as int * 0x100 + pl.trigrams[idx + 2] as int;
      assert v == TableAt(pl, h) by {
        ThreeBytes(pl.trigrams[idx..]);
      }
      if v == trigram {
        bitmap.docs := pl.lists[h];
        forall d: nat
          ensures Listed(pl, trigram, d) <==> d in pl.lists[h]
        {
          ListedAt(pl, h, d);
        }
        return;
      } else if v < trigram {
        lower := h + 1;
      } else {
        upper := h;
      }
    }
  }

  // ---------------------------------------------------------------- the evaluator

  /** The trigrams that document `d` is listed under. */
  ghost function DocTrigrams(pl: PostingLists, d: nat): iset<Str>
    requires ValidLists(pl)
  {
    iset t: Str | |t| == 3 && Listed(pl, TriNum(t), d)
  }

  /** The documents a filter lets through; nil lets through all of them. */
  ghost predicate Passes(f: Option<set<nat>>, d: nat) {
    f.Some? ==> d in f.value
  }

  ghost function FilterOf(b: Bitmap?): Option<set<nat>>
    reads b
  {
    if b == null then None else Some(b.docs)
  }

  ghost predicate HasAll(ts: StrSet, s: iset<Str>) {
    forall t :: t in ts ==> t in s
  }

  ghost predicate HasSome(ts: StrSet, s: iset<Str>) {
    exists t :: t in ts && t in s
  }

  ghost predicate SatAll(qs: seq<Query>, s: iset<Str>) {
    forall x :: x in qs ==> Sat(x, s)
  }

  ghost predicate SatSome(qs: seq<Query>, s: iset<Str>) {
    exists x :: x in qs && Sat(x, s)
  }

  // ---------------------------------------------------------------- evaluation without a filter

  /** What evaluation without a filter gives is nil: All, whose filter is lost in another variable of the same name,
      and nodes that nothing has been collected for. */
  predicate GivesNil(q: Query) {
    match q.op
    case QAll => true
    case QNone => false
    case QAnd => q.trigram == [] && q.sub == []
    case QOr => q.trigram == [] && forall x :: x in q.sub ==> GivesNil(x)
  }

  /** Evaluation without a filter dereferences nil: an And node hands its nil filter on to the first subquery and asks
      at once whether the answer is empty; an Or node cannot add nil to what it has collected. */
  predicate Panics(q: Query) {
    match q.op
    case QAnd => q.trigram == [] && q.sub != [] && (Panics(q.sub[0]) || GivesNil(q.sub[0]))
    case QOr =>
      exists k :: 0 <= k < |q.sub|
                  && (Panics(q.sub[k]) || (GivesNil(q.sub[k]) && exists j :: 0 <= j < k && !GivesNil(q.sub[j])))
    case _ => false
  }

  predicate PanicsFirst(qs: seq<Query>) {
    qs != [] && (Panics(qs[0]) || GivesNil(qs[0]))
  }

  predicate PanicsAt(qs: seq<Query>, k: nat)
    requires k < |qs|
  {
    Panics(qs[k]) || (GivesNil(qs[k]) && exists j :: 0 <= j < k && !GivesNil(qs[j]))
  }

  lemma PanicsIs(q: Query)
    ensures Panics(q) <==> match q.op
                           case QAnd => q.trigram == [] && PanicsFirst(q.sub)
                           case QOr => exists k :: 0 <= k < |q.sub| && PanicsAt(q.sub, k)
                           case _ => false
  {
    if q.op == QOr {
      if Panics(q) {
        var k :| 0 <= k < |q.sub| && (Panics(q.sub[k]) || (GivesNil(q.sub[k]) && exists j :: 0 <= j < k && !GivesNil(q.sub[j])));
        assert PanicsAt(q.sub, k);
      }
    }
  }

  /** Order decides: behind another subquery, one that gives nil stops an Or node but not an And node, and in front of
      it the other way round. */
  lemma NilOrder(x: Query, y: Query)
    requires !Panics(x) && !Panics(y) && GivesNil(x) && !GivesNil(y)
    ensures !Panics(Query(QOr, [], [x, y])) && Panics(Query(QOr, [], [y, x]))
    ensures Panics(Query(QAnd, [], [x, y])) && !Panics(Query(QAnd, [], [y, x]))
  {
    PanicsIs(Query(QOr, [], [x, y]));
    PanicsIs(Query(QOr, [], [y, x]));
    PanicsIs(Query(QAnd, [], [x, y]));
    PanicsIs(Query(QAnd, [], [y, x]));
    hide Panics, GivesNil;
    assert PanicsAt([y, x], 1) by {
      assert !GivesNil([y, x][0]);
    }
  }

  /** What evaluation without a filter looks for: only the first subquery of an And node without trigrams is evaluated
      without one, and an Or node passes over subqueries that give nil. */
  ghost predicate Found(q: Query, s: iset<Str>) {
    match q.op
    case QAll => true
    case QNone => false
    case QAnd =>
      if q.trigram == [] && q.sub != [] then Found(q.sub[0], s) && SatAll(q.sub[1..], s)
      else HasAll(q.trigram, s) && SatAll(q.sub, s)
    case QOr => HasSome(q.trigram, s) || exists x :: x in q.sub && !GivesNil(x) && Found(x, s)
  }

  ghost predicate FoundAll(qs: seq<Query>, s: iset<Str>) {
    qs == [] || (Found(qs[0], s) && SatAll(qs[1..], s))
  }

  ghost predicate FoundSome(qs: seq<Query>, s: iset<Str>) {
    exists x :: x in qs && !GivesNil(x) && Found(x, s)
  }

  /** An Or with nothing in it, however deep: nil is right for it, as nothing satisfies it. */
  predicate Hollow(q: Query) {
    q.op == QOr && q.trigram == [] && forall x :: x in q.sub ==> Hollow(x)
  }

  /** Wherever no filter has been made yet, what gives nil is hollow. */
  predicate NothingLost(q: Query) {
    match q.op
    case QAnd => q.trigram == [] && q.sub != [] ==> NothingLost(q.sub[0])
    case QOr => forall x :: x in q.sub ==> if GivesNil(x) then Hollow(x) else NothingLost(x)
    case _ => true
  }

  lemma {:induction false} HollowNever(q: Query, s: iset<Str>)
    requires Hollow(q)
    ensures !Sat(q, s) && GivesNil(q)
  {
    forall x | x in q.sub
      ensures !Sat(x, s) && GivesNil(x)
    {
      HollowNever(x, s);
    }
  }

  /** Without a filter nothing is found that does not satisfy the query. */
  lemma {:induction false} FoundSat(q: Query, s: iset<Str>)
    requires Found(q, s)
    ensures Sat(q, s)
  {
    match q.op
    case QAnd =>
      if q.trigram == [] && q.sub != [] {
        FoundSat(q.sub[0], s);
        assert q.sub == [q.sub[0]] + q.sub[1..];
      }
    case QOr =>
      if FoundSome(q.sub, s) {
        var x :| x in q.sub && !GivesNil(x) && Found(x, s);
        FoundSat(x, s);
      }
    case _ =>
  }

  /** And everything that does is found, if nothing is lost. */
  lemma {:induction false} SatFound(q: Query, s: iset<Str>)
    requires NothingLost(q) && Sat(q, s)
    ensures Found(q, s)
  {
    match q.op
    case QAnd =>
      if q.trigram == [] && q.sub != [] {
        SatFound(q.sub[0], s);
      }
    case QOr =>
      if x :| x in q.sub && Sat(x, s) {
        if GivesNil(x) {
          HollowNever(x, s);
        } else {
          SatFound(x, s);
        }
      }
    case _ =>
  }

  /** A result that is a bitmap is finite: nothing is found without trigrams. */
  lemma {:induction false} NothingFound(q: Query)
    requires !GivesNil(q) && !Panics(q)
    ensures !Found(q, iset{})
  {
    match q.op
    case QAnd =>
      if q.trigram == [] {
        NothingFound(q.sub[0]);
      } else {
        assert q.trigram[0] in q.trigram;
      }
    case QOr =>
      forall x | x in q.sub && !GivesNil(x)
        ensures !Found(x, iset{})
      {
        var k :| 0 <= k < |q.sub| && q.sub[k] == x;
        assert !PanicsAt(q.sub, k);
        NothingFound(x);
      }
    case _ =>
  }

  lemma {:induction false} NilAlways(q: Query, s: iset<Str>)
    requires GivesNil(q) && !Hollow(q)
    ensures Sat(q, s)
  {
    if q.op == QOr {
      var x :| x in q.sub && !Hollow(x);
      NilAlways(x, s);
    }
  }

  /** An Or node finds what satisfies it exactly when each part that gives nil is hollow, provided that the other parts
      find what satisfies them. */
  lemma OrRightIff(q: Query)
    requires q.op == QOr && !GivesNil(q) && !Panics(q)
    requires forall x, s :: x in q.sub && !GivesNil(x) ==> (Found(x, s) <==> Sat(x, s))
    ensures (forall s :: Found(q, s) <==> Sat(q, s)) <==> forall x :: x in q.sub && GivesNil(x) ==> Hollow(x)
  {
    if x :| x in q.sub && GivesNil(x) && !Hollow(x) {
      NilAlways(x, iset{});
      NothingFound(q);
      assert Sat(q, iset{}) && !Found(q, iset{});
    } else {
      forall s
        ensures Found(q, s) <==> Sat(q, s)
      {
        if Found(q, s) {
          FoundSat(q, s);
        } else if x :| x in q.sub && Sat(x, s) {
          if GivesNil(x) {
            HollowNever(x, s);
          }
        }
      }
    }
  }

  /** Nothing is lost in a query whose only constant is its root and that has no empty And, as RegexpQuery makes them. */
  lemma {:induction false} InnerNothingLost(q: Query)
    requires Inner(q)
    ensures NothingLost(q) && (GivesNil(q) ==> Hollow(q))
  {
    forall x | x in q.sub
      ensures NothingLost(x) && (GivesNil(x) ==> Hollow(x))
    {
      InnerNothingLost(x);
    }
  }

  lemma WellFormedNil(q: Query)
    requires WellFormed(q)
    ensures GivesNil(q) <==> q == AllQuery || Hollow(q)
  {
    if Inner(q) {
      InnerNothingLost(q);
    }
    if Hollow(q) {
      HollowNever(q, iset{});
    }
  }

  /** Such a query finds exactly what satisfies it. */
  lemma WellFormedFound(q: Query, s: iset<Str>)
    requires WellFormed(q)
    ensures Found(q, s) <==> Sat(q, s)
  {
    if Inner(q) {
      InnerNothingLost(q);
    }
    if Sat(q, s) {
      SatFound(q, s);
    }
    if Found(q, s) {
      FoundSat(q, s);
    }
  }

  // ---------------------------------------------------------------- PostingQuery

  /** What evaluation is to find: with a filter the documents in it that satisfy the query. */
  ghost predicate Chosen(q: Query, f: Option<set<nat>>, s: iset<Str>, d: nat) {
    match f
    case None => Found(q, s)
    case Some(docs) => d in docs && Sat(q, s)
  }

  ghost predicate ChosenAll(qs: seq<Query>, f: Option<set<nat>>, s: iset<Str>, d: nat) {
    match f
    case None => FoundAll(qs, s)
    case Some(docs) => d in docs && SatAll(qs, s)
  }

  lemma MoreTrigrams(ts: StrSet, k: nat, s: iset<Str>)
    requires k < |ts|
    ensures HasAll(ts[..k + 1], s) <==> HasAll(ts[..k], s) && ts[k] in s
    ensures HasSome(ts[..k + 1], s) <==> HasSome(ts[..k], s) || ts[k] in s
    ensures HasAll(ts, s) ==> HasAll(ts[..k + 1], s)
    ensures HasSome(ts[..k + 1], s) ==> HasSome(ts, s)
  {
    assert ts[..k + 1] == ts[..k] + [ts[k]];
  }

  lemma MoreQueries(qs: seq<Query>, k: nat, s: iset<Str>)
    requires k < |qs|
    ensures SatAll(qs[..k + 1], s) <==> SatAll(qs[..k], s) && Sat(qs[k], s)
    ensures SatSome(qs[..k + 1], s) <==> SatSome(qs[..k], s) || Sat(qs[k], s)
    ensures FoundSome(qs[..k + 1], s) <==> FoundSome(qs[..k], s) || (!GivesNil(qs[k]) && Found(qs[k], s))
    ensures SatAll(qs, s) ==> SatAll(qs[..k + 1], s)
    ensures SatSome(qs[..k + 1], s) ==> SatSome(qs, s)
  {
    hide Found, GivesNil;
    assert qs[..k + 1] == qs[..k] + [qs[k]];
  }

  lemma MoreFound(qs: seq<Query>, k: nat, s: iset<Str>)
    requires k < |qs|
    ensures FoundAll(qs[..k + 1], s) <==> if k == 0 then Found(qs[k], s) else FoundAll(qs[..k], s) && Sat(qs[k], s)
    ensures FoundAll(qs, s) ==> FoundAll(qs[..k + 1], s)
  {
    hide Found, Sat;
    var more, front, rest := qs[..k + 1], qs[..k], qs[1..];
    assert more[0] == qs[0] && more[1..] == rest[..k];
    if k == 0 {
      assert rest[..0] == [];
    } else {
      MoreQueries(rest, k - 1, s);
      assert front[0] == qs[0] && front[1..] == rest[..k - 1];
    }
  }

  lemma MoreChosen(qs: seq<Query>, k: nat, f: Option<set<nat>>, s: iset<Str>, d: nat)
    requires k < |qs|
    ensures ChosenAll(qs[..k + 1], f, s, d) <==>
            if f.None? && k == 0 then Found(qs[k], s) else ChosenAll(qs[..k], f, s, d) && Sat(qs[k], s)
    ensures ChosenAll(qs, f, s, d) ==> ChosenAll(qs[..k + 1], f, s, d)
  {
    hide Found, Sat;
    if f.None? {
      MoreFound(qs, k, s);
    } else {
      MoreQueries(qs, k, s);
    }
  }

  /** A fresh bitmap with the documents of one trigram. */
  method TrigramDocs(pl: PostingLists, t: Str) returns (l: Bitmap)
    requires ValidLists(pl) && |t| == 3
    ensures fresh(l) && forall d: nat :: d in l.docs <==> t in DocTrigrams(pl, d)
  {
    l := new Bitmap({});
    ThreeBytes(t);
    FindTrigram(pl, t[0] as int * 0x1_0000 + t[1] as int * 0x100 + t[2] as int, l);
  }

  /** PostingQuery: with a filter, exactly the filter's documents that satisfy the query. Without one, a nil
      dereference or a nil answer exactly as the shape of the query has it, and else what is found. */
  method PostingQuery(pl: PostingLists, q: Query, filter: Bitmap?) returns (panic: bool, r: Bitmap?)
    requires ValidLists(pl) && ThreeByte(q)
    ensures panic <==> filter == null && Panics(q)
    ensures !panic ==> (r == null <==> filter == null && GivesNil(q))
    ensures r != null ==> fresh(r) || r == filter
    ensures !panic && r != null ==> forall d: nat :: d in r.docs <==> Chosen(q, FilterOf(filter), DocTrigrams(pl, d), d)
    decreases q, 1
  {
    hide ValidLists, DocTrigrams, HasAll, HasSome, SatAll, SatSome, FoundAll, FoundSome, Panics, PanicsFirst, PanicsAt;
    panic := false;
    PanicsIs(q);
    match q.op
    case QNone =>
      r := new Bitmap({});
    case QAll =>
      r := filter;
    case QAnd =>
      var empty;
      r, empty := AndTrigrams(pl, q.trigram, filter);
      ghost var f, g := FilterOf(filter), FilterOf(r);
      if !empty {
        panic, r := AndQueries(pl, q.sub, r);
      }
      forall d: nat
        ensures Chosen(q, f, DocTrigrams(pl, d), d) <==> ChosenAll(q.sub, g, DocTrigrams(pl, d), d)
      {
        AndIs(q, f, g, DocTrigrams(pl, d), d);
      }
    case QOr =>
      if filter == null {
        panic, r := OrAll(pl, q.sub, q.trigram);
      } else {
        r := OrFiltered(pl, q.sub, q.trigram, filter);
      }
      ghost var f := FilterOf(filter);
      forall d: nat
        ensures Chosen(q, f, DocTrigrams(pl, d), d) <==> OrChosen(q, f, DocTrigrams(pl, d), d)
      {
        OrIs(q, f, DocTrigrams(pl, d), d);
      }
  }

  lemma AndIs(q: Query, f: Option<set<nat>>, g: Option<set<nat>>, s: iset<Str>, d: nat)
    requires q.op == QAnd && (g.None? <==> f.None? && q.trigram == [])
    requires g.Some? ==> (d in g.value <==> Passes(f, d) && HasAll(q.trigram, s))
    ensures Chosen(q, f, s, d) <==> ChosenAll(q.sub, g, s, d)
  {
  }

  /** What an Or node is to find. */
  ghost predicate OrChosen(q: Query, f: Option<set<nat>>, s: iset<Str>, d: nat) {
    match f
    case None => HasSome(q.trigram, s) || FoundSome(q.sub, s)
    case Some(docs) => d in docs && (HasSome(q.trigram, s) || SatSome(q.sub, s))
  }

  lemma OrIs(q: Query, f: Option<set<nat>>, s: iset<Str>, d: nat)
    requires q.op == QOr
    ensures Chosen(q, f, s, d) <==> OrChosen(q, f, s, d)
  {
  }

  /** The trigrams of an And node; the filter shrinks as they are found. */
  method AndTrigrams(pl: PostingLists, ts: StrSet, filter0: Bitmap?) returns (filter: Bitmap?, empty: bool)
    requires ValidLists(pl) && forall t :: t in ts ==> |t| == 3
    ensures filter == null <==> filter0 == null && ts == []
    ensures filter != null ==> fresh(filter) || filter == filter0
    ensures filter != null ==>
              forall d: nat :: d in filter.docs <==> Passes(FilterOf(filter0), d) && HasAll(ts, DocTrigrams(pl, d))
    ensures empty ==> filter != null && filter.docs == {}
  {
    hide ValidLists, DocTrigrams;
    filter, empty := filter0, false;
    ghost var f := FilterOf(filter0);
    for k := 0 to |ts|
      invariant filter == null <==> filter0 == null && k == 0
      invariant filter != null ==> fresh(filter) || filter == filter0
      invariant filter != null ==> forall d: nat :: d in filter.docs <==> Passes(f, d) && HasAll(ts[..k], DocTrigrams(pl, d))
    {
      var l := TrigramDocs(pl, ts[k]);
      if filter != null {
        l.And(filter);
      }
      filter := l;
      forall d: nat
        ensures d in filter.docs <==> Passes(f, d) && HasAll(ts[..k + 1], DocTrigrams(pl, d))
        ensures HasAll(ts, DocTrigrams(pl, d)) ==> HasAll(ts[..k + 1], DocTrigrams(pl, d))
      {
        MoreTrigrams(ts, k, DocTrigrams(pl, d));
        assert k == 0 ==> HasAll(ts[..k], DocTrigrams(pl, d));
      }
      if filter.IsEmpty() {
        empty := true;
        assert forall d: nat :: d !in filter.docs;
        return;
      }
    }
    assert ts[..|ts|] == ts;
  }

  /** The subqueries of an And node, each within what the ones before it left. */
  method AndQueries(pl: PostingLists, qs: seq<Query>, filter0: Bitmap?) returns (panic: bool, filter: Bitmap?)
    requires ValidLists(pl) && (forall x :: x in qs ==> ThreeByte(x))
    ensures panic <==> filter0 == null && PanicsFirst(qs)
    ensures !panic ==> (filter == null <==> filter0 == null && qs == [])
    ensures filter != null ==> fresh(filter) || filter == filter0
    ensures !panic && filter != null ==>
              forall d: nat :: d in filter.docs <==> ChosenAll(qs, FilterOf(filter0), DocTrigrams(pl, d), d)
    decreases qs, 0
  {
    hide ValidLists, DocTrigrams, Sat, Found, GivesNil, Panics, ThreeByte;
    panic, filter := false, filter0;
    ghost var f := FilterOf(filter0);
    for k := 0 to |qs|
      invariant filter == null <==> filter0 == null && k == 0
      invariant filter != null ==> fresh(filter) || filter == filter0
      invariant !panic && (filter0 == null && k > 0 ==> !PanicsFirst(qs))
      invariant filter != null ==> forall d: nat :: d in filter.docs <==> ChosenAll(qs[..k], f, DocTrigrams(pl, d), d)
    {
      assert qs[k] in qs;
      ghost var g := FilterOf(filter);
      panic, filter := PostingQuery(pl, qs[k], filter);
      if panic || filter == null {
        return true, filter;
      }
      forall d: nat
        ensures d in filter.docs <==> ChosenAll(qs[..k + 1], f, DocTrigrams(pl, d), d)
        ensures ChosenAll(qs, f, DocTrigrams(pl, d), d) ==> ChosenAll(qs[..k + 1], f, DocTrigrams(pl, d), d)
      {
        MoreChosen(qs, k, f, DocTrigrams(pl, d), d);
      }
      if filter.IsEmpty() {
        assert forall d: nat :: d !in filter.docs;
        return;
      }
    }
    assert qs[..|qs|] == qs;
  }

  /** An Or node without a filter: the union of its parts, collected in the bitmap of the first that has one. */
  method OrAll(pl: PostingLists, qs: seq<Query>, ts: StrSet) returns (panic: bool, list: Bitmap?)
    requires ValidLists(pl) && (forall x :: x in qs ==> ThreeByte(x)) && forall t :: t in ts ==> |t| == 3
    ensures panic <==> exists k :: 0 <= k < |qs| && PanicsAt(qs, k)
    ensures !panic ==> (list == null <==> ts == [] && forall x :: x in qs ==> GivesNil(x))
    ensures list != null ==> fresh(list)
    ensures !panic && list != null ==>
              forall d: nat :: d in list.docs <==> HasSome(ts, DocTrigrams(pl, d)) || FoundSome(qs, DocTrigrams(pl, d))
    decreases qs, 0
  {
    hide ValidLists, DocTrigrams, Sat, Found, GivesNil, Panics, ThreeByte;
    panic, list := false, null;
    for k := 0 to |qs|
      invariant list == null <==> forall j :: 0 <= j < k ==> GivesNil(qs[j])
      invariant list != null ==> fresh(list)
      invariant !panic && forall j :: 0 <= j < k ==> !PanicsAt(qs, j)
      invariant list != null ==> forall d: nat :: d in list.docs <==> FoundSome(qs[..k], DocTrigrams(pl, d))
    {
      assert qs[k] in qs;
      ghost var none := list == null;
      var l;
      panic, l := PostingQuery(pl, qs[k], null);
      if panic {
        assert PanicsAt(qs, k);
        return true, null;
      }
      if list == null {
        list := l;
      } else if l == null {
        assert PanicsAt(qs, k);
        return true, null;
      } else {
        list.Or(l);
      }
      forall d: nat
        ensures FoundSome(qs[..k + 1], DocTrigrams(pl, d)) <==>
                FoundSome(qs[..k], DocTrigrams(pl, d)) || (!GivesNil(qs[k]) && Found(qs[k], DocTrigrams(pl, d)))
        ensures none ==> !FoundSome(qs[..k], DocTrigrams(pl, d))
      {
        MoreQueries(qs, k, DocTrigrams(pl, d));
      }
    }
    assert qs[..|qs|] == qs;
    assert list == null ==> forall d: nat :: !FoundSome(qs, DocTrigrams(pl, d));
    ghost var none := list == null;
    for k := 0 to |ts|
      invariant list == null <==> none && k == 0
      invariant list != null ==> fresh(list)
      invariant list != null ==>
                  forall d: nat :: d in list.docs <==> HasSome(ts[..k], DocTrigrams(pl, d)) || FoundSome(qs, DocTrigrams(pl, d))
    {
      var l := TrigramDocs(pl, ts[k]);
      if list == null {
        list := l;
      } else {
        list.Or(l);
      }
      forall d: nat
        ensures d in list.docs <==> HasSome(ts[..k + 1], DocTrigrams(pl, d)) || FoundSome(qs, DocTrigrams(pl, d))
      {
        MoreTrigrams(ts, k, DocTrigrams(pl, d));
        assert k == 0 ==> !HasSome(ts[..k], DocTrigrams(pl, d));
      }
    }
    assert ts[..|ts|] == ts;
  }

  /** An Or node with a filter: what no part has found is taken out at the end. */
  method OrFiltered(pl: PostingLists, qs: seq<Query>, ts: StrSet, filter: Bitmap) returns (r: Bitmap)
    requires ValidLists(pl) && (forall x :: x in qs ==> ThreeByte(x)) && forall t :: t in ts ==> |t| == 3
    ensures fresh(r) || r == filter
    ensures forall d: nat :: d in r.docs <==>
              d in filter.docs && (HasSome(ts, DocTrigrams(pl, d)) || SatSome(qs, DocTrigrams(pl, d)))
    decreases qs, 0
  {
    hide ValidLists, DocTrigrams, Sat, Found, GivesNil, Panics, ThreeByte;
    var notFound := new Bitmap(filter.docs);
    for k := 0 to |qs|
      invariant fresh(notFound)
      invariant forall d: nat :: d in notFound.docs <==> d in filter.docs && !SatSome(qs[..k], DocTrigrams(pl, d))
    {
      assert qs[k] in qs;
      var _, l := PostingQuery(pl, qs[k], filter);
      notFound.AndNot(l);
      forall d: nat
        ensures d in notFound.docs <==> d in filter.docs && !SatSome(qs[..k + 1], DocTrigrams(pl, d))
        ensures SatSome(qs[..k + 1], DocTrigrams(pl, d)) ==> SatSome(qs, DocTrigrams(pl, d))
      {
        MoreQueries(qs, k, DocTrigrams(pl, d));
      }
      if notFound.IsEmpty() {
        assert forall d: nat :: d !in notFound.docs;
        return filter;
      }
    }
    assert qs[..|qs|] == qs;
    for k := 0 to |ts|
      invariant fresh(notFound)
      invariant forall d: nat :: d in notFound.docs <==>
                  d in filter.docs && !HasSome(ts[..k], DocTrigrams(pl, d)) && !SatSome(qs, DocTrigrams(pl, d))
    {
      var l := TrigramDocs(pl, ts[k]);
      notFound.AndNot(l);
      forall d: nat
        ensures d in notFound.docs <==>
                d in filter.docs && !HasSome(ts[..k + 1], DocTrigrams(pl, d)) && !SatSome(qs, DocTrigrams(pl, d))
        ensures HasSome(ts[..k + 1], DocTrigrams(pl, d)) ==> HasSome(ts, DocTrigrams(pl, d))
      {
        MoreTrigrams(ts, k, DocTrigrams(pl, d));
      }
      if notFound.IsEmpty() {
        assert forall d: nat :: d !in notFound.docs;
        return filter;
      }
    }
    assert ts[..|ts|] == ts;
    notFound.Xor(filter);
    r := notFound;
  }
}
