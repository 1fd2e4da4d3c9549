/** The query of a regular expression passes every text that contains a match. */
module RegexpSoundness {
  import opened Bytes
  import opened StringSets
  import opened Queries
  import opened RegexpSyntax
  import opened RegexpAnalysis

  // ---------------------------------------------------------------- trigrams

  ghost predicate Occurs(text: Str, w: Str) {
    exists at: nat :: OccursAt(text, at, w)
  }

  /** The trigrams of a text: what the index records of it. */
  ghost function TrigramsOf(text: Str): iset<Str> {
    iset t: Str | |t| == 3 && Occurs(text, t)
  }

  lemma TrigramsWithin(text: Str, at: nat, w: Str)
    requires OccursAt(text, at, w)
    ensures TrigramsOf(w) <= TrigramsOf(text)
  {
    forall t | t in TrigramsOf(w)
      ensures t in TrigramsOf(text)
    {
      var i: nat :| OccursAt(w, i, t);
      OccursWithin(text, at, w, i, t);
      assert OccursAt(text, at + i, t);
    }
  }

  lemma {:induction false} WindowsAreTrigrams(w: Str, t: Str)
    ensures t in Windows(w) <==> t in TrigramsOf(w)
  {
    if |w| >= 3 {
      var v := w[..|w| - 1];
      WindowsAreTrigrams(v, t);
      var z := w[|w| - 3..];
      assert OccursAt(w, 0, v) && OccursAt(w, |w| - 3, z);
      TrigramsWithin(w, 0, v);
      if t in TrigramsOf(w) {
        var i: nat :| OccursAt(w, i, t);
        assert if i + 3 <= |v| then OccursAt(v, i, t) else t == z;
      }
      assert t in Windows(w) <==> t in Windows(v) || t == z;
    }
  }

  lemma AndOfTrigramsSat(w: Str, s: iset<Str>)
    requires |w| >= 3
    ensures Sat(AndOfTrigrams(w), s) <==> TrigramsOf(w) <= s
    ensures Inner(AndOfTrigrams(w))
  {
    forall t
      ensures t in AndOfTrigrams(w).trigram <==> t in TrigramsOf(w)
    {
      WindowsAreTrigrams(w, t);
    }
    assert OccursAt(w, 0, w[0..3]) && w[0..3] in TrigramsOf(w);
    assert AndOfTrigrams(w).trigram != [];
  }

  /** Whether `s` has all the trigrams of one of the strings of `t`. */
  ghost predicate SomeString(t: StrSet, s: iset<Str>) {
    exists x :: x in t && TrigramsOf(x) <= s
  }

  lemma {:induction false} OrOfAndsSat(t: StrSet, s: iset<Str>)
    requires forall x :: x in t ==> |x| >= 3
    ensures Sat(OrOfAnds(t), s) <==> SomeString(t, s)
    ensures WellFormed(OrOfAnds(t)) && (t != [] ==> Inner(OrOfAnds(t)))
  {
    hide AndOfTrigrams, TrigramsOf;
    if t != [] {
      var u, x := t[..|t| - 1], t[|t| - 1];
      assert t == u + [x];
      OrOfAndsSat(u, s);
      AndOfTrigramsSat(x, s);
      WellFormedBare(OrOfAnds(u));
      WellFormedBare(AndOfTrigrams(x));
      AndOrSat(OrOfAnds(u), AndOfTrigrams(x), QOr, s);
      AndOrWellFormed(OrOfAnds(u), AndOfTrigrams(x), QOr);
      if u == [] {
        assert Implies(NoneQuery, Unwrap(AndOfTrigrams(x)));
        UnwrapInner(AndOfTrigrams(x));
      }
    }
  }

  /** andTrigrams adds exactly the requirement that one of the strings' trigrams be there. */
  lemma AndTrigramsSat(q: Query, t: StrSet, s: iset<Str>)
    requires WellFormed(q)
    ensures Sat(AndTrigrams(q, t), s) <==> Sat(q, s) && (MinLen(t) < 3 || SomeString(t, s))
    ensures WellFormed(AndTrigrams(q, t))
  {
    if MinLen(t) >= 3 {
      OrOfAndsSat(t, s);
      WellFormedBare(q);
      WellFormedBare(OrOfAnds(t));
      AndOrSat(q, OrOfAnds(t), QAnd, s);
      AndOrWellFormed(q, OrOfAnds(t), QAnd);
    }
  }

  // ---------------------------------------------------------------- what an info claims

  /** Every word starts (or ends) with a member of the set. */
  ghost predicate Covers(t: StrSet, a: Lang, isSuffix: bool) {
    forall w :: w in a ==> exists p :: p in t && Extends(w, p, isSuffix)
  }

  /** The trigrams of every word satisfy the query. */
  ghost predicate QueryCovers(q: Query, a: Lang) {
    forall w, s :: w in a && TrigramsOf(w) <= s ==> Sat(q, s)
  }

  /** The claims of regexpInfo's field comments about the language `a`. An exact set is exact in
      both directions. */
  ghost predicate Sound(info: RegexpInfo, a: Lang) {
    (info.exact.Some? ==> forall w :: w in a <==> w in info.exact.value)
    && (info.exact.None? ==> Covers(info.prefix, a, false) && Covers(info.suffix, a, true))
    && QueryCovers(info.query, a)
    && WellFormed(info.query)
    && (info.canEmpty ==> [] in a)
  }

  lemma AndTrigramsCovers(q: Query, t: StrSet, a: Lang, isSuffix: bool)
    requires WellFormed(q) && QueryCovers(q, a) && Covers(t, a, isSuffix)
    ensures QueryCovers(AndTrigrams(q, t), a) && WellFormed(AndTrigrams(q, t))
  {
    AndTrigramsSat(q, t, iset{});
    forall w, s | w in a && TrigramsOf(w) <= s
      ensures Sat(AndTrigrams(q, t), s)
    {
      AndTrigramsSat(q, t, s);
      var p :| p in t && Extends(w, p, isSuffix);
      TrigramsWithin(w, if isSuffix then |w| - |p| else 0, p);
    }
  }

  lemma AndOrCovers(q: Query, r: Query, a: Lang, op: QueryOp)
    requires (op == QAnd || op == QOr) && WellFormed(q) && WellFormed(r)
    requires forall w, s :: w in a && TrigramsOf(w) <= s ==> Connect(op, Sat(q, s), Sat(r, s))
    ensures QueryCovers(AndOr(q, r, op), a) && WellFormed(AndOr(q, r, op))
  {
    WellFormedBare(q);
    WellFormedBare(r);
    AndOrWellFormed(q, r, op);
    forall w, s | w in a && TrigramsOf(w) <= s
      ensures Sat(AndOr(q, r, op), s)
    {
      AndOrSat(q, r, op, s);
    }
  }

  // ---------------------------------------------------------------- simplifySet

  lemma ExtendsTransitive(w: Str, p: Str, r: Str, isSuffix: bool)
    requires Extends(w, p, isSuffix) && Extends(p, r, isSuffix)
    ensures Extends(w, r, isSuffix)
  {
    if isSuffix {
      assert w[|w| - |r|..] == w[|w| - |p|..][|p| - |r|..];
    }
  }

  /** Every member of `t` extends a member of `u`. */
  ghost predicate Coarser(u: StrSet, t: StrSet, isSuffix: bool) {
    forall x :: x in t ==> exists p :: p in u && Extends(x, p, isSuffix)
  }

  lemma CoarserCovers(u: StrSet, t: StrSet, a: Lang, isSuffix: bool)
    requires Coarser(u, t, isSuffix) && Covers(t, a, isSuffix)
    ensures Covers(u, a, isSuffix)
  {
    forall w | w in a
      ensures exists p :: p in u && Extends(w, p, isSuffix)
    {
      var x :| x in t && Extends(w, x, isSuffix);
      var p :| p in u && Extends(x, p, isSuffix);
      ExtendsTransitive(w, x, p, isSuffix);
    }
  }

  lemma CoarserTransitive(u: StrSet, v: StrSet, t: StrSet, isSuffix: bool)
    requires Coarser(u, v, isSuffix) && Coarser(v, t, isSuffix)
    ensures Coarser(u, t, isSuffix)
  {
    forall x | x in t
      ensures exists p :: p in u && Extends(x, p, isSuffix)
    {
      var y :| y in v && Extends(x, y, isSuffix);
      var p :| p in u && Extends(y, p, isSuffix);
      ExtendsTransitive(x, y, p, isSuffix);
    }
  }

  lemma ShortenAllCoarser(t: StrSet, n: nat, isSuffix: bool)
    requires n >= 1
    ensures Coarser(ShortenAll(t, n, isSuffix), t, isSuffix)
  {
    forall x | x in t
      ensures exists p :: p in ShortenAll(t, n, isSuffix) && Extends(x, p, isSuffix)
    {
      var i :| 0 <= i < |t| && t[i] == x;
      assert ShortenAll(t, n, isSuffix)[i] in ShortenAll(t, n, isSuffix);
    }
  }

  /** One round of the loop. */
  lemma RoundCoarser(t: StrSet, n: nat, isSuffix: bool)
    requires n >= 1
    ensures var u := Clean(ShortenAll(t, n, isSuffix), isSuffix);
            Coarser(u, t, isSuffix) && StrictlySorted(u, isSuffix) && forall x :: x in u ==> |x| < n
  {
    hide Extends, Before, Clean, StrictlySorted;
    ShortenAllCoarser(t, n, isSuffix);
    CleanSorted(ShortenAll(t, n, isSuffix), isSuffix);
  }

  lemma {:induction false} ShrinkCoarser(t: StrSet, n: nat, isSuffix: bool)
    requires n >= 1
    ensures var u := Shrink(t, n, isSuffix);
            Coarser(u, t, isSuffix) && |u| <= maxSet && StrictlySorted(u, isSuffix)
            && forall x :: x in u ==> |x| < n
    decreases n
  {
    hide Extends, Before, Clean, ShortenAll, Coarser, StrictlySorted;
    RoundCoarser(t, n, isSuffix);
    var u := Clean(ShortenAll(t, n, isSuffix), isSuffix);
    if |u| > maxSet {
      ShortenToEmpty(t, n, isSuffix);
      ShrinkCoarser(u, n - 1, isSuffix);
      CoarserTransitive(Shrink(u, n - 1, isSuffix), u, t, isSuffix);
    }
  }

  /** No member extends the member before it. */
  ghost predicate NeighboursIndependent(t: StrSet, isSuffix: bool) {
    forall i :: 0 < i < |t| ==> !Extends(t[i], t[i - 1], isSuffix)
  }

  /** No member extends another member. */
  ghost predicate Antichain(t: StrSet, isSuffix: bool) {
    forall x, y :: x in t && y in t && Extends(x, y, isSuffix) ==> x == y
  }

  lemma SkipOne(kept: StrSet, t: StrSet, isSuffix: bool)
    requires t != [] && StrictlySorted(kept + t, isSuffix)
    ensures StrictlySorted(kept + t[1..], isSuffix)
  {
    var rest := kept + t[1..];
    assert forall i :: 0 <= i < |rest| ==> rest[i] == (kept + t)[if i < |kept| then i else i + 1];
  }

  lemma {:induction false} DropRedundantSorted(kept: StrSet, t: StrSet, isSuffix: bool)
    requires StrictlySorted(kept + t, isSuffix) && NeighboursIndependent(kept, isSuffix)
    ensures var u := DropRedundant(kept, t, isSuffix);
            StrictlySorted(u, isSuffix) && NeighboursIndependent(u, isSuffix)
    decreases t
  {
    if t == [] {
      assert kept + t == kept;
    } else if kept == [] || !Extends(t[0], kept[|kept| - 1], isSuffix) {
      assert (kept + [t[0]]) + t[1..] == kept + t;
      DropRedundantSorted(kept + [t[0]], t[1..], isSuffix);
    } else {
      SkipOne(kept, t, isSuffix);
      DropRedundantSorted(kept, t[1..], isSuffix);
    }
  }

  lemma {:induction false} DropRedundantFrom(kept: StrSet, t: StrSet, isSuffix: bool)
    ensures var u := DropRedundant(kept, t, isSuffix);
            kept <= u && |u| <= |kept| + |t| && forall x :: x in u ==> x in kept || x in t
    decreases t
  {
    if t == [] {
    } else if kept == [] || !Extends(t[0], kept[|kept| - 1], isSuffix) {
      DropRedundantFrom(kept + [t[0]], t[1..], isSuffix);
    } else {
      DropRedundantFrom(kept, t[1..], isSuffix);
    }
  }

  lemma {:induction false} DropRedundantCoarser(kept: StrSet, t: StrSet, isSuffix: bool)
    ensures Coarser(DropRedundant(kept, t, isSuffix), t, isSuffix)
    decreases t
  {
    var u := DropRedundant(kept, t, isSuffix);
    if t != [] {
      ExtendsSelf(t[0], isSuffix);
      var k := kept + [t[0]];
      if kept == [] || !Extends(t[0], kept[|kept| - 1], isSuffix) {
        DropRedundantCoarser(k, t[1..], isSuffix);
        DropRedundantFrom(k, t[1..], isSuffix);
        assert u[|kept|] == k[|kept|] == t[0];
      } else {
        DropRedundantCoarser(kept, t[1..], isSuffix);
        DropRedundantFrom(kept, t[1..], isSuffix);
        assert u[|kept| - 1] == kept[|kept| - 1];
      }
      assert forall x :: x in t ==> x == t[0] || x in t[1..];
    }
  }

  lemma SortedIndependentPair(t: StrSet, i: nat, j: nat, isSuffix: bool)
    requires StrictlySorted(t, isSuffix) && NeighboursIndependent(t, isSuffix)
    requires i < |t| && j < |t| && Extends(t[i], t[j], isSuffix)
    ensures i == j
  {
    var x, y := t[i], t[j];
    if isSuffix {
      SuffixIsReversedPrefix(x, y);
      PrefixIsLessEq(Reversed(y), Reversed(x));
      ReversedTwice(x);
      ReversedTwice(y);
      SuffixLessIsReversedLess(x, y);
    } else {
      PrefixIsLessEq(y, x);
    }
    if i < j {
      assert Before(x, y, isSuffix);
      LessAsymmetric(if isSuffix then Reversed(x) else x, if isSuffix then Reversed(y) else y);
      assert false;
    }
    if j < i {
      NextExtends(t, j, i, isSuffix);
      assert false;
    }
  }

  /** In a sorted list, if a later member extends `t[j]` then so does the next one. */
  lemma NextExtends(t: StrSet, j: nat, i: nat, isSuffix: bool)
    requires StrictlySorted(t, isSuffix) && j < i < |t| && Extends(t[i], t[j], isSuffix)
    ensures Extends(t[j + 1], t[j], isSuffix)
  {
    var y, c, x := t[j], t[j + 1], t[i];
    assert Before(y, c, isSuffix);
    assert c == x || Before(c, x, isSuffix);
    if isSuffix {
      SuffixLessIsReversedLess(y, c);
      SuffixLessIsReversedLess(c, x);
      SuffixIsReversedPrefix(x, y);
      SuffixIsReversedPrefix(c, y);
      PrefixInterval(Reversed(y), Reversed(c), Reversed(x));
    } else {
      PrefixInterval(y, c, x);
    }
  }

  lemma SortedIndependentAntichain(u: StrSet, isSuffix: bool)
    requires StrictlySorted(u, isSuffix) && NeighboursIndependent(u, isSuffix)
    ensures Antichain(u, isSuffix)
  {
    forall x, y | x in u && y in u && Extends(x, y, isSuffix)
      ensures x == y
    {
      var i :| 0 <= i < |u| && u[i] == x;
      var j :| 0 <= j < |u| && u[j] == y;
      SortedIndependentPair(u, i, j, isSuffix);
    }
  }

  /** simplifySet's result: at most maxSet strings of at most two bytes, none of them redundant, and
      every string of the set extends one of them. */
  lemma SimplifiedSetReduced(t: StrSet, isSuffix: bool)
    ensures var u := SimplifiedSet(t, isSuffix);
            Coarser(u, t, isSuffix) && |u| <= maxSet && StrictlySorted(u, isSuffix)
            && Antichain(u, isSuffix) && forall x :: x in u ==> |x| <= 2
  {
    var c := Clean(t, isSuffix);
    var v := Shrink(c, 3, isSuffix);
    ShrinkCoarser(c, 3, isSuffix);
    assert [] + v == v;
    DropRedundantSorted([], v, isSuffix);
    DropRedundantFrom([], v, isSuffix);
    DropRedundantCoarser([], v, isSuffix);
    var u := DropRedundant([], v, isSuffix);
    CoarserTransitive(u, v, c, isSuffix);
    SortedIndependentAntichain(u, isSuffix);
  }

  // ---------------------------------------------------------------- simplify

  lemma AddExactSound(info: RegexpInfo, a: Lang)
    requires Sound(info, a)
    ensures Sound(AddExact(info), a)
  {
    hide AndTrigrams, WellFormed, Covers, QueryCovers;
    if info.exact.Some? {
      var exact := info.exact.value;
      assert Covers(exact, a, false) by {
        ExactCovers(exact, a);
      }
      AndTrigramsCovers(info.query, exact, a, false);
    }
  }

  lemma ExtendsSelf(w: Str, isSuffix: bool)
    ensures Extends(w, w, isSuffix) && Extends(w, [], isSuffix)
  {
  }

  lemma ExactCovers(exact: StrSet, a: Lang)
    requires forall w :: w in a ==> w in exact
    ensures Covers(exact, a, false) && Covers(exact, a, true)
  {
    forall w | w in a
      ensures exists p :: p in exact && Extends(w, p, false)
      ensures exists p :: p in exact && Extends(w, p, true)
    {
      ExtendsSelf(w, false);
      ExtendsSelf(w, true);
    }
  }

  lemma CoversMore(t: StrSet, u: StrSet, a: Lang, isSuffix: bool)
    requires Covers(t, a, isSuffix) && forall x :: x in t ==> x in u
    ensures Covers(u, a, isSuffix)
  {
    forall w | w in a
      ensures exists p :: p in u && Extends(w, p, isSuffix)
    {
      var p :| p in t && Extends(w, p, isSuffix);
    }
  }

  lemma CutExactCovers(exact: StrSet, more: StrSet, a: Lang, isSuffix: bool)
    requires Covers(exact, a, isSuffix)
    ensures Covers(more + ShortenAll(exact, 3, isSuffix), a, isSuffix)
  {
    var cut := ShortenAll(exact, 3, isSuffix);
    ShortenAllCoarser(exact, 3, isSuffix);
    CoarserCovers(cut, exact, a, isSuffix);
    CoversMore(cut, more + cut, a, isSuffix);
  }

  lemma GivenUpSound(info: RegexpInfo, exact: StrSet, a: Lang)
    requires Sound(info, a) && forall w :: w in a ==> w in exact
    ensures Sound(RegexpInfo(info.canEmpty, None, info.prefix + Heads(exact), info.suffix + Tails(exact),
                             AndTrigrams(info.query, exact)), a)
  {
    ExactCovers(exact, a);
    AndTrigramsCovers(info.query, exact, a, false);
    CutExactCovers(exact, info.prefix, a, false);
    CutExactCovers(exact, info.suffix, a, true);
  }

  lemma FlushSound(info: RegexpInfo, force: bool, a: Lang)
    requires Sound(info, a)
    ensures Sound(Flush(info, force), a)
  {
    if info.exact.Some? {
      var exact := Clean(info.exact.value, false);
      if TooBig(exact, force) {
        GivenUpSound(info, exact, a);
      }
    }
  }

  lemma SimplifySetsSound(info: RegexpInfo, a: Lang)
    requires Sound(info, a)
    ensures Sound(SimplifySets(info), a)
  {
    if info.exact.None? {
      var p, s := Clean(info.prefix, false), Clean(info.suffix, true);
      CoversMore(info.prefix, p, a, false);
      CoversMore(info.suffix, s, a, true);
      AndTrigramsCovers(info.query, p, a, false);
      AndTrigramsCovers(AndTrigrams(info.query, p), s, a, true);
      SimplifiedSetReduced(info.prefix, false);
      SimplifiedSetReduced(info.suffix, true);
      CoarserCovers(SimplifiedSet(info.prefix, false), info.prefix, a, false);
      CoarserCovers(SimplifiedSet(info.suffix, true), info.suffix, a, true);
    }
  }

  lemma SimplifySound(info: RegexpInfo, force: bool, a: Lang)
    requires Sound(info, a)
    ensures Sound(Simplify(info, force), a)
  {
    FlushSound(info, force, a);
    SimplifySetsSound(Flush(info, force), a);
  }

  // ---------------------------------------------------------------- concat

  lemma SplitConcat(w: Str, a: Lang, b: Lang) returns (i: nat)
    requires w in ConcatLang(a, b)
    ensures i <= |w| && w[..i] in a && w[i..] in b && w == w[..i] + w[i..]
    ensures OccursAt(w, 0, w[..i]) && OccursAt(w, i, w[i..])
  {
    i :| i <= |w| && w[..i] in a && w[i..] in b;
  }

  lemma JoinConcat(u: Str, v: Str, a: Lang, b: Lang)
    requires u in a && v in b
    ensures u + v in ConcatLang(a, b)
  {
    var w := u + v;
    assert w[..|u|] == u && w[|u|..] == v;
  }

  lemma CrossExact(x: StrSet, y: StrSet, a: Lang, b: Lang, isSuffix: bool)
    requires forall w :: w in a <==> w in x
    requires forall w :: w in b <==> w in y
    ensures forall w :: w in ConcatLang(a, b) <==> w in Cross(x, y, isSuffix)
  {
    forall w
      ensures w in ConcatLang(a, b) <==> w in Cross(x, y, isSuffix)
    {
      CrossElements(x, y, isSuffix, w);
      if w in ConcatLang(a, b) {
        var k := SplitConcat(w, a, b);
        var i :| 0 <= i < |x| && x[i] == w[..k];
        var j :| 0 <= j < |y| && y[j] == w[k..];
        assert w == x[i] + y[j];
      }
      if IsProduct(w, x, y) {
        var i, j :| 0 <= i < |x| && 0 <= j < |y| && w == x[i] + y[j];
        JoinConcat(x[i], y[j], a, b);
      }
    }
  }

  lemma ProductIn(x: StrSet, y: StrSet, p: Str, q: Str, isSuffix: bool)
    requires p in x && q in y
    ensures p + q in Cross(x, y, isSuffix)
  {
    var i :| 0 <= i < |x| && x[i] == p;
    var j :| 0 <= j < |y| && y[j] == q;
    assert p + q == x[i] + y[j];
    CrossElements(x, y, isSuffix, p + q);
  }

  lemma ConcatPrefixes(x: RegexpInfo, y: RegexpInfo, a: Lang, b: Lang)
    requires Sound(x, a) && Sound(y, b) && !(x.exact.Some? && y.exact.Some?)
    ensures Covers(RawConcat(x, y).prefix, ConcatLang(a, b), false)
  {
    hide QueryCovers, WellFormed, ConcatLang;
    var t := RawConcat(x, y).prefix;
    forall w | w in ConcatLang(a, b)
      ensures exists p :: p in t && Extends(w, p, false)
    {
      var i := SplitConcat(w, a, b);
      if x.exact.Some? {
        var q :| q in y.prefix && Extends(w[i..], q, false);
        ProductIn(x.exact.value, y.prefix, w[..i], q, false);
        assert w[..i] + q <= w;
      } else {
        var q :| q in x.prefix && Extends(w[..i], q, false);
        assert q in t && q <= w;
      }
    }
  }

  lemma ConcatSuffixes(x: RegexpInfo, y: RegexpInfo, a: Lang, b: Lang)
    requires Sound(x, a) && Sound(y, b) && !(x.exact.Some? && y.exact.Some?)
    ensures Covers(RawConcat(x, y).suffix, ConcatLang(a, b), true)
  {
    hide QueryCovers, WellFormed, ConcatLang;
    var t := RawConcat(x, y).suffix;
    forall w | w in ConcatLang(a, b)
      ensures exists p :: p in t && Extends(w, p, true)
    {
      var i := SplitConcat(w, a, b);
      if y.exact.Some? {
        var q :| q in x.suffix && Extends(w[..i], q, true);
        ProductIn(x.suffix, y.exact.value, q, w[i..], true);
        assert w[i - |q|..] == q + w[i..];
        assert HasSuffix(w, q + w[i..]);
      } else {
        var q :| q in y.suffix && Extends(w[i..], q, true);
        assert q in t;
        assert w[|w| - |q|..] == w[i..][|w| - i - |q|..];
      }
    }
  }

  /** A suffix of the left word followed by a prefix of the right word sits across the seam. */
  lemma SeamWord(w: Str, i: nat, x: StrSet, y: StrSet) returns (uv: Str)
    requires i <= |w|
    requires exists u :: u in x && Extends(w[..i], u, true)
    requires exists v :: v in y && Extends(w[i..], v, false)
    ensures uv in Cross(x, y, false) && TrigramsOf(uv) <= TrigramsOf(w)
  {
    var u :| u in x && Extends(w[..i], u, true);
    var v :| v in y && Extends(w[i..], v, false);
    ProductIn(x, y, u, v, false);
    uv := u + v;
    assert w[i - |u|..i] == u;
    assert w[i - |u|..i + |v|] == u + v;
    TrigramsWithin(w, i - |u|, u + v);
  }

  lemma SeamCovers(x: RegexpInfo, y: RegexpInfo, a: Lang, b: Lang, q: Query)
    requires Covers(x.suffix, a, true) && Covers(y.prefix, b, false)
    requires WellFormed(q) && QueryCovers(q, ConcatLang(a, b))
    ensures var q' := AndTrigrams(q, Cross(x.suffix, y.prefix, false));
            QueryCovers(q', ConcatLang(a, b)) && WellFormed(q')
  {
    var t := Cross(x.suffix, y.prefix, false);
    AndTrigramsSat(q, t, iset{});
    forall w, s | w in ConcatLang(a, b) && TrigramsOf(w) <= s
      ensures Sat(AndTrigrams(q, t), s)
    {
      var i := SplitConcat(w, a, b);
      var uv := SeamWord(w, i, x.suffix, y.prefix);
      AndTrigramsSat(q, t, s);
    }
  }

  lemma RawConcatSound(x: RegexpInfo, y: RegexpInfo, a: Lang, b: Lang)
    requires Sound(x, a) && Sound(y, b)
    ensures Sound(RawConcat(x, y), ConcatLang(a, b))
  {
    forall w, s | w in ConcatLang(a, b) && TrigramsOf(w) <= s
      ensures Sat(x.query, s) && Sat(y.query, s)
    {
      var i := SplitConcat(w, a, b);
      TrigramsWithin(w, 0, w[..i]);
      TrigramsWithin(w, i, w[i..]);
    }
    AndOrCovers(x.query, y.query, ConcatLang(a, b), QAnd);
    if x.exact.Some? && y.exact.Some? {
      CrossExact(x.exact.value, y.exact.value, a, b, false);
    } else {
      ConcatPrefixes(x, y, a, b);
      ConcatSuffixes(x, y, a, b);
      if x.exact.None? && y.exact.None? {
        SeamCovers(x, y, a, b, AndOr(x.query, y.query, QAnd));
      }
    }
  }

  lemma ConcatSound(x: RegexpInfo, y: RegexpInfo, a: Lang, b: Lang)
    requires Sound(x, a) && Sound(y, b)
    ensures Sound(ConcatInfo(x, y), ConcatLang(a, b))
  {
    RawConcatSound(x, y, a, b);
    SimplifySound(RawConcat(x, y), false, ConcatLang(a, b));
  }

  // ---------------------------------------------------------------- alternate

  lemma UnionCovers(t: StrSet, u: StrSet, a: Lang, b: Lang, isSuffix: bool)
    requires Covers(t, a, isSuffix) && Covers(u, b, isSuffix)
    ensures Covers(Union(t, u, isSuffix), a + b, isSuffix)
  {
    var v := Union(t, u, isSuffix);
    CoversMore(t, v, a, isSuffix);
    CoversMore(u, v, b, isSuffix);
  }

  lemma AlternateQuerySound(q: Query, r: Query, a: Lang, b: Lang)
    requires WellFormed(q) && WellFormed(r) && QueryCovers(q, a) && QueryCovers(r, b)
    ensures QueryCovers(AndOr(q, r, QOr), a + b) && WellFormed(AndOr(q, r, QOr))
  {
    AndOrCovers(q, r, a + b, QOr);
  }

  /** The sets of a union, where either side may give its exact set instead. */
  lemma AlternateSetsSound(x: RegexpInfo, y: RegexpInfo, a: Lang, b: Lang)
    requires Sound(x, a) && Sound(y, b) && !(x.exact.Some? && y.exact.Some?)
    ensures var u := RawAlternate(x, y); Covers(u.prefix, a + b, false) && Covers(u.suffix, a + b, true)
  {
    if x.exact.Some? {
      ExactCovers(x.exact.value, a);
      UnionCovers(x.exact.value, y.prefix, a, b, false);
      UnionCovers(x.exact.value, y.suffix, a, b, true);
    } else if y.exact.Some? {
      ExactCovers(y.exact.value, b);
      UnionCovers(x.prefix, y.exact.value, a, b, false);
      UnionCovers(x.suffix, y.exact.value, a, b, true);
    } else {
      UnionCovers(x.prefix, y.prefix, a, b, false);
      UnionCovers(x.suffix, y.suffix, a, b, true);
    }
  }

  lemma RawAlternateSound(x: RegexpInfo, y: RegexpInfo, a: Lang, b: Lang)
    requires Sound(x, a) && Sound(y, b)
    ensures Sound(RawAlternate(x, y), a + b)
  {
    if x.exact.Some? && y.exact.Some? {
      AlternateQuerySound(x.query, y.query, a, b);
    } else {
      AlternateSetsSound(x, y, a, b);
      AddExactSound(x, a);
      AddExactSound(y, b);
      AlternateQuerySound(if x.exact.Some? then AddExact(x).query else x.query,
                          if y.exact.Some? then AddExact(y).query else y.query, a, b);
    }
  }

  lemma AlternateSound(x: RegexpInfo, y: RegexpInfo, a: Lang, b: Lang)
    requires Sound(x, a) && Sound(y, b)
    ensures Sound(AlternateInfo(x, y), a + b)
  {
    RawAlternateSound(x, y, a, b);
    SimplifySound(RawAlternate(x, y), false, a + b);
  }
}
