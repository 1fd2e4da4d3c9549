/** What the query of a regular expression asks for, no more and no less (index/regexp.go, analyze and its helpers):
    for each step of the analysis, exactly which trigram sets satisfy the query, and which strings the sets hold. */
module RegexpPrecision {
  import opened Bytes
  import opened Utf8
  import opened StringSets
  import opened Queries
  import opened RegexpSyntax
  import opened RegexpAnalysis
  import opened RegexpSoundness
  import opened RegexpTheorems
  import RuneRanges

  // ---------------------------------------------------------------- what a set of strings demands

  /** A set of strings of three bytes or more demands the trigrams of one of them; any other set demands nothing. */
  ghost predicate Demanded(t: StrSet, s: iset<Str>) {
    t != [] && (forall w :: w in t ==> |w| >= 3) ==> SomeString(t, s)
  }

  lemma DemandedIs(t: StrSet, s: iset<Str>)
    ensures Demanded(t, s) <==> MinLen(t) < 3 || SomeString(t, s)
  {
    hide SomeString;
  }

  ghost predicate SameElements(t: StrSet, u: StrSet) {
    forall w :: w in t <==> w in u
  }

  lemma DemandedSame(t: StrSet, u: StrSet, s: iset<Str>)
    requires SameElements(t, u)
    ensures Demanded(t, s) <==> Demanded(u, s)
  {
    assert t != [] ==> t[0] in t;
    assert u != [] ==> u[0] in u;
  }

  /** Strings of at most two bytes hold no trigram. */
  lemma ShortDemandsNothing(t: StrSet, s: iset<Str>)
    requires forall w :: w in t ==> |w| <= 2
    ensures Demanded(t, s)
  {
    if t != [] {
      assert t[0] in t;
    }
  }

  // ---------------------------------------------------------------- simplify

  /** Prefixes and suffixes that are cut short go into the query first. */
  lemma SimplifyQueryIff(info: RegexpInfo, force: bool, s: iset<Str>)
    requires info.exact.None? && WellFormed(info.query)
    ensures var r := Simplify(info, force);
            r.exact.None? && WellFormed(r.query)
            && (Sat(r.query, s) <==> Sat(info.query, s) && Demanded(info.prefix, s) && Demanded(info.suffix, s))
  {
    hide Sat, Demanded, AndTrigrams, SimplifiedSet, Clean, WellFormed;
    var p, u := Clean(info.prefix, false), Clean(info.suffix, true);
    AndTrigramsSat(info.query, p, s);
    AndTrigramsSat(AndTrigrams(info.query, p), u, s);
    DemandedIs(p, s);
    DemandedIs(u, s);
    DemandedSame(info.prefix, p, s);
    DemandedSame(info.suffix, u, s);
  }

  /** An exact set is kept while it has at most seven strings and one of at most three bytes, or of at most two at the
      very end. */
  ghost predicate Kept(exact: StrSet, force: bool) {
    |set w | w in exact| <= 7 && (exact == [] || exists w :: w in exact && |w| <= if force then 2 else 3)
  }

  lemma {:induction false} CleanCount(t: StrSet, isSuffix: bool)
    requires StrictlySorted(t, isSuffix)
    ensures |set w | w in t| == |t|
  {
    hide Before;
    if t != [] {
      CleanCount(t[1..], isSuffix);
      var rest := set w | w in t[1..];
      FirstApart(t, isSuffix);
      assert t == [t[0]] + t[1..];
      assert (set w | w in t) == rest + {t[0]};
    }
  }

  lemma FirstApart(t: StrSet, isSuffix: bool)
    requires StrictlySorted(t, isSuffix) && t != []
    ensures t[0] !in t[1..]
  {
    BeforeIrreflexive(t[0], isSuffix);
  }

  lemma KeptIs(exact: StrSet, force: bool)
    ensures Kept(exact, force) <==> !TooBig(Clean(exact, false), force)
  {
    var c := Clean(exact, false);
    CleanSorted(exact, false);
    CleanCount(c, false);
    assert (set w | w in exact) == (set w | w in c);
    assert exact != [] ==> exact[0] in c;
    assert c != [] ==> c[0] in exact;
  }

  /** What becomes of an exact set: it stays as it is, or the query gets its trigrams and its ends go on. */
  lemma SimplifyExactIff(exact: StrSet, force: bool, s: iset<Str>)
    ensures var r := Simplify(ExactInfo(exact), force);
            if Kept(exact, force) then r.exact.Some? && SameElements(r.exact.value, exact) && r.query == AllQuery
            else r.exact.None? && (Sat(r.query, s) <==> Demanded(exact, s))
  {
    KeptIs(exact, force);
    hide Kept, Sat, Demanded;
    if !Kept(exact, force) {
      GivenUpPrecise(exact, force, s);
      DemandedIs(exact, s);
    }
  }

  // ---------------------------------------------------------------- simplifySet

  /** `w` is `x` cut to fewer than `n` bytes, at the end that does not matter. */
  predicate CutOf(x: Str, n: nat, isSuffix: bool, w: Str)
    requires n >= 1
  {
    Extends(x, w, isSuffix) && |w| == if |x| < n then |x| else n - 1
  }

  ghost predicate IsCut(t: StrSet, n: nat, isSuffix: bool, w: Str)
    requires n >= 1
  {
    exists x :: x in t && CutOf(x, n, isSuffix, w)
  }

  lemma CutUnique(x: Str, n: nat, isSuffix: bool, w: Str)
    requires n >= 1
    ensures CutOf(x, n, isSuffix, w) <==> w == Shorten(x, n, isSuffix)
  {
  }

  lemma CutsAre(t: StrSet, n: nat, isSuffix: bool, w: Str)
    requires n >= 1
    ensures w in ShortenAll(t, n, isSuffix) <==> IsCut(t, n, isSuffix, w)
  {
    hide CutOf, Shorten;
    var u := ShortenAll(t, n, isSuffix);
    if w in u {
      var i :| 0 <= i < |u| && u[i] == w;
      CutUnique(t[i], n, isSuffix, w);
      assert t[i] in t;
    }
    if x :| x in t && CutOf(x, n, isSuffix, w) {
      CutUnique(x, n, isSuffix, w);
      var i :| 0 <= i < |t| && t[i] == x;
      assert u[i] == w;
    }
  }

  lemma CutAgain(x: Str, n: nat, m: nat, isSuffix: bool, w: Str)
    requires 1 <= m <= n
    ensures CutOf(Shorten(x, n, isSuffix), m, isSuffix, w) <==> CutOf(x, m, isSuffix, w)
  {
    var v := Shorten(x, n, isSuffix);
    if isSuffix {
      assert v == x[|x| - |v|..];
      assert |w| <= |v| ==> v[|v| - |w|..] == x[|x| - |w|..];
    } else {
      assert v == x[..|v|];
      assert |w| <= |v| ==> v[..|w|] == x[..|w|];
    }
  }

  /** Cutting twice is cutting once. */
  lemma CutTwice(t: StrSet, u: StrSet, n: nat, m: nat, isSuffix: bool, w: Str)
    requires 1 <= m <= n && forall v :: v in u <==> IsCut(t, n, isSuffix, v)
    ensures IsCut(u, m, isSuffix, w) <==> IsCut(t, m, isSuffix, w)
  {
    hide CutOf, Shorten;
    if v :| v in u && CutOf(v, m, isSuffix, w) {
      var x :| x in t && CutOf(x, n, isSuffix, v);
      CutUnique(x, n, isSuffix, v);
      CutAgain(x, n, m, isSuffix, w);
    }
    if x :| x in t && CutOf(x, m, isSuffix, w) {
      var v := Shorten(x, n, isSuffix);
      CutUnique(x, n, isSuffix, v);
      assert IsCut(t, n, isSuffix, v);
      CutAgain(x, n, m, isSuffix, w);
    }
  }

  /** At most twenty strings are left when the set is cut to fewer than `n` bytes. */
  ghost predicate FewCuts(t: StrSet, n: nat, isSuffix: bool)
    requires n >= 1
  {
    |set w | w in ShortenAll(t, n, isSuffix)| <= 20
  }

  lemma FewCutsIs(t: StrSet, n: nat, isSuffix: bool)
    requires n >= 1
    ensures FewCuts(t, n, isSuffix) <==> |Clean(ShortenAll(t, n, isSuffix), isSuffix)| <= maxSet
  {
    hide Clean, ShortenAll;
    var u := ShortenAll(t, n, isSuffix);
    var c := Clean(u, isSuffix);
    CleanSorted(u, isSuffix);
    CleanCount(c, isSuffix);
    CleanElements(u, isSuffix);
    assert (set w | w in u) == (set w | w in c);
  }

  lemma CleanElements(u: StrSet, isSuffix: bool)
    ensures SameElements(Clean(u, isSuffix), u)
  {
  }

  /** The strings that no other cut string is an end of. */
  ghost predicate IsLeastCut(t: StrSet, n: nat, isSuffix: bool, w: Str)
    requires n >= 1
  {
    IsCut(t, n, isSuffix, w) && forall v :: IsCut(t, n, isSuffix, v) && Extends(w, v, isSuffix) ==> v == w
  }

  /** `u` is `t` cut to fewer than `n` bytes, without the strings that another one makes redundant. */
  ghost predicate LeastCuts(u: StrSet, t: StrSet, n: nat, isSuffix: bool)
    requires n >= 1
  {
    forall w :: w in u <==> IsLeastCut(t, n, isSuffix, w)
  }

  /** simplifySet cuts to two bytes, or as far below that as it must to be left with at most twenty strings. */
  ghost predicate Simplified(u: StrSet, t: StrSet, isSuffix: bool) {
    exists n :: 1 <= n <= 3 && LeastCuts(u, t, n, isSuffix) && FewCuts(t, n, isSuffix)
                && forall m :: n < m <= 3 ==> !FewCuts(t, m, isSuffix)
  }

  ghost predicate Cuts(u: StrSet, t: StrSet, n: nat, isSuffix: bool)
    requires n >= 1
  {
    forall w :: w in u <==> IsCut(t, n, isSuffix, w)
  }

  lemma RoundCuts(t: StrSet, n: nat, isSuffix: bool)
    requires n >= 1
    ensures Cuts(Clean(ShortenAll(t, n, isSuffix), isSuffix), t, n, isSuffix)
  {
    hide IsCut, Clean, ShortenAll;
    CleanElements(ShortenAll(t, n, isSuffix), isSuffix);
    forall w
      ensures w in ShortenAll(t, n, isSuffix) <==> IsCut(t, n, isSuffix, w)
    {
      CutsAre(t, n, isSuffix, w);
    }
  }

  lemma FewCutsAgain(t: StrSet, u: StrSet, n: nat, m: nat, isSuffix: bool)
    requires 1 <= m <= n && Cuts(u, t, n, isSuffix)
    ensures FewCuts(u, m, isSuffix) <==> FewCuts(t, m, isSuffix)
    ensures forall w :: IsCut(u, m, isSuffix, w) <==> IsCut(t, m, isSuffix, w)
  {
    hide IsCut, ShortenAll;
    forall w
      ensures IsCut(u, m, isSuffix, w) <==> IsCut(t, m, isSuffix, w)
      ensures w in ShortenAll(u, m, isSuffix) <==> w in ShortenAll(t, m, isSuffix)
    {
      CutTwice(t, u, n, m, isSuffix, w);
      CutsAre(u, m, isSuffix, w);
      CutsAre(t, m, isSuffix, w);
    }
    assert (set w | w in ShortenAll(u, m, isSuffix)) == (set w | w in ShortenAll(t, m, isSuffix));
  }

  /** The shortening loop stops at the first length that leaves few enough strings. */
  lemma {:induction false} ShrinkCuts(t: StrSet, n: nat, isSuffix: bool) returns (m: nat)
    requires n >= 1
    ensures 1 <= m <= n && Cuts(Shrink(t, n, isSuffix), t, m, isSuffix) && FewCuts(t, m, isSuffix)
    ensures forall k :: m < k <= n ==> !FewCuts(t, k, isSuffix)
    decreases n
  {
    hide IsCut, FewCuts, Clean, ShortenAll;
    var u := Clean(ShortenAll(t, n, isSuffix), isSuffix);
    RoundCuts(t, n, isSuffix);
    FewCutsIs(t, n, isSuffix);
    if |u| <= maxSet {
      m := n;
    } else {
      ShortenToEmpty(t, n, isSuffix);
      m := ShrinkCuts(u, n - 1, isSuffix);
      forall k | 1 <= k <= n - 1
        ensures FewCuts(u, k, isSuffix) <==> FewCuts(t, k, isSuffix)
        ensures forall w :: IsCut(u, k, isSuffix, w) <==> IsCut(t, k, isSuffix, w)
      {
        FewCutsAgain(t, u, n, k, isSuffix);
      }
    }
  }

  /** What is dropped from a sorted set is exactly what extends another string of it. */
  lemma DropsRedundant(v: StrSet, isSuffix: bool, w: Str)
    requires StrictlySorted(v, isSuffix)
    ensures w in DropRedundant([], v, isSuffix) <==>
            w in v && forall x :: x in v && Extends(w, x, isSuffix) ==> x == w
  {
    var u := DropRedundant([], v, isSuffix);
    assert [] + v == v;
    DropRedundantSorted([], v, isSuffix);
    DropRedundantFrom([], v, isSuffix);
    DropRedundantCoarser([], v, isSuffix);
    SortedIndependentAntichain(u, isSuffix);
    hide DropRedundant, StrictlySorted, NeighboursIndependent, Extends;
    if w in u {
      forall x | x in v && Extends(w, x, isSuffix)
        ensures x == w
      {
        var k :| k in u && Extends(x, k, isSuffix);
        ExtendsTransitive(w, x, k, isSuffix);
        ExtendsBoth(w, x, isSuffix);
      }
    }
    if w in v && forall x :: x in v && Extends(w, x, isSuffix) ==> x == w {
      var k :| k in u && Extends(w, k, isSuffix);
    }
  }

  lemma ExtendsBoth(w: Str, x: Str, isSuffix: bool)
    ensures Extends(w, x, isSuffix) && Extends(x, w, isSuffix) ==> w == x
  {
  }

  lemma LeastCutsLeft(v: StrSet, t: StrSet, n: nat, isSuffix: bool)
    requires n >= 1 && StrictlySorted(v, isSuffix) && Cuts(v, t, n, isSuffix)
    ensures LeastCuts(DropRedundant([], v, isSuffix), t, n, isSuffix)
  {
    hide IsCut, Extends, DropRedundant, StrictlySorted;
    forall w
      ensures w in DropRedundant([], v, isSuffix) <==> IsLeastCut(t, n, isSuffix, w)
    {
      DropsRedundant(v, isSuffix, w);
    }
  }

  /** simplifySet, exactly. */
  lemma SimplifiedSetIs(t: StrSet, isSuffix: bool)
    ensures Simplified(SimplifiedSet(t, isSuffix), t, isSuffix)
  {
    hide IsCut, Clean, Shrink, Extends, DropRedundant, FewCuts, LeastCuts, StrictlySorted;
    var c := Clean(t, isSuffix);
    var v := Shrink(c, 3, isSuffix);
    var n := ShrinkCuts(c, 3, isSuffix);
    ShrinkCoarser(c, 3, isSuffix);
    CleanElements(t, isSuffix);
    CutsSame(c, t, 1, isSuffix);
    CutsSame(c, t, 2, isSuffix);
    CutsSame(c, t, 3, isSuffix);
    assert Cuts(v, t, n, isSuffix);
    LeastCutsLeft(v, t, n, isSuffix);
  }

  lemma CutsSame(c: StrSet, t: StrSet, m: nat, isSuffix: bool)
    requires SameElements(c, t) && m >= 1
    ensures FewCuts(c, m, isSuffix) <==> FewCuts(t, m, isSuffix)
    ensures forall w :: IsCut(c, m, isSuffix, w) <==> IsCut(t, m, isSuffix, w)
  {
    hide CutOf, ShortenAll;
    forall w
      ensures w in ShortenAll(c, m, isSuffix) <==> w in ShortenAll(t, m, isSuffix)
    {
      CutsAre(c, m, isSuffix, w);
      CutsAre(t, m, isSuffix, w);
    }
    assert (set w | w in ShortenAll(c, m, isSuffix)) == (set w | w in ShortenAll(t, m, isSuffix));
  }

  // ---------------------------------------------------------------- infos, as sets of strings

  /** What a set demands that need not be given as a list. */
  ghost predicate DemandedOf(a: iset<Str>, s: iset<Str>) {
    (exists w :: w in a) && (forall w :: w in a ==> |w| >= 3) ==> exists w :: w in a && TrigramsOf(w) <= s
  }

  ghost predicate Lists(t: StrSet, a: iset<Str>) {
    forall w :: w in t <==> w in a
  }

  lemma DemandedList(t: StrSet, a: iset<Str>, s: iset<Str>)
    requires Lists(t, a)
    ensures Demanded(t, s) <==> DemandedOf(a, s)
  {
    hide TrigramsOf;
    assert t != [] ==> t[0] in t;
  }

  /** `u` is what simplifySet leaves of the strings in `a`. */
  ghost predicate Shortened(u: StrSet, a: iset<Str>, isSuffix: bool) {
    exists t: StrSet :: Lists(t, a) && Simplified(u, t, isSuffix)
  }

  /** The strings that words start with, and those they end with. */
  ghost function Firsts(x: RegexpInfo): iset<Str> {
    SetOf(if x.exact.Some? then x.exact.value else x.prefix)
  }

  ghost function Lasts(x: RegexpInfo): iset<Str> {
    SetOf(if x.exact.Some? then x.exact.value else x.suffix)
  }

  ghost function SetOf(t: StrSet): iset<Str> {
    iset w: Str | w in t
  }

  /** What simplify makes of an info without an exact set, in terms of the strings in its sets. */
  ghost predicate SimplifiedFrom(r: RegexpInfo, canEmpty: bool, firsts: iset<Str>, lasts: iset<Str>) {
    r.exact.None? && r.canEmpty == canEmpty && WellFormed(r.query)
    && Shortened(r.prefix, firsts, false) && Shortened(r.suffix, lasts, true)
  }

  lemma SimplifyIs(info: RegexpInfo, force: bool, firsts: iset<Str>, lasts: iset<Str>, s: iset<Str>)
    requires info.exact.None? && WellFormed(info.query) && Lists(info.prefix, firsts) && Lists(info.suffix, lasts)
    ensures var r := Simplify(info, force);
            SimplifiedFrom(r, info.canEmpty, firsts, lasts)
            && (Sat(r.query, s) <==> Sat(info.query, s) && DemandedOf(firsts, s) && DemandedOf(lasts, s))
  {
    SimplifyQueryIff(info, force, s);
    DemandedList(info.prefix, firsts, s);
    DemandedList(info.suffix, lasts, s);
    SimplifiedSetIs(info.prefix, false);
    SimplifiedSetIs(info.suffix, true);
    hide Sat, Demanded, DemandedOf, Simplified, SimplifiedSet, AndTrigrams, WellFormed, Lists;
  }

  // ---------------------------------------------------------------- concat

  ghost predicate JoinOf(w: Str, a: StrSet, b: StrSet) {
    exists u, v :: u in a && v in b && w == u + v
  }

  lemma CrossJoins(a: StrSet, b: StrSet, isSuffix: bool, w: Str)
    ensures w in Cross(a, b, isSuffix) <==> JoinOf(w, a, b)
  {
    CrossElements(a, b, isSuffix, w);
    if u, v :| u in a && v in b && w == u + v {
      ProductIn(a, b, u, v, isSuffix);
    }
  }

  /** What words of a concatenation start with: a whole word of an exact left part and what follows it, or what the left
      part starts with, or also the right one if the left one may be empty. */
  ghost function ConcatFirsts(x: RegexpInfo, y: RegexpInfo): iset<Str> {
    iset w: Str | if x.exact.Some? then JoinOf(w, x.exact.value, y.prefix)
                  else w in x.prefix || (x.canEmpty && w in y.prefix)
  }

  ghost function ConcatLasts(x: RegexpInfo, y: RegexpInfo): iset<Str> {
    iset w: Str | if y.exact.Some? then JoinOf(w, x.suffix, y.exact.value)
                  else w in y.suffix || (y.canEmpty && w in x.suffix)
  }

  /** Across the seam: if there are few enough strings on both sides and every pair is long enough, the trigrams of one
      pair must be there. */
  ghost predicate SeamDemanded(x: RegexpInfo, y: RegexpInfo, s: iset<Str>) {
    x.exact.None? && y.exact.None? && |x.suffix| <= 20 && |y.prefix| <= 20 && x.suffix != [] && y.prefix != []
    && (forall u, v :: u in x.suffix && v in y.prefix ==> |u| + |v| >= 3)
    ==> exists u, v :: u in x.suffix && v in y.prefix && TrigramsOf(u + v) <= s
  }

  lemma LeastWord(a: StrSet) returns (u: Str)
    requires a != []
    ensures u in a && |u| == MinLen(a)
  {
    var m := MinLen(a);
    u :| u in a && |u| == m;
  }

  lemma CrossMinLen(a: StrSet, b: StrSet)
    ensures a == [] || b == [] ==> MinLen(Cross(a, b, false)) == 0
    ensures a != [] && b != [] ==> MinLen(Cross(a, b, false)) == MinLen(a) + MinLen(b)
  {
    var c := Cross(a, b, false);
    if c != [] {
      var w := LeastWord(c);
      CrossJoins(a, b, false, w);
      var u', v' :| u' in a && v' in b && w == u' + v';
    }
    if a != [] && b != [] {
      var u := LeastWord(a);
      var v := LeastWord(b);
      CrossJoins(a, b, false, u + v);
    }
  }

  lemma LongPairs(a: StrSet, b: StrSet)
    requires a != [] && b != []
    ensures MinLen(a) + MinLen(b) >= 3 <==> forall u, v :: u in a && v in b ==> |u| + |v| >= 3
  {
    var u := LeastWord(a);
    var v := LeastWord(b);
    assert |u| + |v| == MinLen(a) + MinLen(b);
  }

  /** The source's test for the seam, and what it adds. */
  lemma SeamSat(x: RegexpInfo, y: RegexpInfo, q: Query, s: iset<Str>)
    requires WellFormed(q) && x.exact.None? && y.exact.None?
    ensures var q' := if |x.suffix| <= maxSet && |y.prefix| <= maxSet && MinLen(x.suffix) + MinLen(y.prefix) >= 3
                      then AndTrigrams(q, Cross(x.suffix, y.prefix, false)) else q;
            WellFormed(q') && (Sat(q', s) <==> Sat(q, s) && SeamDemanded(x, y, s))
  {
    var c := Cross(x.suffix, y.prefix, false);
    AndTrigramsSat(q, c, s);
    SeamIs(x, y, s);
    hide Sat, SomeString, AndTrigrams, Cross, WellFormed, SeamDemanded, MinLen;
    CrossMinLen(x.suffix, y.prefix);
  }

  lemma SeamIs(x: RegexpInfo, y: RegexpInfo, s: iset<Str>)
    requires x.exact.None? && y.exact.None?
    ensures SeamDemanded(x, y, s) <==>
            (!(|x.suffix| <= 20 && |y.prefix| <= 20 && x.suffix != [] && y.prefix != []
               && MinLen(x.suffix) + MinLen(y.prefix) >= 3)
             || SomeString(Cross(x.suffix, y.prefix, false), s))
  {
    var a, b := x.suffix, y.prefix;
    SomeJoin(a, b, s);
    if a != [] && b != [] {
      LongPairs(a, b);
    }
    hide SomeString, Cross, TrigramsOf, MinLen;
  }

  lemma SomeJoin(a: StrSet, b: StrSet, s: iset<Str>)
    ensures SomeString(Cross(a, b, false), s) <==> exists u, v :: u in a && v in b && TrigramsOf(u + v) <= s
  {
    hide Cross, TrigramsOf;
    var c := Cross(a, b, false);
    if SomeString(c, s) {
      var w :| w in c && TrigramsOf(w) <= s;
      CrossJoins(a, b, false, w);
      var u, v :| u in a && v in b && w == u + v;
      assert TrigramsOf(u + v) <= s;
    }
    if u, v :| u in a && v in b && TrigramsOf(u + v) <= s {
      CrossJoins(a, b, false, u + v);
    }
  }

  lemma RawConcatIs(x: RegexpInfo, y: RegexpInfo, s: iset<Str>)
    requires WellFormed(x.query) && WellFormed(y.query) && !(x.exact.Some? && y.exact.Some?)
    ensures var r := RawConcat(x, y);
            r.exact.None? && !r.canEmpty && WellFormed(r.query)
            && Lists(r.prefix, ConcatFirsts(x, y)) && Lists(r.suffix, ConcatLasts(x, y))
            && (Sat(r.query, s) <==> Sat(x.query, s) && Sat(y.query, s) && SeamDemanded(x, y, s))
  {
    var q := AndOr(x.query, y.query, QAnd);
    WellFormedBare(x.query);
    WellFormedBare(y.query);
    AndOrSat(x.query, y.query, QAnd, s);
    AndOrWellFormed(x.query, y.query, QAnd);
    RawConcatLists(x, y);
    if x.exact.None? && y.exact.None? {
      SeamSat(x, y, q, s);
    }
    hide AndOr, Sat, WellFormed, ConcatFirsts, ConcatLasts, Lists, AndTrigrams, Cross, Union;
  }

  lemma RawConcatLists(x: RegexpInfo, y: RegexpInfo)
    requires !(x.exact.Some? && y.exact.Some?)
    ensures Lists(RawConcat(x, y).prefix, ConcatFirsts(x, y)) && Lists(RawConcat(x, y).suffix, ConcatLasts(x, y))
  {
    hide AndOr, AndTrigrams, Cross;
    forall w
      ensures w in RawConcat(x, y).prefix <==> w in ConcatFirsts(x, y)
      ensures w in RawConcat(x, y).suffix <==> w in ConcatLasts(x, y)
    {
      if x.exact.Some? {
        CrossJoins(x.exact.value, y.prefix, false, w);
      }
      if y.exact.Some? {
        CrossJoins(x.suffix, y.exact.value, true, w);
      }
    }
  }

  /** A concatenation that is not exact: its query holds just when those of both parts do, one of the pairs across the
      seam is there, and what words start and end with is there as far as it is cut off. */
  lemma ConcatIs(x: RegexpInfo, y: RegexpInfo, s: iset<Str>)
    requires WellFormed(x.query) && WellFormed(y.query) && !(x.exact.Some? && y.exact.Some?)
    ensures var r := ConcatInfo(x, y);
            SimplifiedFrom(r, false, ConcatFirsts(x, y), ConcatLasts(x, y))
            && (Sat(r.query, s) <==> Sat(x.query, s) && Sat(y.query, s) && SeamDemanded(x, y, s)
                                     && DemandedOf(ConcatFirsts(x, y), s) && DemandedOf(ConcatLasts(x, y), s))
  {
    hide RawConcat, Sat, WellFormed, ConcatFirsts, ConcatLasts, Lists, SimplifiedFrom, Simplify, SeamDemanded, DemandedOf;
    RawConcatIs(x, y, s);
    SimplifyIs(RawConcat(x, y), false, ConcatFirsts(x, y), ConcatLasts(x, y), s);
  }

  /** Two parts without exact sets, as analyze leaves them, with at most two bytes in each of their strings. */
  lemma ConcatQueryIff(x: RegexpInfo, y: RegexpInfo, s: iset<Str>)
    requires WellFormed(x.query) && WellFormed(y.query) && x.exact.None? && y.exact.None? && Limited(x) && Limited(y)
    ensures Sat(ConcatInfo(x, y).query, s) <==> Sat(x.query, s) && Sat(y.query, s) && SeamDemanded(x, y, s)
  {
    ConcatIs(x, y, s);
    hide Sat, SeamDemanded, WellFormed, ConcatInfo;
    assert DemandedOf(ConcatFirsts(x, y), s) && DemandedOf(ConcatLasts(x, y), s);
  }

  /** Two exact parts: the words joined are again exact, or given up as any exact set is. */
  lemma ConcatExactIs(x: RegexpInfo, y: RegexpInfo)
    requires Limited(x) && Limited(y) && x.exact.Some? && y.exact.Some?
    ensures exists t :: (forall w :: w in t <==> JoinOf(w, x.exact.value, y.exact.value))
                        && ConcatInfo(x, y) == Simplify(ExactInfo(t), false)
  {
    var t := Cross(x.exact.value, y.exact.value, false);
    forall w
      ensures w in t <==> JoinOf(w, x.exact.value, y.exact.value)
    {
      CrossJoins(x.exact.value, y.exact.value, false, w);
    }
    AllJoined();
    assert x.query == AllQuery && y.query == AllQuery;
    hide Cross, Simplify, JoinOf, AndOr, Limited;
    assert RawConcat(x, y) == ExactInfo(t);
  }

  // ---------------------------------------------------------------- alternate

  /** A branch is there: its query holds, and one of its words if they are known. */
  ghost predicate BranchDemanded(x: RegexpInfo, s: iset<Str>) {
    Sat(x.query, s) && (x.exact.Some? ==> Demanded(x.exact.value, s))
  }

  lemma BranchSat(x: RegexpInfo, s: iset<Str>)
    requires WellFormed(x.query)
    ensures WellFormed(AddExact(x).query) && (Sat(AddExact(x).query, s) <==> BranchDemanded(x, s))
  {
    if x.exact.Some? {
      AndTrigramsSat(x.query, x.exact.value, s);
      DemandedIs(x.exact.value, s);
    }
  }

  lemma RawAlternateIs(x: RegexpInfo, y: RegexpInfo, s: iset<Str>)
    requires WellFormed(x.query) && WellFormed(y.query) && !(x.exact.Some? && y.exact.Some?)
    ensures var r := RawAlternate(x, y);
            r.exact.None? && r.canEmpty == (x.canEmpty || y.canEmpty) && WellFormed(r.query)
            && Lists(r.prefix, Firsts(x) + Firsts(y)) && Lists(r.suffix, Lasts(x) + Lasts(y))
            && (Sat(r.query, s) <==> BranchDemanded(x, s) || BranchDemanded(y, s))
  {
    BranchSat(x, s);
    BranchSat(y, s);
    OrSat(AddExact(x).query, AddExact(y).query, s);
    RawAlternateLists(x, y);
    hide AndOr, Sat, WellFormed, AndTrigrams, Demanded, BranchDemanded, Lists, Union, Firsts, Lasts;
  }

  lemma OrSat(q: Query, r: Query, s: iset<Str>)
    requires WellFormed(q) && WellFormed(r)
    ensures WellFormed(AndOr(q, r, QOr)) && (Sat(AndOr(q, r, QOr), s) <==> Sat(q, s) || Sat(r, s))
  {
    WellFormedBare(q);
    WellFormedBare(r);
    AndOrSat(q, r, QOr, s);
    AndOrWellFormed(q, r, QOr);
  }

  lemma RawAlternateLists(x: RegexpInfo, y: RegexpInfo)
    requires !(x.exact.Some? && y.exact.Some?)
    ensures Lists(RawAlternate(x, y).prefix, Firsts(x) + Firsts(y)) && Lists(RawAlternate(x, y).suffix, Lasts(x) + Lasts(y))
  {
    hide AndOr, AndTrigrams;
  }

  /** An alternation that is not exact. */
  lemma AlternateIs(x: RegexpInfo, y: RegexpInfo, s: iset<Str>)
    requires WellFormed(x.query) && WellFormed(y.query) && !(x.exact.Some? && y.exact.Some?)
    ensures var r := AlternateInfo(x, y);
            SimplifiedFrom(r, x.canEmpty || y.canEmpty, Firsts(x) + Firsts(y), Lasts(x) + Lasts(y))
            && (Sat(r.query, s) <==> (BranchDemanded(x, s) || BranchDemanded(y, s))
                                     && DemandedOf(Firsts(x) + Firsts(y), s) && DemandedOf(Lasts(x) + Lasts(y), s))
  {
    hide RawAlternate, Sat, WellFormed, Firsts, Lasts, Lists, SimplifiedFrom, Simplify, BranchDemanded, DemandedOf;
    RawAlternateIs(x, y, s);
    SimplifyIs(RawAlternate(x, y), false, Firsts(x) + Firsts(y), Lasts(x) + Lasts(y), s);
  }

  lemma AlternateExactIs(x: RegexpInfo, y: RegexpInfo)
    requires Limited(x) && Limited(y) && x.exact.Some? && y.exact.Some?
    ensures exists t :: (forall w :: w in t <==> w in x.exact.value || w in y.exact.value)
                        && AlternateInfo(x, y) == Simplify(ExactInfo(t).(canEmpty := x.canEmpty || y.canEmpty), false)
  {
    hide Union, Simplify, RawAlternate;
    RawAlternateExact(x, y);
    var t := Union(x.exact.value, y.exact.value, false);
    assert forall w :: w in t <==> w in x.exact.value || w in y.exact.value;
  }

  lemma RawAlternateExact(x: RegexpInfo, y: RegexpInfo)
    requires Limited(x) && Limited(y) && x.exact.Some? && y.exact.Some?
    ensures RawAlternate(x, y) ==
            ExactInfo(Union(x.exact.value, y.exact.value, false)).(canEmpty := x.canEmpty || y.canEmpty)
  {
    AllJoined();
    hide Union, AndOr;
  }

  lemma AllJoined()
    ensures AndOr(AllQuery, AllQuery, QOr) == AllQuery && AndOr(AllQuery, AllQuery, QAnd) == AllQuery
  {
  }

  // ---------------------------------------------------------------- plus

  /** One or more copies start and end as one does, and demand what one demands; words that are known do not stay so. */
  lemma PlusIs(x: RegexpInfo, s: iset<Str>)
    requires WellFormed(x.query)
    ensures var r := AnalyzePlus(x);
            SimplifiedFrom(r, x.canEmpty, Firsts(x), Lasts(x))
            && (Sat(r.query, s) <==> Sat(x.query, s) && DemandedOf(Firsts(x), s) && DemandedOf(Lasts(x), s))
  {
    var y := if x.exact.Some? then x.(prefix := x.exact.value, suffix := x.exact.value, exact := None) else x;
    assert Lists(y.prefix, Firsts(x)) && Lists(y.suffix, Lasts(x));
    assert AnalyzePlus(x) == Simplify(y, false);
    hide Sat, WellFormed, Firsts, Lasts, Lists, SimplifiedFrom, Simplify, DemandedOf, AnalyzePlus;
    SimplifyIs(y, false, Firsts(x), Lasts(x), s);
  }

  // ---------------------------------------------------------------- trees

  /** What analyze makes of a tree has a query that evaluation can handle, and keeps the limits. */
  lemma AnalyzeFit(re: Regexp, orbit: Orbit)
    requires Parsed(re)
    ensures WellFormed(Analyze(re, orbit).query) && Limited(Analyze(re, orbit))
  {
    AnalyzeSound(re, orbit);
    AnalyzeLimits(re, orbit);
    hide Analyze, LangOf, Covers, QueryCovers, Limited, WellFormed;
  }

  /** Trees about which nothing is known: any text passes, and words start and end with nothing in particular. */
  ghost predicate Unknown(info: RegexpInfo) {
    info.exact.None? && info.prefix == [[]] && info.suffix == [[]] && forall s :: Sat(info.query, s)
  }

  lemma UnknownTrees(x: Regexp, max: int, orbit: Orbit)
    ensures Unknown(Analyze(AnyChar, orbit)) && Unknown(Analyze(AnyCharNotNL, orbit))
    ensures Unknown(Analyze(Star(x), orbit)) && Unknown(Analyze(Repeat(x, 0, max), orbit))
  {
    hide AlternateInfo, AnalyzePlus, AnalyzeLiteral, AnalyzeClass, FoldConcat, FoldAlternate;
    assert Unknown(AnyMatch) && Unknown(AnyCharInfo);
  }

  /** Zero-width trees match the empty string, and a tree without words can never match. */
  lemma FixedTrees(re: Regexp, orbit: Orbit, s: iset<Str>)
    ensures re in {EmptyMatch, BeginLine, EndLine, BeginText, EndText, WordBoundary, NoWordBoundary} ==>
              Analyze(re, orbit) == EmptyString
    ensures !Sat(Analyze(NoMatch, orbit).query, s)
  {
  }

  /** How trees reduce to others: a capture is its subtree, x? is x or nothing, and counts above one do not matter. */
  lemma SameTrees(x: Regexp, min: nat, max: int, orbit: Orbit)
    ensures Analyze(Capture(x), orbit) == Analyze(x, orbit)
    ensures Analyze(Quest(x), orbit) == Analyze(Alternate([x, EmptyMatch]), orbit)
    ensures min > 0 ==> Analyze(Repeat(x, min, max), orbit) == Analyze(Plus(x), orbit)
  {
    hide *;
    QuestAnalysed(x, orbit);
    CaptureAnalysed(x, orbit);
    RepeatAnalysed(x, min, max, orbit);
    ListTrees([], x, orbit);
    ListTrees([x], EmptyMatch, orbit);
    assert [x] + [EmptyMatch] == [x, EmptyMatch];
  }

  lemma CaptureAnalysed(x: Regexp, orbit: Orbit)
    ensures Analyze(Capture(x), orbit) == Analyze(x, orbit) && Analyze(EmptyMatch, orbit) == EmptyString
  {
    hide AlternateInfo, AnalyzePlus, AnalyzeLiteral, AnalyzeClass, FoldConcat, FoldAlternate;
  }

  lemma QuestAnalysed(x: Regexp, orbit: Orbit)
    ensures Analyze(Quest(x), orbit) == AlternateInfo(Analyze(x, orbit), EmptyString)
  {
    hide AlternateInfo, AnalyzePlus, AnalyzeLiteral, AnalyzeClass, FoldConcat, FoldAlternate;
  }

  lemma RepeatAnalysed(x: Regexp, min: nat, max: int, orbit: Orbit)
    ensures min > 0 ==> Analyze(Repeat(x, min, max), orbit) == Analyze(Plus(x), orbit)
  {
    hide AlternateInfo, AnalyzePlus, AnalyzeLiteral, AnalyzeClass, FoldConcat, FoldAlternate;
  }

  /** Lists are joined from the left. */
  lemma ListTrees(xs: seq<Regexp>, y: Regexp, orbit: Orbit)
    ensures Analyze(Concat([]), orbit) == Analyze(EmptyMatch, orbit)
    ensures Analyze(Alternate([]), orbit) == Analyze(NoMatch, orbit)
    ensures Analyze(Concat([y]), orbit) == Analyze(y, orbit) == Analyze(Alternate([y]), orbit)
    ensures xs != [] ==> Analyze(Concat(xs + [y]), orbit) == ConcatInfo(Analyze(Concat(xs), orbit), Analyze(y, orbit))
    ensures xs != [] ==>
              Analyze(Alternate(xs + [y]), orbit) == AlternateInfo(Analyze(Alternate(xs), orbit), Analyze(y, orbit))
  {
    hide *;
    FoldsAlternate([], orbit);
    FoldsAlternate([y], orbit);
    FoldsAlternate(xs, orbit);
    FoldsAlternate(xs + [y], orbit);
    FoldNext(xs, y, orbit);
    NoParts(orbit);
  }

  lemma NoParts(orbit: Orbit)
    ensures Analyze(Concat([]), orbit) == Analyze(EmptyMatch, orbit)
    ensures Analyze(Alternate([]), orbit) == Analyze(NoMatch, orbit)
  {
  }

  lemma PlusTree(x: Regexp, orbit: Orbit, s: iset<Str>)
    requires Parsed(x)
    ensures var i, r := Analyze(x, orbit), Analyze(Plus(x), orbit);
            SimplifiedFrom(r, i.canEmpty, Firsts(i), Lasts(i))
            && (Sat(r.query, s) <==> Sat(i.query, s) && DemandedOf(Firsts(i), s) && DemandedOf(Lasts(i), s))
  {
    hide *;
    AnalyzeFit(x, orbit);
    PlusIs(Analyze(x, orbit), s);
    PlusAnalysed(x, orbit);
  }

  lemma PlusAnalysed(x: Regexp, orbit: Orbit)
    ensures Analyze(Plus(x), orbit) == AnalyzePlus(Analyze(x, orbit))
  {
    hide AlternateInfo, AnalyzePlus, AnalyzeLiteral, AnalyzeClass, FoldConcat, FoldAlternate;
  }

  /** The number of runes in a class, counted range by range, is what the source compares with its limit. */
  lemma {:induction false} SpreadCounts(ranges: seq<rune>)
    requires |ranges| % 2 == 0 && RangesInOrder(ranges)
    ensures |ClassStrings(ranges)| == ClassSpread(ranges) + |ranges| / 2
  {
    var n := |ranges|;
    if n >= 2 {
      var rest := ranges[..n - 2];
      assert RuneRanges.Low(ranges, n / 2 - 1) == ranges[n - 2] && RuneRanges.High(ranges, n / 2 - 1) == ranges[n - 1];
      assert forall j :: 0 <= j < |rest| / 2 ==>
        RuneRanges.Low(rest, j) == RuneRanges.Low(ranges, j) && RuneRanges.High(rest, j) == RuneRanges.High(ranges, j);
      SpreadCounts(rest);
      RangeCounts(ranges[n - 2], ranges[n - 1]);
    }
  }

  lemma {:induction false} RangeCounts(lo: rune, hi: rune)
    requires lo <= hi + 1
    ensures |RangeStrings(lo, hi)| == hi - lo + 1
    decreases hi - lo
  {
    if lo <= hi {
      RangeCounts(lo + 1, hi);
    }
  }

  ghost predicate ClassWord(ranges: seq<rune>, w: Str) {
    if |ranges| == 1 then w == EncodeRune(ranges[0]) else InClass(ranges, w)
  }

  ghost predicate SpellsOut(t: StrSet, ranges: seq<rune>) {
    forall w :: w in t <==> ClassWord(ranges, w)
  }

  /** A class is spelt out unless its ranges hold more than a hundred runes besides their first ones. */
  lemma ClassTree(ranges: seq<rune>, orbit: Orbit)
    requires Parsed(CharClass(ranges)) && (|ranges| == 1 || (|ranges| > 0 && |ranges| % 2 == 0))
    ensures var r := Analyze(CharClass(ranges), orbit);
            if |ranges| > 1 && ClassSpread(ranges) > 100 then r == Analyze(AnyChar, orbit)
            else exists t :: SpellsOut(t, ranges) && r == Simplify(ExactInfo(t), false)
  {
    hide *;
    ClassAnalysed(ranges, orbit);
    if !(|ranges| > 1 && ClassSpread(ranges) > 100) {
      ClassSpelt(ranges);
    }
  }

  function ClassList(ranges: seq<rune>): StrSet
    requires |ranges| > 0
  {
    if |ranges| == 1 then [EncodeRune(ranges[0])] else ClassStrings(ranges)
  }

  lemma ClassAnalysed(ranges: seq<rune>, orbit: Orbit)
    requires |ranges| > 0
    ensures Analyze(CharClass(ranges), orbit) ==
            if |ranges| > 1 && ClassSpread(ranges) > 100 then Analyze(AnyChar, orbit)
            else Simplify(ExactInfo(ClassList(ranges)), false)
  {
    hide Simplify, EncodeRune, ClassStrings, ClassSpread, AnalyzeLiteral, FoldConcat, FoldAlternate;
  }

  lemma ClassSpelt(ranges: seq<rune>)
    requires |ranges| == 1 || (|ranges| > 0 && |ranges| % 2 == 0)
    ensures SpellsOut(ClassList(ranges), ranges)
  {
    hide InClass, EncodeRune, ClassStrings;
    forall w
      ensures w in ClassList(ranges) <==> ClassWord(ranges, w)
    {
      if |ranges| > 1 {
        ClassStringsElements(ranges, w);
      }
    }
  }

  /** A literal is known as it is up to three bytes; a longer one is its trigrams and its ends. */
  lemma LiteralTree(runes: seq<rune>, orbit: Orbit, s: iset<Str>)
    ensures var w, r := EncodeRunes(runes), Analyze(Literal(runes, false), orbit);
            if |w| <= 3 then r == ExactInfo([w])
            else SimplifiedFrom(r, false, iset{w[..2]}, iset{w[|w| - 2..]}) && (Sat(r.query, s) <==> TrigramsOf(w) <= s)
  {
    hide *;
    var w := EncodeRunes(runes);
    LiteralAnalysed(runes, orbit);
    if |w| > 3 {
      LongLiteral(w, s);
    } else {
      ShortLiteral(w);
    }
  }

  lemma ShortLiteral(w: Str)
    requires |w| <= 3
    ensures Simplify(ExactInfo([w]), false) == ExactInfo([w])
  {
    assert Clean([w], false) == [w] && MinLen([w]) == |w|;
    hide Clean, MinLen;
  }

  lemma LongLiteral(w: Str, s: iset<Str>)
    requires |w| > 3
    ensures var r := Simplify(ExactInfo([w]), false);
            SimplifiedFrom(r, false, iset{w[..2]}, iset{w[|w| - 2..]}) && (Sat(r.query, s) <==> TrigramsOf(w) <= s)
  {
    SingleWord(w, s);
    var f := Flush(ExactInfo([w]), false);
    FlushedWord(w);
    AndTrigramsSat(AllQuery, [w], s);
    hide Flush, AndTrigrams, Clean, MinLen, SomeString, SimplifiedSet, SimplifySets, TrigramsOf, SimplifiedFrom, DemandedOf;
    SimplifyIs(f, false, iset{w[..2]}, iset{w[|w| - 2..]}, s);
    ShortOnly(w[..2], s);
    ShortOnly(w[|w| - 2..], s);
    FlushedSimplify(f);
  }

  lemma FlushedWord(w: Str)
    requires |w| > 3
    ensures var f := Flush(ExactInfo([w]), false);
            f.exact.None? && !f.canEmpty && f.prefix == [w[..2]] && f.suffix == [w[|w| - 2..]]
            && f.query == AndTrigrams(AllQuery, [w])
  {
    assert Clean([w], false) == [w] && MinLen([w]) == |w|;
    hide AndTrigrams;
    assert Heads([w]) == [w[..2]] && Tails([w]) == [w[|w| - 2..]];
  }

  lemma FlushedSimplify(f: RegexpInfo)
    requires f.exact.None?
    ensures Simplify(f, false) == SimplifySets(f)
  {
    hide SimplifySets;
  }

  lemma ShortOnly(v: Str, s: iset<Str>)
    requires |v| <= 2
    ensures DemandedOf(iset{v}, s)
  {
    assert v in iset{v};
  }

  /** Folded letters: one alone is the class of its orbit, and each further one is joined from the left. */
  lemma FoldedTree(runes: seq<rune>, r: rune, orbit: Orbit)
    ensures Analyze(Literal([r], true), orbit) == Analyze(CharClass(OrbitRanges([r] + orbit(r))), orbit)
    ensures |runes| == 1 ==>
              Analyze(Literal(runes + [r], true), orbit) ==
              ConcatInfo(ConcatInfo(EmptyString, Analyze(Literal(runes, true), orbit)), Analyze(Literal([r], true), orbit))
    ensures |runes| > 1 ==>
              Analyze(Literal(runes + [r], true), orbit) ==
              ConcatInfo(Analyze(Literal(runes, true), orbit), Analyze(Literal([r], true), orbit))
  {
    hide ConcatInfo, AnalyzeClass;
    var more := runes + [r];
    assert more[..|more| - 1] == runes && more[|more| - 1] == r;
    if |runes| == 1 {
      assert runes[..0] == [];
      assert AnalyzeFoldedRunes(runes, orbit) == ConcatInfo(AnalyzeFoldedRunes([], orbit), AnalyzeFoldedRune(runes[0], orbit));
    }
  }

  /** The last step: words that are still known demand their trigrams. */
  lemma FinalTree(re: Regexp, orbit: Orbit, s: iset<Str>)
    requires Parsed(re)
    ensures var r := Analyze(re, orbit);
            Sat(RegexpQuery(re, orbit), s) <==>
            if r.exact.Some? then Demanded(r.exact.value, s) else Sat(r.query, s)
  {
    var r := Analyze(re, orbit);
    AnalyzeFit(re, orbit);
    FinalIs(re, orbit);
    hide Analyze, RegexpQuery, FinalQuery, Sat, SomeString, Demanded;
    if r.exact.Some? {
      ExactQueryPrecise(re, orbit, s);
      DemandedIs(r.exact.value, s);
    } else {
      FinalFromSets(r);
    }
  }
}
