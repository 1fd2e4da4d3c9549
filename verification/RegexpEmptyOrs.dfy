/** An ordinary regexp whose query has empty Or nodes inside (index/regexp.go, analyze and andOr together). */
module RegexpEmptyOrs {
  import opened Bytes
  import opened Utf8
  import opened StringSets
  import opened Queries
  import opened RegexpSyntax
  import opened RegexpAnalysis
  import opened RegexpSoundness
  import opened RegexpTheorems

  const Aab: Str := [97, 97, 98]
  const Baa: Str := [98, 97, 97]
  const BaaAab := Query(QOr, [Baa, Aab], [])

  /** The tree of `aab|baa`. */
  const AabOrBaa := Alternate([Literal([97, 97, 98], false), Literal([98, 97, 97], false)])

  /** The tree of `.(aab|baa).(aab|baa)`. */
  const AabOrBaaTwice := Concat([AnyChar, AabOrBaa, AnyChar, AabOrBaa])

  lemma WordInfo(w: Str)
    requires |w| == 3
    ensures Simplify(ExactInfo([w]), false) == ExactInfo([w])
  {
    assert Clean([w], false) == [w] && MinLen([w]) == 3;
  }

  lemma CleanTwo(x: Str, y: Str, isSuffix: bool)
    requires x != y
    ensures Clean([x, y], isSuffix) == if Before(x, y, isSuffix) then [x, y] else [y, x]
  {
    assert [x, y][1..] == [y] && [y][1..] == [];
    assert Clean([y], isSuffix) == [y];
    assert Insert(x, [y], isSuffix) == if Before(x, y, isSuffix) then [x] + [y] else [y] + Insert(x, [], isSuffix);
  }

  lemma TwoWords()
    ensures Clean([Aab, Baa], false) == [Aab, Baa] && Clean([Aab, Baa], true) == [Baa, Aab] == Clean([Baa, Aab], true)
    ensures MinLen([Aab, Baa]) == 3 && MinLen([Baa, Aab]) == 3
  {
    CleanTwo(Aab, Baa, false);
    CleanTwo(Aab, Baa, true);
    CleanTwo(Baa, Aab, true);
    assert Less(Aab, Baa);
    assert SuffixLess(Baa, Aab) && !SuffixLess(Aab, Baa);
    assert MinLen([Aab]) == 3 && MinLen([Baa]) == 3;
  }

  lemma WordAnalysed(w: seq<rune>, x: Str, orbit: Orbit)
    requires EncodeRunes(w) == x && |x| == 3
    ensures Analyze(Literal(w, false), orbit) == ExactInfo([x])
  {
    WordInfo(x);
    hide Simplify, EncodeRunes;
  }

  lemma WordsUnited()
    ensures RawAlternate(ExactInfo([Aab]), ExactInfo([Baa])) == ExactInfo([Aab, Baa])
  {
    TwoWords();
    hide Clean;
    assert [Aab] + [Baa] == [Aab, Baa];
  }

  lemma AabOrBaaInfo(orbit: Orbit)
    ensures Analyze(AabOrBaa, orbit) == ExactInfo([Aab, Baa])
  {
    var xs := AabOrBaa.subs;
    AsciiRunes(97, 97, 98);
    AsciiRunes(98, 97, 97);
    hide Simplify, EncodeRunes, RawAlternate, AnalyzeLiteral;
    WordAnalysed(xs[0].runes, Aab, orbit);
    WordAnalysed(xs[1].runes, Baa, orbit);
    WordsUnited();
    ExactStays();
    TwoBranches(xs[0], xs[1], orbit);
  }

  lemma TwoBranches(x: Regexp, y: Regexp, orbit: Orbit)
    ensures Analyze(Alternate([x, y]), orbit) == AlternateInfo(Analyze(x, orbit), Analyze(y, orbit))
  {
    hide *;
    FoldNext([], x, orbit);
    FoldNext([x], y, orbit);
    assert [x] + [y] == [x, y];
    FoldsAlternate([x, y], orbit);
  }

  lemma FourParts(x: Regexp, y: Regexp, orbit: Orbit)
    ensures var a, b := Analyze(x, orbit), Analyze(y, orbit);
            Analyze(Concat([x, y, x, y]), orbit) == ConcatInfo(ConcatInfo(ConcatInfo(a, b), a), b)
  {
    hide *;
    FoldNext([], x, orbit);
    FoldNext([x], y, orbit);
    FoldNext([x, y], x, orbit);
    FoldNext([x, y, x], y, orbit);
    assert [x] + [y] == [x, y] && [x, y] + [x] == [x, y, x] && [x, y, x] + [y] == [x, y, x, y];
    FoldsAlternate([x, y, x, y], orbit);
  }

  lemma ExactStays()
    ensures Simplify(ExactInfo([Aab, Baa]), false) == ExactInfo([Aab, Baa])
  {
    TwoWords();
    hide Clean, MinLen;
  }

  ghost predicate Short(t: StrSet) {
    forall w :: w in t ==> |w| <= 2
  }

  lemma ShortMin(t: StrSet)
    requires Short(t)
    ensures MinLen(t) < 3
  {
  }

  /** Concatenating any character: its suffix is the empty string, and the query stays. */
  lemma ThenAny(x: RegexpInfo)
    requires x.exact.None? && Short(x.prefix) && Short(x.suffix) && !x.canEmpty
    ensures var r := ConcatInfo(x, AnyCharInfo);
            r.exact.None? && !r.canEmpty && Short(r.prefix) && r.suffix == [[]] && r.query == AndOr(x.query, AllQuery, QAnd)
  {
    ShortMin(x.suffix);
    assert MinLen([[]]) == 0;
    var raw := RawConcat(x, AnyCharInfo);
    assert raw == RegexpInfo(false, None, x.prefix, [[]], AndOr(x.query, AllQuery, QAnd));
    ShortSetsKeepQuery(raw);
    SimplifiedSetReduced(raw.prefix, false);
    EmptySuffix();
  }

  lemma EmptySuffix()
    ensures SimplifiedSet([[]], true) == [[]]
  {
    var e: StrSet := [[]];
    assert Clean(e, true) == e;
    assert ShortenAll(e, 3, true) == e;
    assert Shrink(e, 3, true) == e;
    assert e[1..] == [] && [] + [e[0]] == e;
    assert DropRedundant([], e, true) == DropRedundant(e, [], true);
  }

  lemma QueryOfTwo()
    ensures OrOfAnds([Baa, Aab]) == BaaAab
  {
    assert Windows(Baa) == [Baa] && Windows(Aab) == [Aab] by {
      assert Windows(Baa[..2]) == [] && Windows(Aab[..2]) == [];
    }
    assert AndOfTrigrams(Baa) == Query(QAnd, [Baa], []) && AndOfTrigrams(Aab) == Query(QAnd, [Aab], []);
    assert [Baa, Aab][..1] == [Baa] && [Baa][..0] == [];
    assert OrOfAnds([Baa]) == Query(QAnd, [Baa], []);
    assert Less(Aab, Baa);
    AndOrKeepsEmptyOr(Aab, Baa);
  }

  /** Concatenating the two words behind an empty suffix: they are recorded in the order of suffixes. */
  lemma ThenWords(x: RegexpInfo)
    requires x.exact.None? && Short(x.prefix) && x.suffix == [[]] && !x.canEmpty
    ensures var r := ConcatInfo(x, ExactInfo([Aab, Baa]));
            r.exact.None? && !r.canEmpty && Short(r.prefix) && Short(r.suffix)
            && r.query == AndOr(AndOr(x.query, AllQuery, QAnd), BaaAab, QAnd)
  {
    RawWords(x);
    var raw := RawConcat(x, ExactInfo([Aab, Baa]));
    TwoWords();
    QueryOfTwo();
    hide RawConcat, OrOfAnds, Clean, SimplifiedSet, AndOr;
    ShortMin(Clean(raw.prefix, false));
    SimplifiedSetReduced(raw.prefix, false);
    SimplifiedSetReduced(raw.suffix, true);
  }

  lemma ProductsUnit(t: StrSet)
    ensures Products([[]], t) == t
  {
    var e: StrSet := [[]];
    var row := seq(|t|, j requires 0 <= j < |t| => e[0] + t[j]);
    assert forall j :: 0 <= j < |t| ==> row[j] == [] + t[j] == t[j];
    assert row == t;
    assert Products(e, t) == row + Products(e[1..], t) && e[1..] == [];
  }

  lemma RawWords(x: RegexpInfo)
    requires x.exact.None? && x.suffix == [[]] && !x.canEmpty
    ensures RawConcat(x, ExactInfo([Aab, Baa])) ==
            RegexpInfo(false, None, x.prefix, [Baa, Aab], AndOr(x.query, AllQuery, QAnd))
  {
    var words := [Aab, Baa];
    ProductsUnit(words);
    TwoWords();
    hide AndOr, Products, Clean;
  }

  /** An ordinary regexp whose query has an And of two empty Ors inside: the second pair of words is joined with the
      first one's list, which is not in order. */
  lemma EmptyOrsArise(orbit: Orbit)
    ensures var e := Query(QOr, [], []);
            RegexpQuery(AabOrBaaTwice, orbit) == Query(QOr, [Baa, Aab], [Query(QAnd, [], [e, e])])
  {
    hide Analyze, ConcatInfo, RegexpQuery, FinalQuery, Limited, AndOr;
    var words := Analyze(AabOrBaa, orbit);
    AabOrBaaInfo(orbit);
    var c1 := ConcatInfo(Analyze(AnyChar, orbit), words);
    var c2 := ConcatInfo(c1, Analyze(AnyChar, orbit));
    var c3 := ConcatInfo(c2, words);
    FourParts(AnyChar, AabOrBaa, orbit);
    AnyCharAnalysed(orbit);
    ThenWords(AnyCharInfo);
    ThenAny(c1);
    ThenWords(c2);
    JoinedQueries();
    AnalyzeLimits(AabOrBaaTwice, orbit);
    FinalFromSets(c3);
    FinalIs(AabOrBaaTwice, orbit);
  }

  lemma AnyCharAnalysed(orbit: Orbit)
    ensures Analyze(AnyChar, orbit) == AnyCharInfo && AnyCharInfo.exact.None? && !AnyCharInfo.canEmpty
    ensures Short(AnyCharInfo.prefix) && AnyCharInfo.suffix == [[]] && AnyCharInfo.query == AllQuery
  {
  }

  lemma JoinedQueries()
    ensures AndOr(AndOr(AllQuery, AllQuery, QAnd), BaaAab, QAnd) == BaaAab
    ensures AndOr(BaaAab, AllQuery, QAnd) == BaaAab
    ensures var e := Query(QOr, [], []);
            AndOr(BaaAab, BaaAab, QAnd) == Query(QOr, [Baa, Aab], [Query(QAnd, [], [e, e])])
  {
    assert Less(Aab, Baa);
    AndOrKeepsEmptyOr(Aab, Baa);
  }
}
