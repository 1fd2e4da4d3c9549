/** The main results about index/regexp.go: analyze keeps its invariants on every tree, and
    RegexpQuery is conservative. */
module RegexpTheorems {
  import opened Bytes
  import opened Utf8
  import RuneRanges
  import opened StringSets
  import opened Queries
  import opened RegexpSyntax
  import opened RegexpAnalysis
  import opened RegexpSoundness

  // ---------------------------------------------------------------- classes

  lemma {:induction false} RangeStringsElements(lo: rune, hi: rune, w: Str)
    ensures w in RangeStrings(lo, hi) <==> exists r :: lo <= r <= hi && w == EncodeRune(r)
    decreases hi - lo
  {
    if lo <= hi {
      RangeStringsElements(lo + 1, hi, w);
    }
  }

  /** The encodings of the runes of a class. */
  ghost predicate InClass(ranges: seq<rune>, w: Str) {
    exists i: nat, r: rune :: InRange(ranges, i, r) && w == EncodeRune(r)
  }

  lemma ClassSplit(ranges: seq<rune>, w: Str)
    requires |ranges| % 2 == 0 && |ranges| >= 2
    ensures var n := |ranges|;
            InClass(ranges, w) <==>
            InClass(ranges[..n - 2], w) || exists r :: ranges[n - 2] <= r <= ranges[n - 1] && w == EncodeRune(r)
  {
    hide EncodeRune;
    var n := |ranges|;
    var rest := ranges[..n - 2];
    if InClass(ranges, w) {
      var i: nat, r :| InRange(ranges, i, r) && w == EncodeRune(r);
      assert if 2 * i < n - 2 then InRange(rest, i, r) else ranges[n - 2] <= r <= ranges[n - 1];
    }
    if InClass(rest, w) {
      var i: nat, r :| InRange(rest, i, r) && w == EncodeRune(r);
      assert InRange(ranges, i, r);
    }
    if r :| ranges[n - 2] <= r <= ranges[n - 1] && w == EncodeRune(r) {
      assert InRange(ranges, n / 2 - 1, r);
    }
  }

  lemma {:induction false} ClassStringsElements(ranges: seq<rune>, w: Str)
    requires |ranges| % 2 == 0
    ensures w in ClassStrings(ranges) <==> InClass(ranges, w)
  {
    var n := |ranges|;
    if n >= 2 {
      hide InClass, EncodeRune;
      ClassStringsElements(ranges[..n - 2], w);
      RangeStringsElements(ranges[n - 2], ranges[n - 1], w);
      ClassSplit(ranges, w);
    }
  }

  lemma AnyInfoSound(a: Lang)
    ensures Sound(AnyCharInfo, a)
    ensures [] in a ==> Sound(AnyMatch, a)
  {
    forall w
      ensures Extends(w, [], false) && Extends(w, [], true)
    {
      ExtendsSelf(w, false);
    }
    assert AnyCharInfo.prefix[0] in AnyCharInfo.prefix;
  }

  /** The encodings of the runes of a class. */
  lemma RunesSound(ranges: seq<rune>)
    requires |ranges| == 1 || |ranges| % 2 == 0
    ensures Sound(AnalyzeClass(ranges),
                  RunesLang(if |ranges| == 1 then iset{ranges[0]} else RangeRunes(ranges)))
  {
    var runes := if |ranges| == 1 then iset{ranges[0]} else RangeRunes(ranges);
    var a := RunesLang(runes);
    if |ranges| == 0 {
      assert a == Empty;
    } else if |ranges| == 1 {
      assert forall w :: w in a <==> w in [EncodeRune(ranges[0])];
      SimplifySound(ExactInfo([EncodeRune(ranges[0])]), false, a);
    } else if ClassSpread(ranges) > 100 {
      AnyInfoSound(a);
    } else {
      forall w
        ensures w in a <==> w in ClassStrings(ranges)
      {
        ClassStringsElements(ranges, w);
        if w in a {
          var r :| r in runes && w == EncodeRune(r);
          var i: nat :| InRange(ranges, i, r);
        }
        if InClass(ranges, w) {
          var i: nat, r :| InRange(ranges, i, r) && w == EncodeRune(r);
          assert r in runes;
        }
      }
      SimplifySound(ExactInfo(ClassStrings(ranges)), false, a);
    }
  }

  lemma {:induction false} SpreadBounds(ranges: seq<rune>, k: nat)
    requires |ranges| % 2 == 0 && RangesInOrder(ranges) && k < |ranges| / 2
    ensures 0 <= RuneRanges.High(ranges, k) - RuneRanges.Low(ranges, k) <= ClassSpread(ranges)
    decreases |ranges|
  {
    var n := |ranges|;
    var rest := ranges[..n - 2];
    assert forall j :: 0 <= j < |rest| / 2 ==>
        RuneRanges.Low(rest, j) == RuneRanges.Low(ranges, j) && RuneRanges.High(rest, j) == RuneRanges.High(ranges, j);
    assert RuneRanges.Low(ranges, n / 2 - 1) == ranges[n - 2] && RuneRanges.High(ranges, n / 2 - 1) == ranges[n - 1];
    if k < n / 2 - 1 {
      SpreadBounds(rest, k);
    } else if n > 2 {
      SpreadBounds(rest, 0);
    }
  }

  /** A class that analyze spells out compiles to the encodings of its runes. */
  lemma SmallClass(ranges: seq<rune>, w: Str)
    requires |ranges| == 1 || (|ranges| % 2 == 0 && RangesInOrder(ranges) && ClassSpread(ranges) <= 100)
    requires w in RuneRanges.ClassAdded(ranges)
    ensures w in RunesLang(if |ranges| == 1 then iset{ranges[0]} else RangeRunes(ranges))
  {
    hide EncodeRune;
    if |ranges| == 1 {
      RuneRanges.SmallAdded(ranges[0], ranges[0], w);
    } else {
      RuneRanges.PairsMembers(ranges, |ranges| / 2, w);
      var k: nat :| k < |ranges| / 2 && RuneRanges.InPair(ranges, k, w);
      SpreadBounds(ranges, k);
      RuneRanges.SmallAdded(RuneRanges.Low(ranges, k), RuneRanges.High(ranges, k), w);
      var r: rune :| RuneRanges.Low(ranges, k) <= r <= RuneRanges.High(ranges, k) && w == EncodeRune(r);
      assert InRange(ranges, k, r);
    }
  }

  /** A class, with everything that the byte matcher accepts for it. */
  lemma ClassSound(ranges: seq<rune>)
    requires |ranges| == 1 || (|ranges| % 2 == 0 && RangesInOrder(ranges))
    ensures Sound(AnalyzeClass(ranges), ClassLang(ranges))
  {
    hide Sound, RuneRanges.ClassAdded;
    if |ranges| > 1 && ClassSpread(ranges) > 100 {
      AnyInfoSound(ClassLang(ranges));
    } else {
      RunesSound(ranges);
      forall w | w in RuneRanges.ClassAdded(ranges)
        ensures w in RunesLang(if |ranges| == 1 then iset{ranges[0]} else RangeRunes(ranges))
      {
        SmallClass(ranges, w);
      }
      assert ClassLang(ranges) == RunesLang(if |ranges| == 1 then iset{ranges[0]} else RangeRunes(ranges));
    }
  }

  /** What the compiled instruction of a class, of any character and of a rune reads, their trees match. */
  lemma CompiledWordsMatch(ranges: seq<rune>, r: rune, orbit: Orbit, w: Str)
    requires Parsed(CharClass(ranges))
    ensures w in RuneRanges.ClassAdded(ranges) ==> w in LangOf(CharClass(ranges), orbit)
    ensures w in RuneRanges.Added(0, MaxRune, false) ==> w in LangOf(AnyChar, orbit)
    ensures w in RuneRanges.Added(0, MaxRune, false) && w != ['\n' as int] ==> w in LangOf(AnyCharNotNL, orbit)
    ensures w in RuneRanges.Added(r, r, false) ==> w in LangOf(Literal([r], false), orbit)
  {
    hide RuneRanges.Added, RuneRanges.ClassAdded, EncodeRune;
    RuneRanges.AddedNotEmpty(0, MaxRune, false);
    assert EncodeRunes([r]) == EncodeRune(r) by {
      assert [r][..0] == [];
    }
    if w in RuneRanges.Added(r, r, false) {
      RuneRanges.SmallAdded(r, r, w);
    }
  }

  // ---------------------------------------------------------------- case folding

  lemma {:induction false} OrbitRangesAre(rs: seq<rune>)
    ensures |OrbitRanges(rs)| == 2 * |rs|
    ensures forall i :: 0 <= i < |rs| ==> OrbitRanges(rs)[2 * i] == OrbitRanges(rs)[2 * i + 1] == rs[i]
  {
    if rs != [] {
      OrbitRangesAre(rs[..|rs| - 1]);
    }
  }

  lemma FoldedRuneSound(r: rune, orbit: Orbit)
    ensures Sound(AnalyzeFoldedRune(r, orbit), RunesLang(FoldRunes(r, orbit)))
  {
    var rs := [r] + orbit(r);
    var ranges := OrbitRanges(rs);
    OrbitRangesAre(rs);
    forall x
      ensures x in RangeRunes(ranges) <==> x in FoldRunes(r, orbit)
    {
      if x in RangeRunes(ranges) {
        var i: nat :| InRange(ranges, i, x);
        assert rs[i] == x;
      }
      if x in FoldRunes(r, orbit) {
        assert x in rs;
        var i :| 0 <= i < |rs| && rs[i] == x;
        assert InRange(ranges, i, x);
      }
    }
    assert RangeRunes(ranges) == FoldRunes(r, orbit);
    RunesSound(ranges);
  }

  lemma {:induction false} FoldedRunesSound(rs: seq<rune>, orbit: Orbit)
    ensures Sound(AnalyzeFoldedRunes(rs, orbit), FoldedLang(rs, orbit))
  {
    if rs != [] {
      var n := |rs| - 1;
      FoldedRunesSound(rs[..n], orbit);
      FoldedRuneSound(rs[n], orbit);
      ConcatSound(AnalyzeFoldedRunes(rs[..n], orbit), AnalyzeFoldedRune(rs[n], orbit),
                  FoldedLang(rs[..n], orbit), RunesLang(FoldRunes(rs[n], orbit)));
    }
  }

  lemma EpsilonUnit(a: Lang)
    ensures ConcatLang(Epsilon, a) == a
  {
    forall w
      ensures w in ConcatLang(Epsilon, a) <==> w in a
    {
      assert w[0..] == w && w[..0] == [];
    }
  }

  lemma SingleFoldedSound(r: rune, orbit: Orbit)
    ensures Sound(AnalyzeFoldedRune(r, orbit), FoldedLang([r], orbit))
  {
    hide Sound, AnalyzeFoldedRune;
    FoldedRuneSound(r, orbit);
    assert [r][..0] == [];
    EpsilonUnit(RunesLang(FoldRunes(r, orbit)));
  }

  lemma LiteralSound(runes: seq<rune>, fold: bool, orbit: Orbit)
    ensures Sound(AnalyzeLiteral(runes, fold, orbit), LangOf(Literal(runes, fold), orbit))
  {
    if !fold {
      SimplifySound(ExactInfo([EncodeRunes(runes)]), false, iset{EncodeRunes(runes)});
    } else if |runes| == 1 {
      SingleFoldedSound(runes[0], orbit);
      assert runes == [runes[0]];
    } else {
      FoldedRunesSound(runes, orbit);
    }
  }

  // ---------------------------------------------------------------- repetition

  lemma {:induction false} FirstCopy(w: Str, a: Lang, k: nat) returns (j: nat)
    requires k >= 1 && w in PowerLang(a, k)
    ensures j <= |w| && w[..j] in a
    decreases k
  {
    var i := SplitConcat(w, PowerLang(a, k - 1), a);
    if k == 1 {
      j := |w|;
      assert i == 0 && w[0..] == w[..j];
    } else {
      j := FirstCopy(w[..i], a, k - 1);
      assert w[..i][..j] == w[..j];
    }
  }

  lemma {:induction false} EmptyPower(a: Lang, k: nat)
    requires [] in a
    ensures [] in PowerLang(a, k)
  {
    if k > 0 {
      EmptyPower(a, k - 1);
      JoinConcat([], [], PowerLang(a, k - 1), a);
    }
  }

  /** A word of one or more copies starts with one word, ends with one, and has the trigrams of one. */
  lemma CopiesSound(x: RegexpInfo, w: Str, a: Lang, k: nat, s: iset<Str>)
    requires Sound(x, a) && x.exact.None? && k >= 1 && w in PowerLang(a, k)
    ensures exists p :: p in x.prefix && Extends(w, p, false)
    ensures exists p :: p in x.suffix && Extends(w, p, true)
    ensures TrigramsOf(w) <= s ==> Sat(x.query, s)
  {
    var j := FirstCopy(w, a, k);
    var p :| p in x.prefix && Extends(w[..j], p, false);
    assert Extends(w, p, false);
    var i := SplitConcat(w, PowerLang(a, k - 1), a);
    var q :| q in x.suffix && Extends(w[i..], q, true);
    assert w[|w| - |q|..] == w[i..][|w| - i - |q|..];
    assert Extends(w, q, true);
    TrigramsWithin(w, i, w[i..]);
  }

  lemma PlusSetsSound(y: RegexpInfo, a: Lang, min: nat, max: int)
    requires Sound(y, a) && y.exact.None? && min >= 1 && (max < 0 || min <= max)
    ensures Sound(y, RepeatLang(a, min, max))
  {
    hide WellFormed, PowerLang;
    var b := RepeatLang(a, min, max);
    forall w | w in b
      ensures exists p :: p in y.prefix && Extends(w, p, false)
      ensures exists p :: p in y.suffix && Extends(w, p, true)
    {
      var k: nat :| min <= k && (max < 0 || k <= max) && w in PowerLang(a, k);
      CopiesSound(y, w, a, k, iset{});
    }
    forall w, s | w in b && TrigramsOf(w) <= s
      ensures Sat(y.query, s)
    {
      var k: nat :| min <= k && (max < 0 || k <= max) && w in PowerLang(a, k);
      CopiesSound(y, w, a, k, s);
    }
    if y.canEmpty {
      EmptyPower(a, min);
    }
  }

  lemma PlusSound(x: RegexpInfo, a: Lang, min: nat, max: int)
    requires Sound(x, a) && min >= 1 && (max < 0 || min <= max)
    ensures Sound(AnalyzePlus(x), RepeatLang(a, min, max))
  {
    hide Covers, QueryCovers, WellFormed, Simplify;
    var y := if x.exact.Some? then x.(prefix := x.exact.value, suffix := x.exact.value, exact := None) else x;
    assert Sound(y, a) by {
      if x.exact.Some? {
        assert Covers(y.prefix, a, false) && Covers(y.suffix, a, true) by {
          ExactCovers(x.exact.value, a);
        }
      }
    }
    assert Sound(y, RepeatLang(a, min, max)) by {
      PlusSetsSound(y, a, min, max);
    }
    assert AnalyzePlus(x) == Simplify(y, false);
    SimplifySound(y, false, RepeatLang(a, min, max));
  }

  lemma EmptyRepeats(a: Lang, max: int)
    ensures [] in RepeatLang(a, 0, max)
  {
    assert [] in PowerLang(a, 0);
  }

  // ---------------------------------------------------------------- every tree

  /** What analyze returns describes the language of the tree. */
  lemma {:induction false} AnalyzeSound(re: Regexp, orbit: Orbit)
    requires Parsed(re)
    ensures Sound(Analyze(re, orbit), LangOf(re, orbit))
    decreases re, 0
  {
    match re
    case Literal(runes, fold) => LiteralSound(runes, fold, orbit);
    case CharClass(ranges) => ClassSound(ranges);
    case AnyCharNotNL => AnyInfoSound(LangOf(re, orbit));
    case AnyChar => AnyInfoSound(LangOf(re, orbit));
    case Capture(x) => AnalyzeSound(x, orbit);
    case Star(x) =>
      EmptyRepeats(LangOf(x, orbit), -1);
      AnyInfoSound(LangOf(re, orbit));
    case Plus(x) =>
      AnalyzeSound(x, orbit);
      PlusSound(Analyze(x, orbit), LangOf(x, orbit), 1, -1);
    case Quest(x) =>
      AnalyzeSound(x, orbit);
      AlternateSound(Analyze(x, orbit), EmptyString, LangOf(x, orbit), Epsilon);
    case Repeat(x, min, max) =>
      if min == 0 {
        EmptyRepeats(LangOf(x, orbit), max);
        AnyInfoSound(LangOf(re, orbit));
      } else {
        AnalyzeSound(x, orbit);
        PlusSound(Analyze(x, orbit), LangOf(x, orbit), min, max);
      }
    case Concat(xs) => FoldConcatSound(xs, orbit);
    case Alternate(xs) => FoldAlternateSound(xs, orbit);
    case _ =>
  }

  lemma {:induction false} FoldConcatSound(xs: seq<Regexp>, orbit: Orbit)
    requires forall x :: x in xs ==> Parsed(x)
    ensures Sound(FoldConcat(xs, orbit), ConcatAll(xs, orbit))
    decreases xs, |xs|
  {
    if xs != [] {
      var n := |xs| - 1;
      AnalyzeSound(xs[n], orbit);
      if n == 0 {
        assert xs[..0] == [];
        EpsilonUnit(LangOf(xs[0], orbit));
      } else {
        FoldConcatSound(xs[..n], orbit);
        ConcatSound(FoldConcat(xs[..n], orbit), Analyze(xs[n], orbit),
                    ConcatAll(xs[..n], orbit), LangOf(xs[n], orbit));
      }
    }
  }

  lemma {:induction false} FoldAlternateSound(xs: seq<Regexp>, orbit: Orbit)
    requires forall x :: x in xs ==> Parsed(x)
    ensures Sound(FoldAlternate(xs, orbit), UnionAll(xs, orbit))
    decreases xs, |xs|
  {
    if xs != [] {
      var n := |xs| - 1;
      AnalyzeSound(xs[n], orbit);
      if n == 0 {
        assert xs[..0] == [];
        assert UnionAll(xs, orbit) == Empty + LangOf(xs[0], orbit) == LangOf(xs[0], orbit);
      } else {
        FoldAlternateSound(xs[..n], orbit);
        AlternateSound(FoldAlternate(xs[..n], orbit), Analyze(xs[n], orbit),
                       UnionAll(xs[..n], orbit), LangOf(xs[n], orbit));
      }
    }
  }

  /** RegexpQuery is conservative: every text that contains a match of `re` satisfies the query. */
  lemma RegexpQueryConservative(re: Regexp, orbit: Orbit, text: Str, at: nat, w: Str)
    requires Parsed(re) && w in LangOf(re, orbit) && OccursAt(text, at, w)
    ensures Sat(RegexpQuery(re, orbit), TrigramsOf(text))
  {
    var a := LangOf(re, orbit);
    var info := Analyze(re, orbit);
    AnalyzeSound(re, orbit);
    SimplifySound(info, true, a);
    AddExactSound(Simplify(info, true), a);
    TrigramsWithin(text, at, w);
  }

  /** And it has the shape that query evaluation needs. */
  lemma RegexpQueryWellFormed(re: Regexp, orbit: Orbit)
    requires Parsed(re)
    ensures WellFormed(RegexpQuery(re, orbit))
  {
    var a := LangOf(re, orbit);
    var info := Analyze(re, orbit);
    AnalyzeSound(re, orbit);
    SimplifySound(info, true, a);
    AddExactSound(Simplify(info, true), a);
  }

  // ---------------------------------------------------------------- lists and ASCII literals

  /** A list is folded from the left. */
  lemma FoldNext(xs: seq<Regexp>, y: Regexp, orbit: Orbit)
    ensures FoldAlternate([y], orbit) == Analyze(y, orbit) == FoldConcat([y], orbit)
    ensures xs != [] ==> FoldAlternate(xs + [y], orbit) == AlternateInfo(FoldAlternate(xs, orbit), Analyze(y, orbit))
    ensures xs != [] ==> FoldConcat(xs + [y], orbit) == ConcatInfo(FoldConcat(xs, orbit), Analyze(y, orbit))
  {
    hide Analyze, AlternateInfo, ConcatInfo;
    var more := xs + [y];
    assert more[..|more| - 1] == xs && more[|more| - 1] == y;
  }

  lemma FoldsAlternate(xs: seq<Regexp>, orbit: Orbit)
    ensures Analyze(Alternate(xs), orbit) == FoldAlternate(xs, orbit)
    ensures Analyze(Concat(xs), orbit) == FoldConcat(xs, orbit)
  {
    hide FoldAlternate, FoldConcat;
  }

  lemma NextRune(rs: seq<rune>, a: byte)
    requires a < 0x80
    ensures EncodeRunes(rs + [a]) == EncodeRunes(rs) + [a]
  {
    var more: seq<rune> := rs + [a];
    assert more[..|more| - 1] == rs && EncodeRune(a) == [a];
  }

  lemma AsciiRunes(a: byte, b: byte, c: byte)
    requires a < 0x80 && b < 0x80 && c < 0x80
    ensures EncodeRunes([a, b, c]) == [a, b, c]
  {
    hide EncodeRunes;
    NextRune([], a);
    NextRune([a], b);
    NextRune([a, b], c);
    NoRunes();
    var x: seq<rune>, y: seq<rune>, z: seq<rune> := [a], [a, b], [a, b, c];
    assert [] + [a] == x && [a] + [b] == y && [a, b] + [c] == z;
  }

  lemma NoRunes()
    ensures EncodeRunes([]) == []
  {
  }

  // ---------------------------------------------------------------- how large an info can get

  /** A prefix or suffix set within its limits: at most maxSet strings, each too short to hold a
      trigram, in order, and none of them redundant. */
  ghost predicate Reduced(t: StrSet, isSuffix: bool) {
    |t| <= maxSet && (forall x :: x in t ==> |x| <= 2)
    && StrictlySorted(t, isSuffix) && Antichain(t, isSuffix)
  }

  /** The limits of the source: at most maxExact exact strings, not all of them long, with nothing
      recorded elsewhere; or else reduced prefix and suffix sets. */
  ghost predicate Limited(info: RegexpInfo) {
    match info.exact
    case Some(exact) =>
      |exact| <= maxExact && MinLen(exact) < 4 && StrictlySorted(exact, false)
      && info.prefix == [] && info.suffix == [] && info.query == AllQuery
    case None => Reduced(info.prefix, false) && Reduced(info.suffix, true)
  }

  lemma SimplifyLimits(info: RegexpInfo, force: bool)
    requires info.exact.Some? ==> info.prefix == [] && info.suffix == [] && info.query == AllQuery
    ensures Limited(Simplify(info, force))
  {
    var f := Flush(info, force);
    SimplifiedSetReduced(f.prefix, false);
    SimplifiedSetReduced(f.suffix, true);
    if info.exact.Some? {
      CleanSorted(info.exact.value, false);
    }
  }

  lemma ConstantsLimited()
    ensures Limited(AnyMatch) && Limited(AnyCharInfo) && Limited(NoMatchInfo) && Limited(EmptyString)
  {
    assert MinLen(EmptyString.exact.value) < 4 by {
      assert EmptyString.exact.value[0] == [];
    }
  }

  lemma ClassLimits(ranges: seq<rune>)
    ensures Limited(AnalyzeClass(ranges))
  {
    ConstantsLimited();
    if |ranges| == 1 {
      SimplifyLimits(ExactInfo([EncodeRune(ranges[0])]), false);
    } else {
      SimplifyLimits(ExactInfo(ClassStrings(ranges)), false);
    }
  }

  lemma JoinLimits(x: RegexpInfo, y: RegexpInfo)
    requires Limited(x) && Limited(y)
    ensures Limited(ConcatInfo(x, y)) && Limited(AlternateInfo(x, y))
  {
    if x.exact.Some? && y.exact.Some? {
      assert AndOr(AllQuery, AllQuery, QAnd) == AllQuery && AndOr(AllQuery, AllQuery, QOr) == AllQuery;
    }
    SimplifyLimits(RawConcat(x, y), false);
    SimplifyLimits(RawAlternate(x, y), false);
  }

  lemma {:induction false} FoldedRunesLimits(rs: seq<rune>, orbit: Orbit)
    ensures Limited(AnalyzeFoldedRunes(rs, orbit))
  {
    ConstantsLimited();
    if rs != [] {
      var n := |rs| - 1;
      FoldedRunesLimits(rs[..n], orbit);
      ClassLimits(OrbitRanges([rs[n]] + orbit(rs[n])));
      JoinLimits(AnalyzeFoldedRunes(rs[..n], orbit), AnalyzeFoldedRune(rs[n], orbit));
    }
  }

  lemma LiteralLimits(runes: seq<rune>, fold: bool, orbit: Orbit)
    ensures Limited(AnalyzeLiteral(runes, fold, orbit))
  {
    ConstantsLimited();
    SimplifyLimits(ExactInfo([EncodeRunes(runes)]), false);
    FoldedRunesLimits(runes, orbit);
    if |runes| == 1 {
      ClassLimits(OrbitRanges([runes[0]] + orbit(runes[0])));
    }
  }

  /** However large the tree, analyze stays within the limits. */
  lemma {:induction false} AnalyzeLimits(re: Regexp, orbit: Orbit)
    ensures Limited(Analyze(re, orbit))
    decreases re, 0
  {
    hide Limited, AlternateInfo, AnalyzePlus, AnalyzeLiteral, AnalyzeClass, FoldConcat, FoldAlternate;
    ConstantsLimited();
    match re
    case Literal(runes, fold) => LiteralLimits(runes, fold, orbit);
    case CharClass(ranges) => ClassLimits(ranges);
    case Capture(x) => AnalyzeLimits(x, orbit);
    case Plus(x) => PlusLimits(x, orbit);
    case Quest(x) =>
      AnalyzeLimits(x, orbit);
      JoinLimits(Analyze(x, orbit), EmptyString);
    case Repeat(x, min, _) =>
      if min != 0 {
        PlusLimits(x, orbit);
      }
    case Concat(xs) => FoldLimits(xs, orbit);
    case Alternate(xs) => FoldLimits(xs, orbit);
    case _ =>
  }

  lemma {:induction false} PlusLimits(x: Regexp, orbit: Orbit)
    ensures Limited(AnalyzePlus(Analyze(x, orbit)))
    decreases x, 1
  {
    AnalyzeLimits(x, orbit);
    var info := Analyze(x, orbit);
    SimplifyLimits(if info.exact.Some? then info.(prefix := info.exact.value, suffix := info.exact.value, exact := None)
                   else info, false);
  }

  lemma {:induction false} FoldLimits(xs: seq<Regexp>, orbit: Orbit)
    ensures Limited(FoldConcat(xs, orbit)) && Limited(FoldAlternate(xs, orbit))
    decreases xs, |xs|
  {
    ConstantsLimited();
    if xs != [] {
      var n := |xs| - 1;
      AnalyzeLimits(xs[n], orbit);
      FoldLimits(xs[..n], orbit);
      if n > 0 {
        JoinLimits(FoldConcat(xs[..n], orbit), Analyze(xs[n], orbit));
        JoinLimits(FoldAlternate(xs[..n], orbit), Analyze(xs[n], orbit));
      }
    }
  }

  // ---------------------------------------------------------------- where the query is precise

  /** Sets of short strings add nothing to the query. */
  lemma ShortSetsKeepQuery(info: RegexpInfo)
    requires info.exact.None?
    requires forall x :: x in info.prefix || x in info.suffix ==> |x| <= 2
    ensures SimplifySets(info).query == info.query
  {
    var p, s := Clean(info.prefix, false), Clean(info.suffix, true);
    assert p != [] ==> p[0] in p && p[0] in info.prefix;
    assert s != [] ==> s[0] in s && s[0] in info.suffix;
  }

  ghost function FinalQuery(info: RegexpInfo): Query {
    AddExact(Simplify(info, true)).query
  }

  lemma FinalFromSets(info: RegexpInfo)
    requires info.exact.None? && Limited(info)
    ensures FinalQuery(info) == info.query
  {
    ShortSetsKeepQuery(info);
  }

  lemma SameElementsSame(t: StrSet, u: StrSet, s: iset<Str>)
    requires forall x :: x in t <==> x in u
    ensures MinLen(t) == MinLen(u) && (SomeString(t, s) <==> SomeString(u, s))
  {
    assert t != [] ==> t[0] in t;
    assert u != [] ==> u[0] in u;
  }

  lemma CutShort(t: StrSet, isSuffix: bool)
    ensures forall x :: x in [] + ShortenAll(t, 3, isSuffix) ==> |x| <= 2
  {
    var s := ShortenAll(t, 3, isSuffix);
    assert [] + s == s;
  }

  lemma GivenUpShort(exact: StrSet, force: bool)
    requires TooBig(Clean(exact, false), force)
    ensures var f := Flush(ExactInfo(exact), force);
            f.exact.None? && f.query == AndTrigrams(AllQuery, Clean(exact, false))
            && forall x :: x in f.prefix || x in f.suffix ==> |x| <= 2
  {
    hide AndTrigrams, Clean, MinLen, ShortenAll, TooBig;
    CutShort(Clean(exact, false), false);
    CutShort(Clean(exact, false), true);
  }

  /** Giving up an exact set records it in the query without loss, up to strings too short for a trigram. */
  lemma GivenUpPrecise(exact: StrSet, force: bool, s: iset<Str>)
    requires TooBig(Clean(exact, false), force)
    ensures var info := Simplify(ExactInfo(exact), force);
            info.exact.None? && (Sat(info.query, s) <==> MinLen(exact) < 3 || SomeString(exact, s))
  {
    assert Sat(AllQuery, s);
    hide Sat, SomeString, TooBig, MinLen, AndTrigrams, Flush, Clean;
    var c := Clean(exact, false);
    var f := Flush(ExactInfo(exact), force);
    assert f.exact.None? && f.query == AndTrigrams(AllQuery, c) && SimplifySets(f).query == f.query by {
      GivenUpShort(exact, force);
      ShortSetsKeepQuery(f);
    }
    assert MinLen(exact) == MinLen(c) && (SomeString(exact, s) <==> SomeString(c, s)) by {
      SameElementsSame(exact, c, s);
    }
    AndTrigramsSat(AllQuery, c, s);
  }

  /** For an exact set the final query says exactly: the trigrams of one of the strings are there. */
  lemma FinalFromExact(exact: StrSet, s: iset<Str>)
    ensures Sat(FinalQuery(ExactInfo(exact)), s) <==> MinLen(exact) < 3 || SomeString(exact, s)
  {
    var c := Clean(exact, false);
    SameElementsSame(exact, c, s);
    if TooBig(c, true) {
      hide Sat, SomeString;
      GivenUpPrecise(exact, true, s);
    } else {
      AndTrigramsSat(AllQuery, c, s);
    }
  }

  lemma FinalIs(re: Regexp, orbit: Orbit)
    ensures RegexpQuery(re, orbit) == FinalQuery(Analyze(re, orbit))
  {
  }

  lemma SingleWord(w: Str, s: iset<Str>)
    ensures Clean([w], false) == [w] && MinLen([w]) == |w|
    ensures SomeString([w], s) <==> TrigramsOf(w) <= s
  {
    hide TrigramsOf;
    assert w in [w];
  }

  lemma LiteralAnalysed(runes: seq<rune>, orbit: Orbit)
    ensures var w := EncodeRunes(runes);
            Analyze(Literal(runes, false), orbit) == Simplify(ExactInfo([w]), false)
            && (!TooBig(Clean([w], false), false) ==> Simplify(ExactInfo([w]), false) == ExactInfo(Clean([w], false)))
  {
    hide Clean, TooBig, EncodeRunes;
  }

  /** The query of a plain literal is exactly the conjunction of its trigrams; a literal shorter than
      a trigram gives no information. */
  lemma LiteralQueryPrecise(runes: seq<rune>, orbit: Orbit, s: iset<Str>)
    ensures var w := EncodeRunes(runes);
            Sat(RegexpQuery(Literal(runes, false), orbit), s) <==> |w| < 3 || TrigramsOf(w) <= s
  {
    var w := EncodeRunes(runes);
    var info := Simplify(ExactInfo([w]), false);
    SingleWord(w, s);
    hide Sat, SomeString, Simplify, Limited, TrigramsOf, MinLen, Clean, TooBig, RegexpQuery, FinalQuery, Analyze, EncodeRunes;
    FinalIs(Literal(runes, false), orbit);
    LiteralAnalysed(runes, orbit);
    if TooBig([w], false) {
      GivenUpPrecise([w], false, s);
      SimplifyLimits(ExactInfo([w]), false);
      FinalFromSets(info);
    } else {
      FinalFromExact([w], s);
    }
  }

  /** Whenever analyze still has an exact set E, and so knows the whole language, the query passes
      exactly the texts that hold the trigrams of some word of it. */
  lemma ExactQueryPrecise(re: Regexp, orbit: Orbit, s: iset<Str>)
    requires Parsed(re) && Analyze(re, orbit).exact.Some?
    ensures var exact := Analyze(re, orbit).exact.value;
            (forall w :: w in LangOf(re, orbit) <==> w in exact)
            && (Sat(RegexpQuery(re, orbit), s) <==> MinLen(exact) < 3 || SomeString(exact, s))
  {
    AnalyzeSound(re, orbit);
    AnalyzeLimits(re, orbit);
    FinalIs(re, orbit);
    hide Analyze, RegexpQuery, LangOf, Sat, SomeString;
    FinalSame(Analyze(re, orbit));
    FinalFromExact(Analyze(re, orbit).exact.value, s);
  }

  lemma FinalSame(info: RegexpInfo)
    requires info.exact.Some? && Limited(info)
    ensures FinalQuery(info) == FinalQuery(ExactInfo(info.exact.value))
  {
    hide AndTrigrams, AndOr, Clean, MinLen, SimplifiedSet;
    var plain := ExactInfo(info.exact.value);
    assert Simplify(info, true).query == Simplify(plain, true).query;
    assert Simplify(info, true).exact == Simplify(plain, true).exact;
  }

  // ---------------------------------------------------------------- when canEmpty is right

  /** Whether a tree matches the empty string, read off the tree. */
  ghost predicate Nullable(re: Regexp) {
    match re
    case NoMatch => false
    case Literal(runes, _) => runes == []
    case CharClass(_) => false
    case AnyCharNotNL => false
    case AnyChar => false
    case Capture(x) => Nullable(x)
    case Plus(x) => Nullable(x)
    case Repeat(x, min, _) => min == 0 || Nullable(x)
    case Concat(xs) => forall x :: x in xs ==> Nullable(x)
    case Alternate(xs) => exists x :: x in xs && Nullable(x)
    case _ => true
  }

  /** The trees whose emptiness analyze notices: concat never sets canEmpty. */
  ghost predicate Notices(re: Regexp) {
    match re
    case NoMatch => false
    case Literal(runes, fold) => runes == [] && fold
    case CharClass(_) => false
    case AnyCharNotNL => false
    case AnyChar => false
    case Capture(x) => Notices(x)
    case Plus(x) => Notices(x)
    case Repeat(x, min, _) => min == 0 || Notices(x)
    case Concat(xs) => |xs| == 0 || (|xs| == 1 && Notices(xs[0]))
    case Alternate(xs) => exists x :: x in xs && Notices(x)
    case _ => true
  }

  lemma EmptyInConcat(a: Lang, b: Lang)
    ensures [] in ConcatLang(a, b) <==> [] in a && [] in b
  {
    var e: Str := [];
    if e in ConcatLang(a, b) {
      var i := SplitConcat(e, a, b);
    }
    if e in a && e in b {
      JoinConcat(e, e, a, b);
      assert e + e == e;
    }
  }

  lemma {:induction false} EmptyInPower(a: Lang, k: nat)
    requires k > 0 && [] in PowerLang(a, k)
    ensures [] in a
  {
    EmptyInConcat(PowerLang(a, k - 1), a);
  }

  lemma EmptyInRepeat(a: Lang, min: nat, max: int)
    requires max < 0 || min <= max
    ensures [] in RepeatLang(a, min, max) <==> min == 0 || [] in a
  {
    if [] in RepeatLang(a, min, max) && min > 0 {
      var k: nat :| min <= k && (max < 0 || k <= max) && [] in PowerLang(a, k);
      EmptyInPower(a, k);
    }
    if [] in a {
      EmptyPower(a, min);
    }
    if min == 0 {
      EmptyRepeats(a, max);
    }
  }

  lemma ClassNotEmpty(ranges: seq<rune>)
    ensures [] !in ClassLang(ranges)
  {
    hide EncodeRune;
    if |ranges| == 1 {
      RuneRanges.AddedNotEmpty(ranges[0], ranges[0], false);
    } else {
      RuneRanges.PairsMembers(ranges, |ranges| / 2, []);
      forall k: nat | k < |ranges| / 2
        ensures !RuneRanges.InPair(ranges, k, [])
      {
        RuneRanges.AddedNotEmpty(RuneRanges.Low(ranges, k), RuneRanges.High(ranges, k), false);
      }
    }
  }

  lemma {:induction false} NullableIs(re: Regexp, orbit: Orbit)
    requires Parsed(re)
    ensures Nullable(re) <==> [] in LangOf(re, orbit)
    decreases re, 0
  {
    match re
    case Literal(runes, fold) =>
      if runes != [] {
        var n := |runes| - 1;
        EmptyInConcat(FoldedLang(runes[..n], orbit), RunesLang(FoldRunes(runes[n], orbit)));
      }
    case CharClass(ranges) => ClassNotEmpty(ranges);
    case Capture(x) => NullableIs(x, orbit);
    case Star(x) => EmptyInRepeat(LangOf(x, orbit), 0, -1);
    case Plus(x) =>
      NullableIs(x, orbit);
      EmptyInRepeat(LangOf(x, orbit), 1, -1);
    case Repeat(x, min, max) =>
      NullableIs(x, orbit);
      EmptyInRepeat(LangOf(x, orbit), min, max);
    case Concat(xs) => NullableAll(xs, orbit);
    case Alternate(xs) => NullableAll(xs, orbit);
    case _ =>
  }

  lemma {:induction false} NullableAll(xs: seq<Regexp>, orbit: Orbit)
    requires forall x :: x in xs ==> Parsed(x)
    ensures (forall x :: x in xs ==> Nullable(x)) <==> [] in ConcatAll(xs, orbit)
    ensures (exists x :: x in xs && Nullable(x)) <==> [] in UnionAll(xs, orbit)
    decreases xs, |xs|
  {
    if xs != [] {
      var n := |xs| - 1;
      assert xs == xs[..n] + [xs[n]];
      NullableAll(xs[..n], orbit);
      NullableIs(xs[n], orbit);
      EmptyInConcat(ConcatAll(xs[..n], orbit), LangOf(xs[n], orbit));
    }
  }

  lemma SimplifyKeepsCanEmpty(info: RegexpInfo, force: bool)
    ensures Simplify(info, force).canEmpty == info.canEmpty
  {
  }

  lemma RawCanEmpty(x: RegexpInfo, y: RegexpInfo)
    ensures !RawConcat(x, y).canEmpty
    ensures RawAlternate(x, y).canEmpty == (x.canEmpty || y.canEmpty)
  {
  }

  lemma JoinCanEmpty(x: RegexpInfo, y: RegexpInfo)
    ensures !ConcatInfo(x, y).canEmpty
    ensures AlternateInfo(x, y).canEmpty == (x.canEmpty || y.canEmpty)
  {
    RawCanEmpty(x, y);
    SimplifyKeepsCanEmpty(RawConcat(x, y), false);
    SimplifyKeepsCanEmpty(RawAlternate(x, y), false);
  }

  lemma LiteralCanEmpty(runes: seq<rune>, fold: bool, orbit: Orbit)
    ensures AnalyzeLiteral(runes, fold, orbit).canEmpty <==> fold && runes == []
  {
    if fold && |runes| > 1 {
      var n := |runes| - 1;
      JoinCanEmpty(AnalyzeFoldedRunes(runes[..n], orbit), AnalyzeFoldedRune(runes[n], orbit));
    }
  }

  lemma PlusCanEmpty(x: RegexpInfo)
    ensures AnalyzePlus(x).canEmpty == x.canEmpty
  {
  }

  lemma FoldConcatCanEmpty(xs: seq<Regexp>, orbit: Orbit)
    requires |xs| > 1
    ensures !FoldConcat(xs, orbit).canEmpty
  {
    JoinCanEmpty(FoldConcat(xs[..|xs| - 1], orbit), Analyze(xs[|xs| - 1], orbit));
  }

  lemma {:induction false} NoticesIs(re: Regexp, orbit: Orbit)
    ensures Notices(re) <==> Analyze(re, orbit).canEmpty
    decreases re, 0
  {
    hide AlternateInfo, AnalyzePlus, AnalyzeLiteral, FoldAlternate;
    match re
    case Literal(runes, fold) => LiteralCanEmpty(runes, fold, orbit);
    case Capture(x) => NoticesIs(x, orbit);
    case Plus(x) =>
      NoticesIs(x, orbit);
      PlusCanEmpty(Analyze(x, orbit));
    case Quest(x) => JoinCanEmpty(Analyze(x, orbit), EmptyString);
    case Repeat(x, min, max) =>
      NoticesIs(x, orbit);
      PlusCanEmpty(Analyze(x, orbit));
    case Concat(xs) =>
      if |xs| == 1 {
        NoticesIs(xs[0], orbit);
      } else if |xs| > 1 {
        FoldConcatCanEmpty(xs, orbit);
      }
    case Alternate(xs) => NoticesAny(xs, orbit);
    case _ =>
  }

  lemma {:induction false} NoticesAny(xs: seq<Regexp>, orbit: Orbit)
    ensures (exists x :: x in xs && Notices(x)) <==> FoldAlternate(xs, orbit).canEmpty
    decreases xs, |xs|
  {
    hide Notices, Analyze, AlternateInfo;
    if xs != [] {
      var n := |xs| - 1;
      assert xs == xs[..n] + [xs[n]];
      NoticesIs(xs[n], orbit);
      if n > 0 {
        NoticesAny(xs[..n], orbit);
        JoinCanEmpty(FoldAlternate(xs[..n], orbit), Analyze(xs[n], orbit));
      }
    }
  }

  /** The shapes that hide emptiness: an empty literal that does not fold case, two or more parts in a row that may all
      be empty, and what hands such an emptiness on with nothing beside it that is noticed. */
  ghost predicate Hides(re: Regexp) {
    match re
    case Literal(runes, fold) => runes == [] && !fold
    case Capture(x) => Hides(x)
    case Plus(x) => Hides(x)
    case Repeat(x, min, _) => min > 0 && Hides(x)
    case Concat(xs) => if |xs| == 1 then Hides(xs[0]) else xs != [] && forall x :: x in xs ==> Nullable(x)
    case Alternate(xs) => (exists x :: x in xs && Hides(x)) && forall x :: x in xs ==> Hides(x) || !Nullable(x)
    case _ => false
  }

  lemma {:induction false} HidesIs(re: Regexp)
    ensures Notices(re) ==> Nullable(re)
    ensures Hides(re) <==> Nullable(re) && !Notices(re)
  {
    match re
    case Capture(x) => HidesIs(x);
    case Plus(x) => HidesIs(x);
    case Repeat(x, _, _) => HidesIs(x);
    case Concat(xs) =>
      if |xs| == 1 {
        HidesIs(xs[0]);
      }
    case Alternate(xs) =>
      forall x | x in xs
        ensures Notices(x) ==> Nullable(x)
        ensures Hides(x) <==> Nullable(x) && !Notices(x)
      {
        HidesIs(x);
      }
    case _ =>
  }

  /** canEmpty records whether the tree matches the empty string exactly when the tree does not hide it. */
  lemma CanEmptyRightIff(re: Regexp, orbit: Orbit)
    requires Parsed(re)
    ensures (Analyze(re, orbit).canEmpty <==> [] in LangOf(re, orbit)) <==> !Hides(re)
  {
    hide Analyze, LangOf, Nullable, Notices, Hides;
    NullableIs(re, orbit);
    NoticesIs(re, orbit);
    HidesIs(re);
  }

  lemma CanEmptyWrong(x: Regexp, orbit: Orbit)
    requires Parsed(x)
    ensures var re := Concat([Star(x), Star(x)]);
            Parsed(re) && [] in LangOf(re, orbit) && !Analyze(re, orbit).canEmpty
  {
    hide Analyze, LangOf;
    var re := Concat([Star(x), Star(x)]);
    NullableIs(re, orbit);
    NoticesIs(re, orbit);
  }
}
