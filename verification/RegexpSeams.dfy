/** Repeated words one after the other: the trigrams across the seam (index/regexp.go, concat). */
module RegexpSeams {
  import opened Bytes
  import opened Utf8
  import opened StringSets
  import opened Queries
  import opened RegexpSyntax
  import opened RegexpAnalysis
  import opened RegexpSoundness
  import opened RegexpTheorems
  import opened RegexpPrecision

  /** A set with one long string is cut to two bytes of it. */
  lemma ShortenedOne(u: StrSet, w: Str, isSuffix: bool)
    requires Shortened(u, iset{w}, isSuffix) && |w| >= 2
    ensures forall v :: v in u <==> v == if isSuffix then w[|w| - 2..] else w[..2]
  {
    hide FewCuts, IsLeastCut;
    var t: StrSet :| Lists(t, iset{w}) && Simplified(u, t, isSuffix);
    OneCut(t, w, isSuffix);
    assert LeastCuts(u, t, 3, isSuffix);
  }

  lemma OneCut(t: StrSet, w: Str, isSuffix: bool)
    requires Lists(t, iset{w}) && |w| >= 2
    ensures FewCuts(t, 3, isSuffix)
    ensures forall v :: IsLeastCut(t, 3, isSuffix, v) <==> v == if isSuffix then w[|w| - 2..] else w[..2]
  {
    var c := if isSuffix then w[|w| - 2..] else w[..2];
    var cuts := ShortenAll(t, 3, isSuffix);
    forall v
      ensures v in cuts <==> v == c
      ensures IsCut(t, 3, isSuffix, v) <==> v == c
    {
      assert w in t;
      CutsAre(t, 3, isSuffix, v);
      CutUnique(w, 3, isSuffix, v);
    }
    hide ShortenAll, IsCut;
    assert (set v | v in cuts) == {c};
  }

  /** One or more copies of a literal: its trigrams, and its ends. */
  ghost predicate WordPlus(r: RegexpInfo, w: Str, s: iset<Str>)
    requires |w| >= 2
  {
    r.exact.None? && !r.canEmpty && WellFormed(r.query) && Limited(r) && (Sat(r.query, s) <==> TrigramsOf(w) <= s)
    && (forall v :: v in r.prefix <==> v == w[..2]) && (forall v :: v in r.suffix <==> v == w[|w| - 2..])
  }

  lemma SameSets(i: RegexpInfo, u: Str, v: Str)
    requires i.exact.None? && (forall x :: x in i.prefix <==> x == u) && (forall x :: x in i.suffix <==> x == v)
    ensures Firsts(i) == iset{u} && Lasts(i) == iset{v}
  {
  }

  lemma LiteralPlus(runes: seq<rune>, orbit: Orbit, s: iset<Str>)
    requires |EncodeRunes(runes)| >= 3
    ensures WordPlus(Analyze(Plus(Literal(runes, false)), orbit), EncodeRunes(runes), s)
  {
    var w, x := EncodeRunes(runes), Literal(runes, false);
    var i, r := Analyze(x, orbit), Analyze(Plus(x), orbit);
    hide Analyze, EncodeRunes, Sat, DemandedOf, TrigramsOf, WellFormed, Limited, Shortened;
    LiteralTree(runes, orbit, s);
    PlusTree(x, orbit, s);
    AnalyzeFit(Plus(x), orbit);
    if |w| == 3 {
      assert Firsts(i) == iset{w} == Lasts(i);
      OneDemanded(w, s);
      ShortenedOne(r.prefix, w, false);
      ShortenedOne(r.suffix, w, true);
    } else {
      ShortenedOne(i.prefix, w[..2], false);
      ShortenedOne(i.suffix, w[|w| - 2..], true);
      assert w[..2][..2] == w[..2];
      SameSets(i, w[..2], w[|w| - 2..]);
      ShortOnly(w[..2], s);
      ShortOnly(w[|w| - 2..], s);
      ShortenedOne(r.prefix, w[..2], false);
      ShortenedOne(r.suffix, w[|w| - 2..], true);
    }
  }

  lemma OneDemanded(w: Str, s: iset<Str>)
    requires |w| == 3
    ensures DemandedOf(iset{w}, s) <==> TrigramsOf(w) <= s
    ensures Sat(AllQuery, s)
  {
    assert w in iset{w};
  }

  /** The trigrams of two words in a row are those of each, and those across the seam. */
  lemma SeamTrigrams(a: Str, b: Str)
    requires |a| >= 2 && |b| >= 2
    ensures TrigramsOf(a + b) == TrigramsOf(a) + TrigramsOf(b) + TrigramsOf(a[|a| - 2..] + b[..2])
  {
    var w, m := a + b, a[|a| - 2..] + b[..2];
    assert OccursAt(w, 0, a) && OccursAt(w, |a|, b) && OccursAt(w, |a| - 2, m);
    hide OccursAt;
    TrigramsWithin(w, 0, a);
    TrigramsWithin(w, |a|, b);
    TrigramsWithin(w, |a| - 2, m);
    forall t | t in TrigramsOf(w)
      ensures t in TrigramsOf(a) || t in TrigramsOf(b) || t in TrigramsOf(m)
    {
      var i: nat :| OccursAt(w, i, t);
      Inside(w, 0, a, i, t);
      Inside(w, |a|, b, i, t);
      Inside(w, |a| - 2, m, i, t);
    }
  }

  /** What lies within a part of a text occurs in that part. */
  lemma Inside(w: Str, at: nat, part: Str, i: nat, t: Str)
    requires OccursAt(w, at, part) && OccursAt(w, i, t) && |t| == 3
    ensures i + 3 <= |w| && at + |part| <= |w|
    ensures at <= i && i + 3 <= at + |part| ==> t in TrigramsOf(part)
  {
    if at <= i && i + 3 <= at + |part| {
      assert part == w[at..at + |part|];
      var k: nat := i - at;
      var p, q := part[k..k + 3], w[i..i + 3];
      forall h | 0 <= h < 3
        ensures p[h] == q[h]
      {
        assert w[at..at + |part|][k + h] == w[i + h];
      }
      assert p == q;
      assert OccursAt(part, i - at, t);
    }
  }

  lemma TwoPluses(x: RegexpInfo, y: RegexpInfo, a: Str, b: Str, s: iset<Str>)
    requires |a| >= 2 && |b| >= 2 && WordPlus(x, a, s) && WordPlus(y, b, s)
    ensures Sat(ConcatInfo(x, y).query, s) <==> TrigramsOf(a + b) <= s
    ensures ConcatInfo(x, y).exact.None?
  {
    hide ConcatInfo, Sat, WellFormed, Limited, TrigramsOf, DemandedOf, SeamDemanded, SimplifiedFrom;
    ConcatQueryIff(x, y, s);
    SeamTrigrams(a, b);
    LimitedFew(x, y);
    SeamOne(x, y, a[|a| - 2..], b[..2], s);
    ConcatNotExact(x, y);
  }

  lemma ConcatNotExact(x: RegexpInfo, y: RegexpInfo)
    requires WellFormed(x.query) && WellFormed(y.query) && x.exact.None?
    ensures ConcatInfo(x, y).exact.None?
  {
    ConcatIs(x, y, iset{});
    hide ConcatInfo;
  }

  lemma SeamOne(x: RegexpInfo, y: RegexpInfo, u: Str, v: Str, s: iset<Str>)
    requires x.exact.None? && y.exact.None? && |x.suffix| <= 20 && |y.prefix| <= 20 && |u| + |v| >= 3
    requires (forall w :: w in x.suffix <==> w == u) && (forall w :: w in y.prefix <==> w == v)
    ensures SeamDemanded(x, y, s) <==> TrigramsOf(u + v) <= s
  {
    hide TrigramsOf;
    assert u in x.suffix && v in y.prefix;
  }

  lemma LimitedFew(x: RegexpInfo, y: RegexpInfo)
    requires Limited(x) && Limited(y) && x.exact.None? && y.exact.None?
    ensures |x.suffix| <= 20 && |y.prefix| <= 20
  {
  }

  /** Two literals of three bytes or more, each any number of times: the query asks for the trigrams of the two in a row,
      those across the seam among them, and for nothing else. */
  lemma PlusPlusPrecise(r1: seq<rune>, r2: seq<rune>, orbit: Orbit, s: iset<Str>)
    requires |EncodeRunes(r1)| >= 3 && |EncodeRunes(r2)| >= 3
    ensures var re := Concat([Plus(Literal(r1, false)), Plus(Literal(r2, false))]);
            Sat(RegexpQuery(re, orbit), s) <==> TrigramsOf(EncodeRunes(r1) + EncodeRunes(r2)) <= s
  {
    var a, b := Plus(Literal(r1, false)), Plus(Literal(r2, false));
    var re := Concat([a, b]);
    hide *;
    PlusesParsed(r1, r2);
    ListTrees([], a, orbit);
    ListTrees([a], b, orbit);
    assert [a] + [b] == [a, b];
    LiteralPlus(r1, orbit, s);
    LiteralPlus(r2, orbit, s);
    TwoPluses(Analyze(a, orbit), Analyze(b, orbit), EncodeRunes(r1), EncodeRunes(r2), s);
    FinalTree(re, orbit, s);
  }

  lemma PlusesParsed(r1: seq<rune>, r2: seq<rune>)
    ensures Parsed(Concat([Plus(Literal(r1, false)), Plus(Literal(r2, false))]))
  {
    var xs := [Plus(Literal(r1, false)), Plus(Literal(r2, false))];
    assert forall x :: x in xs ==> x == xs[0] || x == xs[1];
  }

  /** The tree of `(abc)+(def)+`. */
  const AbcDef := Concat([Plus(Literal([97, 98, 99], false)), Plus(Literal([100, 101, 102], false))])

  /** It asks for abc, bcd, cde and def: a text with the two words apart does not pass. */
  lemma AbcDefQuery(orbit: Orbit, s: iset<Str>)
    ensures Sat(RegexpQuery(AbcDef, orbit), s) <==>
            [97, 98, 99] in s && [98, 99, 100] in s && [99, 100, 101] in s && [100, 101, 102] in s
    ensures !Sat(RegexpQuery(AbcDef, orbit), TrigramsOf([97, 98, 99, 32, 100, 101, 102]))
  {
    hide *;
    AbcDefDemands(orbit, s);
    AbcDefDemands(orbit, TrigramsOf([97, 98, 99, 32, 100, 101, 102]));
    NotAcross([97, 98, 99, 32, 100, 101, 102]);
  }

  lemma AbcDefDemands(orbit: Orbit, s: iset<Str>)
    ensures Sat(RegexpQuery(AbcDef, orbit), s) <==>
            [97, 98, 99] in s && [98, 99, 100] in s && [99, 100, 101] in s && [100, 101, 102] in s
  {
    hide RegexpQuery, Sat, EncodeRunes, TrigramsOf;
    AbcDefWord();
    PlusPlusPrecise([97, 98, 99], [100, 101, 102], orbit, s);
    SixBytes([97, 98, 99, 100, 101, 102], s);
    AbcDefParts();
  }

  lemma AbcDefParts()
    ensures var w: Str := [97, 98, 99, 100, 101, 102];
            w[0..3] == [97, 98, 99] && w[1..4] == [98, 99, 100] && w[2..5] == [99, 100, 101] && w[3..6] == [100, 101, 102]
  {
  }

  lemma AbcDefWord()
    ensures |EncodeRunes([97, 98, 99])| == 3 == |EncodeRunes([100, 101, 102])|
    ensures EncodeRunes([97, 98, 99]) + EncodeRunes([100, 101, 102]) == [97, 98, 99, 100, 101, 102]
  {
    hide EncodeRunes;
    AsciiRunes(97, 98, 99);
    AsciiRunes(100, 101, 102);
  }

  lemma SixBytes(w: Str, s: iset<Str>)
    requires |w| == 6
    ensures TrigramsOf(w) <= s <==> w[0..3] in s && w[1..4] in s && w[2..5] in s && w[3..6] in s
  {
    assert OccursAt(w, 0, w[0..3]) && OccursAt(w, 1, w[1..4]) && OccursAt(w, 2, w[2..5]) && OccursAt(w, 3, w[3..6]);
    if w[0..3] in s && w[1..4] in s && w[2..5] in s && w[3..6] in s {
      forall t | t in TrigramsOf(w)
        ensures t in s
      {
        var i: nat :| OccursAt(w, i, t);
        assert t == w[i..i + 3];
      }
    }
  }

  lemma NotAcross(text: Str)
    requires text == [97, 98, 99, 32, 100, 101, 102]
    ensures [98, 99, 100] !in TrigramsOf(text)
  {
    var t: Str := [98, 99, 100];
    forall at: nat
      ensures !OccursAt(text, at, t)
    {
      if at + 3 <= |text| {
        assert text[at..at + 3][0] == text[at] && text[at..at + 3][1] == text[at + 1] && text[at..at + 3][2] == text[at + 2];
      }
    }
  }
}
