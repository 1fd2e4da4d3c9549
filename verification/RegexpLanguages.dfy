/** The laws of the languages that regexps denote: what each operator does to the words of its parts. */
module RegexpLanguages {
  import opened Bytes
  import opened Utf8
  import opened RegexpSyntax
  import opened RegexpSoundness
  import opened RegexpTheorems
  import RuneRanges

  /** `w` is a word of `a` followed by one of `b`. */
  ghost predicate Splits(w: Str, a: Lang, b: Lang) {
    exists u, v :: u in a && v in b && w == u + v
  }

  lemma ConcatSplits(w: Str, a: Lang, b: Lang)
    ensures w in ConcatLang(a, b) <==> Splits(w, a, b)
  {
    if w in ConcatLang(a, b) {
      var i := SplitConcat(w, a, b);
      assert w[..i] in a && w[i..] in b && w == w[..i] + w[i..];
    }
    if u, v :| u in a && v in b && w == u + v {
      JoinConcat(u, v, a, b);
    }
  }

  /** Letters, one after the other: each as it is, or with folding any rune of its orbit. */
  lemma LiteralLaws(runes: seq<rune>, r: rune, orbit: Orbit, w: Str)
    ensures w in LangOf(Literal([], false), orbit) <==> w == []
    ensures w in LangOf(Literal(runes + [r], false), orbit) <==>
            Splits(w, LangOf(Literal(runes, false), orbit), iset{EncodeRune(r)})
  {
    hide EncodeRune;
    assert (runes + [r])[..|runes|] == runes;
    if w == EncodeRunes(runes) + EncodeRune(r) {
      assert EncodeRunes(runes) in iset{EncodeRunes(runes)} && EncodeRune(r) in iset{EncodeRune(r)};
    }
  }

  lemma FoldedLaws(runes: seq<rune>, r: rune, orbit: Orbit, w: Str)
    ensures w in LangOf(Literal([], true), orbit) <==> w == []
    ensures w in LangOf(Literal(runes + [r], true), orbit) <==>
            Splits(w, LangOf(Literal(runes, true), orbit), iset x: rune | x == r || x in orbit(r) :: EncodeRune(x))
  {
    hide EncodeRune, EncodeRunes, Splits;
    assert (runes + [r])[..|runes|] == runes;
    ConcatSplits(w, FoldedLang(runes, orbit), RunesLang(FoldRunes(r, orbit)));
    assert RunesLang(FoldRunes(r, orbit)) == iset x: rune | x == r || x in orbit(r) :: EncodeRune(x);
  }

  /** Any character is some bytes, and not a lone newline where that is excluded; a class has the encodings of its runes. */
  lemma CharacterLaws(ranges: seq<rune>, i: nat, r: rune, orbit: Orbit, w: Str)
    ensures w in LangOf(AnyChar, orbit) <==> w != []
    ensures w in LangOf(AnyCharNotNL, orbit) <==> w != [] && w != ['\n' as int]
    ensures Parsed(CharClass(ranges)) && |ranges| != 1 && i < |ranges| / 2 && ranges[2 * i] <= r <= ranges[2 * i + 1] ==>
              EncodeRune(r) in LangOf(CharClass(ranges), orbit)
  {
    hide EncodeRune, RuneRanges.ClassAdded;
    if |ranges| != 1 && i < |ranges| / 2 && ranges[2 * i] <= r <= ranges[2 * i + 1] {
      assert InRange(ranges, i, r);
    }
  }

  /** Zero-width tests read nothing, captures what is in them, and nothing matches NoMatch. */
  lemma PlainLaws(x: Regexp, orbit: Orbit, w: Str)
    requires Parsed(x)
    ensures w !in LangOf(NoMatch, orbit) && LangOf(Capture(x), orbit) == LangOf(x, orbit)
    ensures forall e :: e in {EmptyMatch, BeginLine, EndLine, BeginText, EndText, WordBoundary, NoWordBoundary} ==>
              (w in LangOf(e, orbit) <==> w == [])
    ensures w in LangOf(Quest(x), orbit) <==> w == [] || w in LangOf(x, orbit)
  {
  }

  /** Lists: what the first parts match, and then the last one; or one of either. */
  lemma ListLaws(xs: seq<Regexp>, y: Regexp, orbit: Orbit, w: Str)
    requires Parsed(y) && forall x :: x in xs ==> Parsed(x)
    ensures w in LangOf(Concat([]), orbit) <==> w == []
    ensures w !in LangOf(Alternate([]), orbit)
    ensures Parsed(Concat(xs + [y])) && Parsed(Alternate(xs + [y]))
    ensures w in LangOf(Concat(xs + [y]), orbit) <==> Splits(w, LangOf(Concat(xs), orbit), LangOf(y, orbit))
    ensures w in LangOf(Alternate(xs + [y]), orbit) <==> w in LangOf(Alternate(xs), orbit) || w in LangOf(y, orbit)
  {
    ListParsed(xs, y);
    hide *;
    ListLangs([], orbit);
    ListLangs(xs, orbit);
    ListLangs(xs + [y], orbit);
    NoList(orbit);
    ListNext(xs, y, orbit);
    ConcatSplits(w, ConcatAll(xs, orbit), LangOf(y, orbit));
  }

  lemma ListParsed(xs: seq<Regexp>, y: Regexp)
    requires Parsed(y) && forall x :: x in xs ==> Parsed(x)
    ensures forall x :: x in xs + [y] ==> Parsed(x)
    ensures Parsed(Concat(xs + [y])) && Parsed(Alternate(xs + [y]))
  {
    assert forall x :: x in xs + [y] <==> x in xs || x == y;
  }

  lemma ListLangs(xs: seq<Regexp>, orbit: Orbit)
    requires forall x :: x in xs ==> Parsed(x)
    ensures Parsed(Concat(xs)) && LangOf(Concat(xs), orbit) == ConcatAll(xs, orbit)
    ensures Parsed(Alternate(xs)) && LangOf(Alternate(xs), orbit) == UnionAll(xs, orbit)
  {
    hide ConcatAll, UnionAll;
  }

  lemma NoList(orbit: Orbit)
    ensures (forall w :: w in ConcatAll([], orbit) <==> w == []) && forall w :: w !in UnionAll([], orbit)
  {
  }

  lemma ListNext(xs: seq<Regexp>, y: Regexp, orbit: Orbit)
    requires Parsed(y) && (forall x :: x in xs ==> Parsed(x)) && forall x :: x in xs + [y] ==> Parsed(x)
    ensures ConcatAll(xs + [y], orbit) == ConcatLang(ConcatAll(xs, orbit), LangOf(y, orbit))
    ensures forall w :: w in UnionAll(xs + [y], orbit) <==> w in UnionAll(xs, orbit) || w in LangOf(y, orbit)
  {
    hide LangOf, Parsed;
    var more := xs + [y];
    assert more[..|more| - 1] == xs && more[|more| - 1] == y;
  }

  lemma PowerNext(a: Lang, k: nat, w: Str)
    ensures w in PowerLang(a, k + 1) <==> Splits(w, PowerLang(a, k), a)
  {
    ConcatSplits(w, PowerLang(a, k), a);
  }

  /** Between `min` and `max` copies: none, if that is enough, or one more than between one less of each. */
  lemma RepeatNext(a: Lang, min: nat, max: int, w: Str)
    requires max < 0 || min <= max
    ensures w in RepeatLang(a, min, max) <==>
            (min == 0 && w == [])
            || (max != 0 && Splits(w, RepeatLang(a, if min == 0 then 0 else min - 1, if max < 0 then -1 else max - 1), a))
  {
    var lo, hi := if min == 0 then 0 else min - 1, if max < 0 then -1 else max - 1;
    hide PowerLang, ConcatLang;
    NoCopies(a);
    if w in RepeatLang(a, min, max) {
      var k: nat :| min <= k && (max < 0 || k <= max) && w in PowerLang(a, k);
      if k > 0 {
        PowerNext(a, k - 1, w);
        var u, v :| u in PowerLang(a, k - 1) && v in a && w == u + v;
        assert u in RepeatLang(a, lo, hi);
      }
    }
    if max != 0 && Splits(w, RepeatLang(a, lo, hi), a) {
      var u, v :| u in RepeatLang(a, lo, hi) && v in a && w == u + v;
      var k: nat :| lo <= k && (hi < 0 || k <= hi) && u in PowerLang(a, k);
      PowerNext(a, k, w);
      assert min <= k + 1 && (max < 0 || k + 1 <= max);
    }
    if min == 0 {
      EmptyRepeats(a, max);
    }
  }

  lemma NoCopies(a: Lang)
    ensures forall w :: w in PowerLang(a, 0) <==> w == []
  {
  }

  /** Repetition: any number of copies, at least one, or a number between two limits. */
  lemma RepeatLaws(x: Regexp, min: nat, max: int, orbit: Orbit, w: Str)
    requires Parsed(x) && (max < 0 || min <= max)
    ensures var a := LangOf(x, orbit);
            (w in LangOf(Star(x), orbit) <==> w == [] || Splits(w, LangOf(Star(x), orbit), a))
            && (w in LangOf(Plus(x), orbit) <==> Splits(w, LangOf(Star(x), orbit), a))
            && (w in LangOf(Repeat(x, min, max), orbit) <==>
                (min == 0 && w == [])
                || (max != 0 && Splits(w, LangOf(Repeat(x, if min == 0 then 0 else min - 1, if max < 0 then -1 else max - 1),
                                                 orbit), a)))
  {
    hide *;
    var a := LangOf(x, orbit);
    var lo, hi := if min == 0 then 0 else min - 1, if max < 0 then -1 else max - 1;
    RepeatLangs(x, min, max, orbit);
    if max != 0 {
      RepeatLangs(x, lo, hi, orbit);
    }
    RepeatNext(a, 0, -1, w);
    RepeatNext(a, 1, -1, w);
    RepeatNext(a, min, max, w);
  }

  lemma RepeatLangs(x: Regexp, min: nat, max: int, orbit: Orbit)
    requires Parsed(x) && (max < 0 || min <= max)
    ensures Parsed(Star(x)) && LangOf(Star(x), orbit) == RepeatLang(LangOf(x, orbit), 0, -1)
    ensures Parsed(Plus(x)) && LangOf(Plus(x), orbit) == RepeatLang(LangOf(x, orbit), 1, -1)
    ensures Parsed(Repeat(x, min, max)) && LangOf(Repeat(x, min, max), orbit) == RepeatLang(LangOf(x, orbit), min, max)
  {
    hide *;
    StarLang(x, orbit);
    PlusLang(x, orbit);
    CountedLang(x, min, max, orbit);
  }

  lemma StarLang(x: Regexp, orbit: Orbit)
    requires Parsed(x)
    ensures Parsed(Star(x)) && LangOf(Star(x), orbit) == RepeatLang(LangOf(x, orbit), 0, -1)
  {
    hide RepeatLang, ConcatAll, UnionAll, FoldedLang, ClassLang, EncodeRunes, RangesInOrder;
  }

  lemma PlusLang(x: Regexp, orbit: Orbit)
    requires Parsed(x)
    ensures Parsed(Plus(x)) && LangOf(Plus(x), orbit) == RepeatLang(LangOf(x, orbit), 1, -1)
  {
    hide RepeatLang, ConcatAll, UnionAll, FoldedLang, ClassLang, EncodeRunes, RangesInOrder;
  }

  lemma CountedLang(x: Regexp, min: nat, max: int, orbit: Orbit)
    requires Parsed(x) && (max < 0 || min <= max)
    ensures Parsed(Repeat(x, min, max)) && LangOf(Repeat(x, min, max), orbit) == RepeatLang(LangOf(x, orbit), min, max)
  {
    hide RepeatLang, ConcatAll, UnionAll, FoldedLang, ClassLang, EncodeRunes, RangesInOrder;
  }
}
