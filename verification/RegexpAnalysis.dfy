/** From regular expressions to trigram queries (index/regexp.go, RegexpQuery and analyze). */
module RegexpAnalysis {
  import opened Bytes
  import opened Utf8
  import opened StringSets
  import opened Queries
  import opened RegexpSyntax

  const maxExact := 7
  const maxSet := 20

  /** regexpInfo; `exact` is None where the source has a nil set. */
  datatype RegexpInfo = RegexpInfo(
    canEmpty: bool,
    exact: Option<StrSet>,
    prefix: StrSet,
    suffix: StrSet,
    query: Query)

  // ---------------------------------------------------------------- andTrigrams

  function Windows(w: Str): StrSet {
    if |w| < 3 then [] else Windows(w[..|w| - 1]) + [w[|w| - 3..]]
  }

  function AndOfTrigrams(w: Str): Query {
    Query(QAnd, Clean(Windows(w), false), [])
  }

  function OrOfAnds(t: StrSet): Query {
    if t == [] then NoneQuery
    else AndOr(OrOfAnds(t[..|t| - 1]), AndOfTrigrams(t[|t| - 1]), QOr)
  }

  /** andTrigrams: `q` and, unless some string is too short, the trigrams of one of the strings. */
  function AndTrigrams(q: Query, t: StrSet): Query {
    if MinLen(t) < 3 then q else AndOr(q, OrOfAnds(t), QAnd)
  }

  // ---------------------------------------------------------------- simplifySet

  predicate Extends(w: Str, p: Str, isSuffix: bool) {
    if isSuffix then HasSuffix(w, p) else HasPrefix(w, p)
  }

  /** Cuts a string of `n` or more bytes to `n - 1`, at the end that does not matter. */
  function Shorten(str: Str, n: nat, isSuffix: bool): (r: Str)
    requires n >= 1
    ensures |r| == if |str| >= n then n - 1 else |str|
    ensures Extends(str, r, isSuffix)
  {
    if |str| < n then str
    else if isSuffix then str[|str| - n + 1..]
    else str[..n - 1]
  }

  function ShortenAll(t: StrSet, n: nat, isSuffix: bool): (r: StrSet)
    requires n >= 1
    ensures |r| == |t| && forall i :: 0 <= i < |t| ==> r[i] == Shorten(t[i], n, isSuffix)
  {
    seq(|t|, i requires 0 <= i < |t| => Shorten(t[i], n, isSuffix))
  }

  /** The shortening loop: 3 bytes first, then ever shorter while more than maxSet strings remain. */
  function Shrink(t: StrSet, n: nat, isSuffix: bool): StrSet
    requires n >= 1
    decreases n
  {
    var u := Clean(ShortenAll(t, n, isSuffix), isSuffix);
    if |u| > maxSet then
      ShortenToEmpty(t, n, isSuffix);
      Shrink(u, n - 1, isSuffix)
    else u
  }

  lemma SortedDistinct(u: StrSet, i: nat, j: nat, isSuffix: bool)
    requires StrictlySorted(u, isSuffix) && i < j < |u|
    ensures u[i] != u[j]
  {
    BeforeIrreflexive(u[i], isSuffix);
  }

  lemma AllEqualSmall(u: StrSet, x: Str, isSuffix: bool)
    requires StrictlySorted(u, isSuffix) && forall y :: y in u ==> y == x
    ensures |u| <= 1
  {
    if |u| > 1 {
      assert u[0] in u && u[1] in u;
      SortedDistinct(u, 0, 1, isSuffix);
    }
  }

  /** Cutting to length 0 leaves at most one string, so the loop stops in time. */
  lemma ShortenToEmpty(t: StrSet, n: nat, isSuffix: bool)
    requires n >= 1
    ensures n == 1 ==> |Clean(ShortenAll(t, n, isSuffix), isSuffix)| <= 1
  {
    if n == 1 {
      var s := ShortenAll(t, 1, isSuffix);
      var u := Clean(s, isSuffix);
      CleanSorted(s, isSuffix);
      AllEqualSmall(u, [], isSuffix);
    }
  }

  /** The redundancy loop: skips a string that extends the last one kept. */
  function DropRedundant(kept: StrSet, t: StrSet, isSuffix: bool): StrSet
    decreases t
  {
    if t == [] then kept
    else if kept == [] || !Extends(t[0], kept[|kept| - 1], isSuffix) then
      DropRedundant(kept + [t[0]], t[1..], isSuffix)
    else DropRedundant(kept, t[1..], isSuffix)
  }

  function SimplifiedSet(t: StrSet, isSuffix: bool): StrSet {
    DropRedundant([], Shrink(Clean(t, isSuffix), 3, isSuffix), isSuffix)
  }

  // ---------------------------------------------------------------- simplify

  function AddExact(info: RegexpInfo): RegexpInfo {
    if info.exact.Some? then info.(query := AndTrigrams(info.query, info.exact.value)) else info
  }

  function Heads(t: StrSet): (r: StrSet)
    ensures |r| == |t| && forall i :: 0 <= i < |t| ==> r[i] == Shorten(t[i], 3, false)
  {
    ShortenAll(t, 3, false)
  }

  function Tails(t: StrSet): (r: StrSet)
    ensures |r| == |t| && forall i :: 0 <= i < |t| ==> r[i] == Shorten(t[i], 3, true)
  {
    ShortenAll(t, 3, true)
  }

  /** Whether simplify gives up the exact set. */
  predicate TooBig(exact: StrSet, force: bool) {
    |exact| > maxExact || (MinLen(exact) >= 3 && force) || MinLen(exact) >= 4
  }

  /** The first half of simplify. */
  function Flush(info: RegexpInfo, force: bool): RegexpInfo {
    if info.exact.None? then info
    else
      var exact := Clean(info.exact.value, false);
      if TooBig(exact, force) then
        RegexpInfo(info.canEmpty, None, info.prefix + Heads(exact), info.suffix + Tails(exact),
                   AndTrigrams(info.query, exact))
      else info.(exact := Some(exact))
  }

  /** The second half of simplify: simplifySet on the prefixes, then on the suffixes. */
  function SimplifySets(info: RegexpInfo): RegexpInfo {
    if info.exact.Some? then info
    else
      var q := AndTrigrams(info.query, Clean(info.prefix, false));
      info.(prefix := SimplifiedSet(info.prefix, false),
            suffix := SimplifiedSet(info.suffix, true),
            query := AndTrigrams(q, Clean(info.suffix, true)))
  }

  function Simplify(info: RegexpInfo, force: bool): RegexpInfo {
    SimplifySets(Flush(info, force))
  }

  // ---------------------------------------------------------------- analyze

  const AnyMatch := RegexpInfo(true, None, [[]], [[]], AllQuery)
  const AnyCharInfo := RegexpInfo(false, None, [[]], [[]], AllQuery)
  const NoMatchInfo := RegexpInfo(false, None, [], [], NoneQuery)
  const EmptyString := RegexpInfo(true, Some([[]]), [], [], AllQuery)

  function ExactInfo(exact: StrSet): RegexpInfo {
    RegexpInfo(false, Some(exact), [], [], AllQuery)
  }

  /** concat before its closing simplify. The result's canEmpty stays false, as in the source. */
  function RawConcat(x: RegexpInfo, y: RegexpInfo): RegexpInfo {
    var q := AndOr(x.query, y.query, QAnd);
    if x.exact.Some? && y.exact.Some? then
      RegexpInfo(false, Some(Cross(x.exact.value, y.exact.value, false)), [], [], q)
    else
      var prefix :=
        if x.exact.Some? then Cross(x.exact.value, y.prefix, false)
        else if x.canEmpty then Union(x.prefix, y.prefix, false)
        else x.prefix;
      var suffix :=
        if y.exact.Some? then Cross(x.suffix, y.exact.value, true)
        else if y.canEmpty then Union(y.suffix, x.suffix, true)
        else y.suffix;
      var q' :=
        if x.exact.None? && y.exact.None? && |x.suffix| <= maxSet && |y.prefix| <= maxSet
           && MinLen(x.suffix) + MinLen(y.prefix) >= 3
        then AndTrigrams(q, Cross(x.suffix, y.prefix, false))
        else q;
      RegexpInfo(false, None, prefix, suffix, q')
  }

  function ConcatInfo(x: RegexpInfo, y: RegexpInfo): RegexpInfo {
    Simplify(RawConcat(x, y), false)
  }

  /** alternate before its closing simplify. */
  function RawAlternate(x: RegexpInfo, y: RegexpInfo): RegexpInfo {
    var canEmpty := x.canEmpty || y.canEmpty;
    if x.exact.Some? && y.exact.Some? then
      RegexpInfo(canEmpty, Some(Union(x.exact.value, y.exact.value, false)), [], [],
                 AndOr(x.query, y.query, QOr))
    else if x.exact.Some? then
      RegexpInfo(canEmpty, None,
                 Union(x.exact.value, y.prefix, false), Union(x.exact.value, y.suffix, true),
                 AndOr(AddExact(x).query, y.query, QOr))
    else if y.exact.Some? then
      RegexpInfo(canEmpty, None,
                 Union(x.prefix, y.exact.value, false), Union(x.suffix, y.exact.value, true),
                 AndOr(x.query, AddExact(y).query, QOr))
    else
      RegexpInfo(canEmpty, None,
                 Union(x.prefix, y.prefix, false), Union(x.suffix, y.suffix, true),
                 AndOr(x.query, y.query, QOr))
  }

  function AlternateInfo(x: RegexpInfo, y: RegexpInfo): RegexpInfo {
    Simplify(RawAlternate(x, y), false)
  }

  /** The sum over the ranges of hi - lo. */
  function ClassSpread(ranges: seq<rune>): int {
    if |ranges| < 2 then 0 else ClassSpread(ranges[..|ranges| - 2]) + ranges[|ranges| - 1] - ranges[|ranges| - 2]
  }

  function RangeStrings(lo: rune, hi: rune): StrSet
    decreases hi - lo
  {
    if lo > hi then [] else [EncodeRune(lo)] + RangeStrings(lo + 1, hi)
  }

  function ClassStrings(ranges: seq<rune>): StrSet {
    if |ranges| < 2 then []
    else ClassStrings(ranges[..|ranges| - 2]) + RangeStrings(ranges[|ranges| - 2], ranges[|ranges| - 1])
  }

  function AnalyzeClass(ranges: seq<rune>): RegexpInfo {
    if |ranges| == 0 then NoMatchInfo
    else if |ranges| == 1 then Simplify(ExactInfo([EncodeRune(ranges[0])]), false)
    else if ClassSpread(ranges) > 100 then AnyCharInfo
    else Simplify(ExactInfo(ClassStrings(ranges)), false)
  }

  /** The class a single case-folded letter is rewritten into: each orbit member as a range. */
  function OrbitRanges(rs: seq<rune>): seq<rune> {
    if rs == [] then [] else OrbitRanges(rs[..|rs| - 1]) + [rs[|rs| - 1], rs[|rs| - 1]]
  }

  function AnalyzeFoldedRune(r: rune, orbit: Orbit): RegexpInfo {
    AnalyzeClass(OrbitRanges([r] + orbit(r)))
  }

  /** The loop over the letters of a case-folded literal. */
  function AnalyzeFoldedRunes(rs: seq<rune>, orbit: Orbit): RegexpInfo {
    if rs == [] then EmptyString
    else ConcatInfo(AnalyzeFoldedRunes(rs[..|rs| - 1], orbit), AnalyzeFoldedRune(rs[|rs| - 1], orbit))
  }

  function AnalyzeLiteral(runes: seq<rune>, fold: bool, orbit: Orbit): RegexpInfo {
    if !fold then Simplify(ExactInfo([EncodeRunes(runes)]), false)
    else if |runes| == 0 then EmptyString
    else if |runes| == 1 then AnalyzeFoldedRune(runes[0], orbit)
    else AnalyzeFoldedRunes(runes, orbit)
  }

  /** x+, and x{n,m} with n > 0: an exact set becomes prefixes and suffixes. */
  function AnalyzePlus(x: RegexpInfo): RegexpInfo {
    Simplify(if x.exact.Some? then x.(prefix := x.exact.value, suffix := x.exact.value, exact := None) else x,
             false)
  }

  function Analyze(re: Regexp, orbit: Orbit): RegexpInfo
    decreases re, 0
  {
    match re
    case NoMatch => NoMatchInfo
    case Literal(runes, fold) => AnalyzeLiteral(runes, fold, orbit)
    case CharClass(ranges) => AnalyzeClass(ranges)
    case AnyCharNotNL => AnyCharInfo
    case AnyChar => AnyCharInfo
    case Capture(x) => Analyze(x, orbit)
    case Star(_) => AnyMatch
    case Plus(x) => AnalyzePlus(Analyze(x, orbit))
    case Quest(x) => AlternateInfo(Analyze(x, orbit), EmptyString)
    case Repeat(x, min, _) => if min == 0 then AnyMatch else AnalyzePlus(Analyze(x, orbit))
    case Concat(xs) => FoldConcat(xs, orbit)
    case Alternate(xs) => FoldAlternate(xs, orbit)
    case _ => EmptyString
  }

  /** fold(concat, subs, emptyString()). */
  function FoldConcat(xs: seq<Regexp>, orbit: Orbit): RegexpInfo
    decreases xs, |xs|
  {
    if |xs| == 0 then EmptyString
    else if |xs| == 1 then Analyze(xs[0], orbit)
    else ConcatInfo(FoldConcat(xs[..|xs| - 1], orbit), Analyze(xs[|xs| - 1], orbit))
  }

  /** fold(alternate, subs, noMatch()). */
  function FoldAlternate(xs: seq<Regexp>, orbit: Orbit): RegexpInfo
    decreases xs, |xs|
  {
    if |xs| == 0 then NoMatchInfo
    else if |xs| == 1 then Analyze(xs[0], orbit)
    else AlternateInfo(FoldAlternate(xs[..|xs| - 1], orbit), Analyze(xs[|xs| - 1], orbit))
  }

  function RegexpQuery(re: Regexp, orbit: Orbit): Query {
    AddExact(Simplify(Analyze(re, orbit), true)).query
  }
}
