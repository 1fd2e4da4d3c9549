/** Regular expression trees (Go's regexp/syntax.Regexp) and the languages they denote. */
module RegexpSyntax {
  import opened Bytes
  import opened Utf8
  import RuneRanges

  /** A regexp/syntax tree. A class lists its ranges as lo, hi, lo, hi, ...; `max < 0` is no limit. */
  datatype Regexp =
    | NoMatch
    | EmptyMatch
    | BeginLine | EndLine | BeginText | EndText
    | WordBoundary | NoWordBoundary
    | Literal(runes: seq<rune>, fold: bool)
    | CharClass(ranges: seq<rune>)
    | AnyCharNotNL
    | AnyChar
    | Capture(sub: Regexp)
    | Star(sub: Regexp)
    | Plus(sub: Regexp)
    | Quest(sub: Regexp)
    | Repeat(sub: Regexp, min: nat, max: int)
    | Concat(subs: seq<Regexp>)
    | Alternate(subs: seq<Regexp>)

  /** The other members of a rune's case-folding orbit: the runes that repeated
      unicode.SimpleFold calls visit before they come back. */
  type Orbit = rune -> seq<rune>

  /** What the parser guarantees: a class has one rune or whole ranges (the source indexes the list
      in pairs), and ranges and repetition limits are in order. */
  ghost predicate Parsed(re: Regexp) {
    match re
    case CharClass(ranges) => |ranges| == 1 || (|ranges| % 2 == 0 && RangesInOrder(ranges))
    case Capture(x) => Parsed(x)
    case Star(x) => Parsed(x)
    case Plus(x) => Parsed(x)
    case Quest(x) => Parsed(x)
    case Repeat(x, min, max) => (max < 0 || min <= max) && Parsed(x)
    case Concat(xs) => forall x :: x in xs ==> Parsed(x)
    case Alternate(xs) => forall x :: x in xs ==> Parsed(x)
    case _ => true
  }

  predicate RangesInOrder(ranges: seq<rune>) {
    forall k :: 0 <= k < |ranges| / 2 ==> RuneRanges.Low(ranges, k) <= RuneRanges.High(ranges, k)
  }

  // ---------------------------------------------------------------- languages

  type Lang = iset<Str>

  ghost const Epsilon: Lang := iset{[]}
  ghost const Empty: Lang := iset{}

  ghost function ConcatLang(a: Lang, b: Lang): Lang {
    iset w: Str, i: nat | i <= |w| && w[..i] in a && w[i..] in b :: w
  }

  ghost function PowerLang(a: Lang, k: nat): Lang {
    if k == 0 then Epsilon else ConcatLang(PowerLang(a, k - 1), a)
  }

  /** Between `min` and `max` copies; no upper limit when `max < 0`. */
  ghost function RepeatLang(a: Lang, min: nat, max: int): Lang {
    iset w: Str, k: nat | min <= k && (max < 0 || k <= max) && w in PowerLang(a, k) :: w
  }

  ghost function RunesLang(rs: iset<rune>): Lang {
    iset r: rune | r in rs :: EncodeRune(r)
  }

  predicate InRange(ranges: seq<rune>, i: nat, r: rune) {
    2 * i + 1 < |ranges| && ranges[2 * i] <= r <= ranges[2 * i + 1]
  }

  ghost function RangeRunes(ranges: seq<rune>): iset<rune> {
    iset r: rune, i: nat | InRange(ranges, i, r) :: r
  }

  /** A class matches the encodings of its runes, and whatever else the byte matcher accepts for it: next to the
      surrogates that is more, as RuneRanges.AddedExactIff has it. */
  ghost function ClassLang(ranges: seq<rune>): Lang {
    RunesLang(if |ranges| == 1 then iset{ranges[0]} else RangeRunes(ranges)) + RuneRanges.ClassAdded(ranges)
  }

  /** Any character is taken to match any bytes at all, as long as there are some. */
  predicate SomeBytes(w: Str) {
    w != []
  }

  ghost function FoldRunes(r: rune, orbit: Orbit): iset<rune> {
    iset x: rune | x == r || x in orbit(r)
  }

  ghost function FoldedLang(rs: seq<rune>, orbit: Orbit): Lang {
    if rs == [] then Epsilon
    else ConcatLang(FoldedLang(rs[..|rs| - 1], orbit), RunesLang(FoldRunes(rs[|rs| - 1], orbit)))
  }

  /** The byte strings a tree matches. A zero-width assertion is taken to hold anywhere, any character matches any
      bytes, and a class what its ranges compile to, so this is at least everything that the compiled ranges read. */
  ghost function LangOf(re: Regexp, orbit: Orbit): Lang
    requires Parsed(re)
    decreases re, 0
  {
    match re
    case NoMatch => Empty
    case Literal(runes, fold) => if fold then FoldedLang(runes, orbit) else iset{EncodeRunes(runes)}
    case CharClass(ranges) => ClassLang(ranges)
    case AnyCharNotNL => iset w: Str | SomeBytes(w) && w != ['\n' as int]
    case AnyChar => iset w: Str | SomeBytes(w)
    case Capture(x) => LangOf(x, orbit)
    case Star(x) => RepeatLang(LangOf(x, orbit), 0, -1)
    case Plus(x) => RepeatLang(LangOf(x, orbit), 1, -1)
    case Quest(x) => LangOf(x, orbit) + Epsilon
    case Repeat(x, min, max) => RepeatLang(LangOf(x, orbit), min, max)
    case Concat(xs) => ConcatAll(xs, orbit)
    case Alternate(xs) => UnionAll(xs, orbit)
    case _ => Epsilon
  }

  ghost function ConcatAll(xs: seq<Regexp>, orbit: Orbit): Lang
    requires forall x :: x in xs ==> Parsed(x)
    decreases xs, |xs|
  {
    if xs == [] then Epsilon
    else ConcatLang(ConcatAll(xs[..|xs| - 1], orbit), LangOf(xs[|xs| - 1], orbit))
  }

  ghost function UnionAll(xs: seq<Regexp>, orbit: Orbit): Lang
    requires forall x :: x in xs ==> Parsed(x)
    decreases xs, |xs|
  {
    if xs == [] then Empty
    else UnionAll(xs[..|xs| - 1], orbit) + LangOf(xs[|xs| - 1], orbit)
  }
}
