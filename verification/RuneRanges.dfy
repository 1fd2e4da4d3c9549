/** Ranges of runes as byte strings (regexp/utf.go, addRange): what they spell, which ranges are boxes of bytes, and
    what splitting a range into boxes accepts. */
module RuneRanges {
  import opened Bytes
  import opened Utf8

  // ---------------------------------------------------------------- what a range of runes spells

  function Upper(c: int): int {
    if 'a' as int <= c <= 'z' as int then c - 32 else c
  }

  /** `w` spells rune `r`: its encoding, or with folding an ASCII letter of either case. */
  predicate Spells(w: Str, r: rune, fold: bool) {
    0 <= r <= MaxRune && if fold && r < RuneSelf then |w| == 1 && Upper(w[0]) == r else w == Encode(r)
  }

  ghost predicate RangeSpells(w: Str, lo: rune, hi: rune, fold: bool) {
    exists r: rune :: lo <= r <= hi && Spells(w, r, fold)
  }

  /** The words of the runes from `lo` to `hi`. */
  ghost function RangeWords(lo: rune, hi: rune, fold: bool): iset<Str> {
    iset w: Str | RangeSpells(w, lo, hi, fold)
  }

  lemma RangeSplit(lo: rune, mid: rune, hi: rune, fold: bool)
    requires lo - 1 <= mid <= hi
    ensures RangeWords(lo, hi, fold) == RangeWords(lo, mid, fold) + RangeWords(mid + 1, hi, fold)
  {
    forall w: Str
      ensures w in RangeWords(lo, hi, fold) <==> w in RangeWords(lo, mid, fold) || w in RangeWords(mid + 1, hi, fold)
    {
      if w in RangeWords(lo, hi, fold) {
        var r: rune :| lo <= r <= hi && Spells(w, r, fold);
        assert r <= mid || mid + 1 <= r;
      }
    }
  }

  /** The largest rune that encodes in `n` bytes. */
  function MaxRuneOf(n: nat): rune
    requires 1 <= n <= 3
  {
    var b := if n == 1 then 7 else 8 - (n + 1) + 6 * (n - 1);
    TwoTo(b) - 1
  }

  function TwoTo(n: nat): (r: nat)
    ensures r > 0
  {
    if n == 0 then 1 else 2 * TwoTo(n - 1)
  }

  lemma MaxRunes()
    ensures MaxRuneOf(1) == 0x7F && MaxRuneOf(2) == 0x7FF && MaxRuneOf(3) == 0xFFFF
  {
    assert TwoTo(4) == 16;
    assert TwoTo(7) == 128;
    assert TwoTo(11) == 2048;
    assert TwoTo(14) == 16384;
    assert TwoTo(16) == 65536;
  }

  /** 64 to the power of `i`: the last `i` bytes of an encoding hold a number below it. */
  function Pow64(i: nat): nat
    requires 1 <= i <= 3
  {
    if i == 1 then 64 else if i == 2 then 4096 else 262144
  }

  /** The range splits at the last `i` bytes: it spans several leads without covering all continuations. */
  predicate Ragged(lo: rune, hi: rune, i: nat)
    requires 1 <= i <= 3
  {
    lo / Pow64(i) != hi / Pow64(i) && (lo % Pow64(i) != 0 || hi % Pow64(i) != Pow64(i) - 1)
  }

  /** EncodeRune replaces surrogates. A range splits without ever starting or ending in one if it has none, or
      all of them with the rest of their blocks of 4096. */
  predicate Safe(lo: rune, hi: rune) {
    hi < 0xD800 || 0xDFFF < lo || (lo <= 0xD000 && 0xEFFF <= hi)
  }

  // ---------------------------------------------------------------- a range that is a box

  /** In one digit: numbers from `lo` to `hi` are pairs of digits in a box. */
  lemma DigitBox(lo: nat, hi: nat, q: int, d: int)
    requires lo <= hi && (lo / 64 == hi / 64 || (lo % 64 == 0 && hi % 64 == 63)) && 0 <= d < 64
    ensures lo <= 64 * q + d <= hi <==> lo / 64 <= q <= hi / 64 && lo % 64 <= d <= hi % 64
  {
  }

  /** Every byte of `w` lies between those of `a` and `b`. */
  predicate InBox(w: Str, a: Str, b: Str)
    requires |a| == |b|
  {
    |w| == |a| && forall k :: 0 <= k < |w| ==> a[k] <= w[k] <= b[k]
  }

  lemma DivDiv(r: nat)
    ensures r / 4096 == r / 64 / 64 && r / 262144 == r / 64 / 64 / 64 && r / 4096 % 64 == r / 64 / 64 % 64
  {
  }

  lemma RaggedDigits(lo: nat, hi: nat)
    requires lo <= hi && !Ragged(lo, hi, 1) && !Ragged(lo, hi, 2) && !Ragged(lo, hi, 3)
    ensures lo / 64 == hi / 64 || (lo % 64 == 0 && hi % 64 == 63)
    ensures lo / 64 / 64 == hi / 64 / 64 || (lo / 64 % 64 == 0 && hi / 64 % 64 == 63)
    ensures lo / 64 / 64 / 64 == hi / 64 / 64 / 64 || (lo / 64 / 64 % 64 == 0 && hi / 64 / 64 % 64 == 63)
  {
    DivDiv(lo);
    DivDiv(hi);
  }

  /** The rune with a leading number and some digits in base 64. */
  function Number(lead: int, digits: seq<int>): int {
    if digits == [] then lead else 64 * Number(lead, digits[..|digits| - 1]) + digits[|digits| - 1]
  }

  /** The leading number of `r` in front of its last `n` digits. */
  function Lead(r: nat, n: nat): nat {
    if n == 0 then r else Lead(r / 64, n - 1)
  }

  /** The last `n` digits of `r`. */
  function Digits(r: nat, n: nat): (d: seq<int>)
    ensures |d| == n && forall k :: 0 <= k < n ==> 0 <= d[k] < 64
  {
    if n == 0 then [] else Digits(r / 64, n - 1) + [r % 64]
  }

  predicate DigitsWithin(lo: nat, hi: nat, n: nat, lead: int, digits: seq<int>)
    requires |digits| == n
  {
    Lead(lo, n) <= lead <= Lead(hi, n) && forall k :: 0 <= k < n ==> Digits(lo, n)[k] <= digits[k] <= Digits(hi, n)[k]
  }

  /** At each of the last `n` digits, `lo` and `hi` agree in front of it or cover all of it. */
  predicate Even(lo: nat, hi: nat, n: nat) {
    n == 0 || ((lo / 64 == hi / 64 || (lo % 64 == 0 && hi % 64 == 63)) && Even(lo / 64, hi / 64, n - 1))
  }

  lemma {:induction false} DigitsBox(lo: nat, hi: nat, n: nat, lead: int, digits: seq<int>)
    requires lo <= hi && Even(lo, hi, n) && |digits| == n && forall k :: 0 <= k < n ==> 0 <= digits[k] < 64
    ensures lo <= Number(lead, digits) <= hi <==> DigitsWithin(lo, hi, n, lead, digits)
  {
    hide Digits, Lead;
    if n == 0 {
      NoDigits(lo);
      NoDigits(hi);
    } else {
      var front, d := digits[..n - 1], digits[n - 1];
      DigitsBox(lo / 64, hi / 64, n - 1, lead, front);
      hide Even;
      DigitBox(lo, hi, Number(lead, front), d);
      NextDigit(lo, n - 1);
      NextDigit(hi, n - 1);
      WithinStep(lo, hi, n, lead, digits);
    }
  }

  lemma WithinStep(lo: nat, hi: nat, n: nat, lead: int, digits: seq<int>)
    requires n > 0 && |digits| == n
    ensures DigitsWithin(lo, hi, n, lead, digits) <==>
            DigitsWithin(lo / 64, hi / 64, n - 1, lead, digits[..n - 1]) && lo % 64 <= digits[n - 1] <= hi % 64
  {
    hide Digits, Lead;
    NextDigit(lo, n - 1);
    NextDigit(hi, n - 1);
    var a, b := lo / 64, hi / 64;
    assert forall k :: 0 <= k < n ==> Digits(lo, n)[k] == if k < n - 1 then Digits(a, n - 1)[k] else lo % 64;
    assert forall k :: 0 <= k < n ==> Digits(hi, n)[k] == if k < n - 1 then Digits(b, n - 1)[k] else hi % 64;
    assert forall k :: 0 <= k < n - 1 ==> digits[..n - 1][k] == digits[k];
  }

  lemma {:induction false} NumberOfDigits(r: nat, n: nat)
    ensures Number(Lead(r, n), Digits(r, n)) == r
  {
    hide Digits, Lead;
    if n == 0 {
      NoDigits(r);
    } else {
      NumberOfDigits(r / 64, n - 1);
      NextDigit(r, n - 1);
      assert Digits(r, n)[..n - 1] == Digits(r / 64, n - 1);
    }
  }

  lemma {:induction false} DigitsOfNumber(lead: nat, digits: seq<int>)
    requires forall k :: 0 <= k < |digits| ==> 0 <= digits[k] < 64
    ensures Number(lead, digits) >= 0
    ensures Lead(Number(lead, digits), |digits|) == lead && Digits(Number(lead, digits), |digits|) == digits
  {
    if digits != [] {
      var n := |digits|;
      var front, d := digits[..n - 1], digits[n - 1];
      DigitsOfNumber(lead, front);
      assert Number(lead, digits) / 64 == Number(lead, front) && Number(lead, digits) % 64 == d;
      assert digits == front + [d];
    }
  }

  /** The first byte of an encoding with `n` continuation bytes, for a leading number of 0. */
  function Mark(n: nat): nat {
    if n == 0 then 0 else if n == 1 then 0xC0 else if n == 2 then 0xE0 else 0xF0
  }

  /** An encoding is its leading number, marked, and its digits as continuation bytes. */
  lemma EncodeDigits(r: rune)
    requires 0 <= r <= MaxRune
    ensures var n := |Encode(r)| - 1;
            Encode(r)[0] == Mark(n) + Lead(r, n)
            && forall k :: 0 <= k < n ==> Encode(r)[k + 1] == 0x80 + Digits(r, n)[k]
  {
    hide Digits, Lead, Encode;
    EncodeIs(r, r / 64, r / 64 / 64);
    ThreeDigits(r, r / 64, r / 64 / 64);
    NoDigits(r);
  }

  lemma EncodeIs(r: rune, a: nat, b: nat)
    requires 0 <= r <= MaxRune && a == r / 64 && b == a / 64
    ensures Encode(r) == if r < 0x80 then [r]
                         else if r < 0x800 then [0xC0 + a, 0x80 + r % 64]
                         else if r < 0x10000 then [0xE0 + b, 0x80 + a % 64, 0x80 + r % 64]
                         else [0xF0 + b / 64, 0x80 + b % 64, 0x80 + a % 64, 0x80 + r % 64]
  {
    DivDiv(r);
  }

  lemma NoDigits(r: nat)
    ensures Lead(r, 0) == r && Digits(r, 0) == []
  {
  }

  lemma NextDigit(r: nat, n: nat)
    ensures Lead(r, n + 1) == Lead(r / 64, n) && Digits(r, n + 1) == Digits(r / 64, n) + [r % 64]
  {
  }

  lemma ThreeDigits(r: nat, a: nat, b: nat)
    requires a == r / 64 && b == a / 64
    ensures Lead(r, 1) == a && Lead(r, 2) == b && Lead(r, 3) == b / 64
    ensures Digits(r, 1) == [r % 64] && Digits(r, 2) == [a % 64, r % 64] && Digits(r, 3) == [b % 64, a % 64, r % 64]
  {
    hide Lead, Digits;
    NextDigit(r, 0);
    NextDigit(r, 1);
    NextDigit(r, 2);
    NextDigit(a, 0);
    NextDigit(a, 1);
    NextDigit(b, 0);
    NoDigits(a);
    NoDigits(b);
    NoDigits(b / 64);
  }

  lemma RaggedEven(lo: nat, hi: nat, n: nat)
    requires lo <= hi && n <= 3 && !Ragged(lo, hi, 1) && !Ragged(lo, hi, 2) && !Ragged(lo, hi, 3)
    ensures Even(lo, hi, n)
  {
    RaggedDigits(lo, hi);
    hide Ragged, Even;
    EvenStep(lo, hi, 0);
    EvenStep(lo, hi, 1);
    EvenStep(lo, hi, 2);
    EvenStep(lo / 64, hi / 64, 0);
    EvenStep(lo / 64, hi / 64, 1);
    EvenStep(lo / 64 / 64, hi / 64 / 64, 0);
  }

  lemma EvenStep(lo: nat, hi: nat, n: nat)
    ensures Even(lo, hi, 0) && Even(lo / 64, hi / 64, 0)
    ensures Even(lo, hi, n + 1) <==> (lo / 64 == hi / 64 || (lo % 64 == 0 && hi % 64 == 63)) && Even(lo / 64, hi / 64, n)
  {
  }

  /** A word in the box of `lo` and `hi` spells the number of its digits. */
  lemma BoxSpells(w: Str, lo: rune, hi: rune)
    requires 0x80 <= lo <= hi <= MaxRune && |Encode(lo)| == |Encode(hi)|
    requires Even(lo, hi, |Encode(lo)| - 1) && InBox(w, Encode(lo), Encode(hi))
    ensures RangeSpells(w, lo, hi, false)
  {
    hide Even, Encode, Digits, Lead, Number;
    var n := |Encode(lo)| - 1;
    EncodeDigits(lo);
    EncodeDigits(hi);
    var w0: int := w[0];
    var lead := w0 - Mark(n);
    forall j | 1 <= j <= n
      ensures Encode(lo)[j] <= w[j] <= Encode(hi)[j] && 0x80 <= w[j] < 0xC0
    {
      assert Encode(lo)[(j - 1) + 1] == 0x80 + Digits(lo, n)[j - 1];
      assert Encode(hi)[(j - 1) + 1] == 0x80 + Digits(hi, n)[j - 1];
    }
    var digits := Continuations(w);
    DigitsBox(lo, hi, n, lead, digits);
    var r := Number(lead, digits);
    DigitsOfNumber(lead, digits);
    SameSize(lo, r, hi);
    EncodeDigits(r);
    forall k | 0 <= k < n + 1
      ensures w[k] == Encode(r)[k]
    {
      assert k > 0 ==> Encode(r)[(k - 1) + 1] == 0x80 + digits[k - 1];
    }
    assert w == Encode(r);
    assert Spells(w, r, false);
  }

  function Continuations(w: Str): (d: seq<int>)
    requires w != []
    ensures |d| == |w| - 1 && forall k :: 0 <= k < |d| ==> d[k] == w[k + 1] as int - 0x80
  {
    seq(|w| - 1, k requires 0 <= k < |w| - 1 => w[k + 1] as int - 0x80)
  }

  lemma SameSize(lo: rune, r: rune, hi: rune)
    requires 0 <= lo <= r <= hi <= MaxRune && |Encode(lo)| == |Encode(hi)|
    ensures |Encode(r)| == |Encode(lo)|
  {
  }

  lemma SpellsInBox(r: rune, lo: rune, hi: rune)
    requires 0x80 <= lo <= r <= hi <= MaxRune && |Encode(lo)| == |Encode(hi)| && Even(lo, hi, |Encode(lo)| - 1)
    ensures InBox(Encode(r), Encode(lo), Encode(hi))
  {
    hide Even, Encode, Digits, Lead, Number;
    var n := |Encode(lo)| - 1;
    SameSize(lo, r, hi);
    EncodeDigits(lo);
    EncodeDigits(hi);
    EncodeDigits(r);
    NumberOfDigits(r, n);
    DigitsBox(lo, hi, n, Lead(r, n), Digits(r, n));
    forall k | 0 <= k < n + 1
      ensures Encode(lo)[k] <= Encode(r)[k] <= Encode(hi)[k]
    {
      assert k > 0 ==> Digits(lo, n)[k - 1] <= Digits(r, n)[k - 1] <= Digits(hi, n)[k - 1];
      assert k > 0 ==> Encode(r)[(k - 1) + 1] == 0x80 + Digits(r, n)[k - 1];
      assert k > 0 ==> Encode(lo)[(k - 1) + 1] == 0x80 + Digits(lo, n)[k - 1];
      assert k > 0 ==> Encode(hi)[(k - 1) + 1] == 0x80 + Digits(hi, n)[k - 1];
    }
  }

  /** A range of one length that is not ragged anywhere is a box of bytes. */
  lemma BoxIsRange(w: Str, lo: rune, hi: rune, fold: bool)
    requires 0x80 <= lo <= hi <= MaxRune && |Encode(lo)| == |Encode(hi)|
    requires !Ragged(lo, hi, 1) && !Ragged(lo, hi, 2) && !Ragged(lo, hi, 3)
    ensures InBox(w, Encode(lo), Encode(hi)) <==> w in RangeWords(lo, hi, fold)
  {
    hide Ragged, InBox, Encode;
    RaggedEven(lo, hi, |Encode(lo)| - 1);
    if InBox(w, Encode(lo), Encode(hi)) {
      BoxSpells(w, lo, hi);
      var r: rune :| lo <= r <= hi && Spells(w, r, false);
      assert Spells(w, r, fold);
    }
    if r: rune :| lo <= r <= hi && Spells(w, r, fold) {
      SpellsInBox(r, lo, hi);
    }
  }

  // ---------------------------------------------------------------- how a range splits

  lemma AsciiWords(s: Str, lo: rune, hi: rune, fold: bool)
    requires 0 <= lo <= hi < RuneSelf
    ensures s in RangeWords(lo, hi, fold) <==> |s| == 1 && lo <= (if fold then Upper(s[0]) else s[0]) <= hi
  {
    if |s| == 1 && lo <= (if fold then Upper(s[0]) else s[0]) <= hi {
      assert Spells(s, if fold then Upper(s[0]) else s[0], fold);
    }
  }

  lemma Pow64Positive(i: nat)
    requires 1 <= i <= 3
    ensures Pow64(i) > 0
  {
  }

  lemma Utf8Sizes()
    ensures UTFMax == 4 && RuneSelf == 0x80
  {
  }

  lemma OneLength(lo: rune, hi: rune)
    requires 0 <= lo <= hi <= MaxRune && forall j :: 1 <= j < UTFMax ==> !(lo <= MaxRuneOf(j) < hi)
    ensures |Encode(lo)| == |Encode(hi)|
    ensures hi < RuneSelf || RuneSelf <= lo
  {
    MaxRunes();
    hide MaxRuneOf;
    assert !(lo <= MaxRuneOf(1) < hi) && !(lo <= MaxRuneOf(2) < hi) && !(lo <= MaxRuneOf(3) < hi);
  }

  lemma SafeLengths(lo: rune, hi: rune, i: nat)
    requires 0 <= lo <= hi <= MaxRune && Safe(lo, hi) && 1 <= i <= 3 && lo <= MaxRuneOf(i) < hi
    ensures Safe(lo, MaxRuneOf(i)) && Safe(MaxRuneOf(i) + 1, hi)
  {
    MaxRunes();
  }

  lemma SafeFront(lo: rune, hi: rune, i: nat)
    requires 0 <= lo <= hi <= MaxRune && Safe(lo, hi) && |Encode(lo)| == |Encode(hi)| && 1 <= i <= 3
    requires lo / Pow64(i) != hi / Pow64(i) && lo % Pow64(i) != 0
    ensures var mid := lo - lo % Pow64(i) + Pow64(i) - 1; lo <= mid < hi && Safe(lo, mid) && Safe(mid + 1, hi)
  {
  }

  lemma SafeBack(lo: rune, hi: rune, i: nat)
    requires 0 <= lo <= hi <= MaxRune && Safe(lo, hi) && |Encode(lo)| == |Encode(hi)| && 1 <= i <= 3
    requires lo / Pow64(i) != hi / Pow64(i) && hi % Pow64(i) != Pow64(i) - 1
    ensures var mid := hi - hi % Pow64(i) - 1; lo <= mid < hi && Safe(lo, mid) && Safe(mid + 1, hi)
  {
  }

  /** What is left when nothing splits: two runes with encodings of one length, neither of them replaced. */
  lemma LeafBounds(lo: rune, hi: rune)
    requires 0 <= lo <= hi <= MaxRune && Safe(lo, hi) && |Encode(lo)| == |Encode(hi)|
    ensures ValidRune(lo) && ValidRune(hi) && EncodeRune(lo) == Encode(lo) && EncodeRune(hi) == Encode(hi)
  {
  }


  // ---------------------------------------------------------------- what addRange accepts

  /** The range holds the largest rune of a length, and more. */
  predicate CutsLength(lo: rune, hi: rune, i: nat)
    requires 1 <= i <= 3
  {
    lo <= MaxRuneOf(i) < hi
  }

  predicate CutsFront(lo: rune, hi: rune, i: nat)
    requires 1 <= i <= 3
  {
    lo / Pow64(i) != hi / Pow64(i) && lo % Pow64(i) != 0
  }

  predicate CutsBack(lo: rune, hi: rune, i: nat)
    requires 1 <= i <= 3
  {
    lo / Pow64(i) != hi / Pow64(i) && hi % Pow64(i) != Pow64(i) - 1
  }

  function FrontEnd(lo: rune, i: nat): rune
    requires 1 <= i <= 3
  {
    lo - lo % Pow64(i) + Pow64(i) - 1
  }

  function BackEnd(hi: rune, i: nat): rune
    requires 1 <= i <= 3
  {
    hi - hi % Pow64(i) - 1
  }

  function RaggedSplit(lo: rune, hi: rune): rune {
    if CutsFront(lo, hi, 1) then FrontEnd(lo, 1) else if CutsBack(lo, hi, 1) then BackEnd(hi, 1)
    else if CutsFront(lo, hi, 2) then FrontEnd(lo, 2) else if CutsBack(lo, hi, 2) then BackEnd(hi, 2)
    else if CutsFront(lo, hi, 3) then FrontEnd(lo, 3) else if CutsBack(lo, hi, 3) then BackEnd(hi, 3)
    else hi
  }

  /** The end of the first part that addRange splits a range into, `hi` if it does not split it: at the largest rune
      of a length, or else, outside ASCII, where the leading bytes change. */
  function SplitAt(lo: rune, hi: rune): rune {
    if CutsLength(lo, hi, 1) then MaxRuneOf(1) else if CutsLength(lo, hi, 2) then MaxRuneOf(2)
    else if CutsLength(lo, hi, 3) then MaxRuneOf(3) else if hi < RuneSelf then hi else RaggedSplit(lo, hi)
  }

  /** What addRange accepts: the parts of a range one by one, an unsplit one between the encodings of its ends, which
      EncodeRune may have replaced. */
  ghost function Added(lo: rune, hi: rune, fold: bool): iset<Str>
    decreases hi - lo
  {
    if lo > hi || lo < 0 || hi > MaxRune then iset{}
    else
      var mid := SplitAt(lo, hi);
      if lo <= mid < hi then Added(lo, mid, fold) + Added(mid + 1, hi, fold) else PartWords(lo, hi, fold)
  }

  ghost function PartWords(lo: rune, hi: rune, fold: bool): iset<Str> {
    if hi < RuneSelf then RangeWords(lo, hi, fold) else BoxWords(EncodeRune(lo), EncodeRune(hi))
  }

  ghost function BoxWords(a: Str, b: Str): iset<Str> {
    iset w: Str | |a| == |b| && InBox(w, a, b)
  }

  lemma CutBounds(lo: rune, hi: rune, i: nat)
    requires 0 <= lo <= hi && 1 <= i <= 3
    ensures CutsFront(lo, hi, i) ==> lo <= FrontEnd(lo, i) < hi
    ensures CutsBack(lo, hi, i) ==> lo <= BackEnd(hi, i) < hi
    ensures Ragged(lo, hi, i) <==> CutsFront(lo, hi, i) || CutsBack(lo, hi, i)
  {
  }

  /** Whatever a range is split into lies in it. */
  lemma SplitInside(lo: rune, hi: rune)
    requires 0 <= lo <= hi <= MaxRune
    ensures lo <= SplitAt(lo, hi) <= hi
  {
    hide MaxRuneOf, Pow64, CutsFront, CutsBack, FrontEnd, BackEnd;
    CutBounds(lo, hi, 1);
    CutBounds(lo, hi, 2);
    CutBounds(lo, hi, 3);
  }

  /** A split keeps what is accepted, whatever it is. */
  lemma AddedSplit(lo: rune, hi: rune, fold: bool)
    requires 0 <= lo <= SplitAt(lo, hi) < hi <= MaxRune
    ensures var mid := SplitAt(lo, hi); Added(lo, hi, fold) == Added(lo, mid, fold) + Added(mid + 1, hi, fold)
  {
    hide SplitAt;
  }

  lemma AddedPart(lo: rune, hi: rune, fold: bool)
    requires 0 <= lo <= hi <= MaxRune && SplitAt(lo, hi) == hi
    ensures Added(lo, hi, fold) == PartWords(lo, hi, fold)
  {
    hide SplitAt;
  }

  /** A range outside ASCII that is not split: its ends have one length and are even at every byte. */
  lemma Unsplit(lo: rune, hi: rune)
    requires 0 <= lo <= hi <= MaxRune && SplitAt(lo, hi) == hi && RuneSelf <= hi
    ensures RuneSelf <= lo && |Encode(lo)| == |Encode(hi)|
    ensures !Ragged(lo, hi, 1) && !Ragged(lo, hi, 2) && !Ragged(lo, hi, 3)
  {
    hide MaxRuneOf, Pow64, CutsFront, CutsBack, FrontEnd, BackEnd, Encode, Ragged;
    CutBounds(lo, hi, 1);
    CutBounds(lo, hi, 2);
    CutBounds(lo, hi, 3);
    OneLengthLeft(lo, hi);
  }

  lemma OneLengthLeft(lo: rune, hi: rune)
    requires 0 <= lo <= hi <= MaxRune && !CutsLength(lo, hi, 1) && !CutsLength(lo, hi, 2) && !CutsLength(lo, hi, 3)
    ensures |Encode(lo)| == |Encode(hi)| && (hi < RuneSelf || RuneSelf <= lo)
  {
    hide MaxRuneOf, Encode;
    forall j | 1 <= j < UTFMax
      ensures !(lo <= MaxRuneOf(j) < hi)
    {
      assert !CutsLength(lo, hi, j);
    }
    OneLength(lo, hi);
  }

  lemma CutsLengthIs(lo: rune, hi: rune, i: nat)
    requires 1 <= i <= 3
    ensures CutsLength(lo, hi, i) <==> lo <= MaxRuneOf(i) < hi
  {
  }

  lemma CutsAre(lo: rune, hi: rune, i: nat)
    requires 1 <= i <= 3
    ensures Pow64(i) > 0
    ensures CutsFront(lo, hi, i) <==> lo / Pow64(i) != hi / Pow64(i) && lo % Pow64(i) != 0
    ensures CutsBack(lo, hi, i) <==> lo / Pow64(i) != hi / Pow64(i) && hi % Pow64(i) != Pow64(i) - 1
  {
  }

  lemma SplitByLength(lo: rune, hi: rune, i: nat)
    requires 0 <= lo <= hi <= MaxRune && 1 <= i <= 3 && CutsLength(lo, hi, i) && forall j :: 1 <= j < i ==> !CutsLength(lo, hi, j)
    ensures SplitAt(lo, hi) == MaxRuneOf(i) && lo <= MaxRuneOf(i) < hi
  {
    CutsLengthIs(lo, hi, i);
    hide MaxRuneOf, CutsLength;
  }

  lemma SplitRagged(lo: rune, hi: rune, i: nat)
    requires 0 <= lo <= hi <= MaxRune && RuneSelf <= hi && 1 <= i <= 3 && (CutsFront(lo, hi, i) || CutsBack(lo, hi, i))
    requires forall j :: 1 <= j <= 3 ==> !CutsLength(lo, hi, j)
    requires forall j :: 1 <= j < i ==> !CutsFront(lo, hi, j) && !CutsBack(lo, hi, j)
    ensures Pow64(i) > 0
    ensures SplitAt(lo, hi) == if CutsFront(lo, hi, i) then lo - lo % Pow64(i) + Pow64(i) - 1 else hi - hi % Pow64(i) - 1
    ensures lo <= SplitAt(lo, hi) < hi
  {
    CutBounds(lo, hi, i);
    Pow64Positive(i);
    hide Pow64, CutsFront, CutsBack, CutsLength;
  }

  lemma SplitNowhere(lo: rune, hi: rune)
    requires forall j :: 1 <= j <= 3 ==> !CutsLength(lo, hi, j)
    requires RuneSelf <= hi ==> forall j :: 1 <= j <= 3 ==> !CutsFront(lo, hi, j) && !CutsBack(lo, hi, j)
    ensures SplitAt(lo, hi) == hi
  {
    hide CutsFront, CutsBack, CutsLength;
  }

  /** The ends of a part have encodings of one length, replaced or not. */
  lemma PartEnds(lo: rune, hi: rune)
    requires 0 <= lo <= hi <= MaxRune && SplitAt(lo, hi) == hi && RuneSelf <= hi
    ensures |EncodeRune(lo)| == |EncodeRune(hi)|
  {
    Unsplit(lo, hi);
    hide SplitAt, Ragged;
  }

  lemma SplitNowhereAscii(lo: rune, hi: rune)
    requires 0 <= lo <= hi < RuneSelf
    ensures SplitAt(lo, hi) == hi
  {
    MaxRunes();
  }

  lemma AddedAscii(lo: rune, hi: rune, fold: bool)
    requires 0 <= lo <= hi < RuneSelf && SplitAt(lo, hi) == hi
    ensures Added(lo, hi, fold) == RangeWords(lo, hi, fold)
  {
    AddedPart(lo, hi, fold);
    hide SplitAt;
  }

  /** Splitting keeps a range safe. */
  lemma SafeParts(lo: rune, hi: rune)
    requires 0 <= lo <= SplitAt(lo, hi) < hi <= MaxRune && Safe(lo, hi)
    ensures var mid := SplitAt(lo, hi); Safe(lo, mid) && Safe(mid + 1, hi)
  {
    if CutsLength(lo, hi, 1) || CutsLength(lo, hi, 2) || CutsLength(lo, hi, 3) {
      hide MaxRuneOf, Safe;
      SafeLengths(lo, hi, if CutsLength(lo, hi, 1) then 1 else if CutsLength(lo, hi, 2) then 2 else 3);
    } else {
      OneLengthLeft(lo, hi);
      hide MaxRuneOf, Safe, Pow64, CutsLength;
      var i := if CutsFront(lo, hi, 1) || CutsBack(lo, hi, 1) then 1 else if CutsFront(lo, hi, 2) || CutsBack(lo, hi, 2) then 2 else 3;
      if CutsFront(lo, hi, i) {
        SafeFront(lo, hi, i);
      } else {
        SafeBack(lo, hi, i);
      }
    }
  }

  /** A safe range is added exactly. */
  lemma {:induction false} SafeAdded(lo: rune, hi: rune, fold: bool)
    requires lo <= hi ==> 0 <= lo && hi <= MaxRune && Safe(lo, hi)
    ensures Added(lo, hi, fold) == RangeWords(lo, hi, fold)
    decreases hi - lo
  {
    hide SplitAt, Safe, PartWords, RangeSpells;
    if lo > hi {
      NoRunes(lo, hi, fold);
      return;
    }
    SplitInside(lo, hi);
    var mid := SplitAt(lo, hi);
    if mid < hi {
      SafeParts(lo, hi);
      SafeAdded(lo, mid, fold);
      SafeAdded(mid + 1, hi, fold);
      AddedSplit(lo, hi, fold);
      RangeSplit(lo, mid, hi, fold);
    } else {
      AddedPart(lo, hi, fold);
      SafePart(lo, hi, fold);
    }
  }

  lemma NoRunes(lo: rune, hi: rune, fold: bool)
    requires lo > hi
    ensures RangeWords(lo, hi, fold) == iset{}
  {
  }

  lemma SafePart(lo: rune, hi: rune, fold: bool)
    requires 0 <= lo <= hi <= MaxRune && SplitAt(lo, hi) == hi && Safe(lo, hi)
    ensures PartWords(lo, hi, fold) == RangeWords(lo, hi, fold)
  {
    hide SplitAt, RangeSpells, InBox, Encode, Ragged;
    if RuneSelf <= hi {
      Unsplit(lo, hi);
      LeafBounds(lo, hi);
      forall w: Str
        ensures w in PartWords(lo, hi, fold) <==> w in RangeWords(lo, hi, fold)
      {
        BoxIsRange(w, lo, hi, fold);
      }
    }
  }

  // ---------------------------------------------------------------- ranges that touch the surrogates

  /** The encoding of a rune of the range that is not a surrogate. */
  ghost predicate Plain(w: Str, lo: rune, hi: rune) {
    exists r: rune :: lo <= r <= hi && ValidRune(r) && w == Encode(r)
  }

  lemma PlainGrows(w: Str, lo: rune, hi: rune, lo': rune, hi': rune)
    requires Plain(w, lo, hi) && lo' <= lo && hi <= hi'
    ensures Plain(w, lo', hi')
  {
    var r: rune :| lo <= r <= hi && ValidRune(r) && w == Encode(r);
  }

  /** From the first surrogate on, only whole runes and the replacement character are accepted. */
  lemma {:induction false} AddedFromSurrogates(lo: rune, hi: rune, fold: bool, w: Str)
    requires 0xD800 <= lo && hi <= MaxRune && w in Added(lo, hi, fold)
    ensures w == Encode(RuneError) || Plain(w, lo, hi)
    decreases hi - lo
  {
    hide SplitAt, PartWords, Plain, Encode;
    SplitInside(lo, hi);
    var mid := SplitAt(lo, hi);
    if mid < hi {
      AddedSplit(lo, hi, fold);
      if w in Added(lo, mid, fold) {
        AddedFromSurrogates(lo, mid, fold, w);
        if Plain(w, lo, mid) {
          PlainGrows(w, lo, mid, lo, hi);
        }
      } else {
        AddedFromSurrogates(mid + 1, hi, fold, w);
        if Plain(w, mid + 1, hi) {
          PlainGrows(w, mid + 1, hi, lo, hi);
        }
      }
    } else {
      AddedPart(lo, hi, fold);
      PartFromSurrogates(lo, hi, fold, w);
    }
  }

  lemma PartFromSurrogates(lo: rune, hi: rune, fold: bool, w: Str)
    requires 0xD800 <= lo <= hi <= MaxRune && SplitAt(lo, hi) == hi && w in PartWords(lo, hi, fold)
    ensures w == Encode(RuneError) || Plain(w, lo, hi)
  {
    hide SplitAt, Encode;
    Unsplit(lo, hi);
    if lo > 0xDFFF {
      SafePart(lo, hi, fold);
      var r: rune :| lo <= r <= hi && Spells(w, r, fold);
    } else {
      SurrogatePart(lo, hi);
      hide InBox;
      OnlyPoint(w, Encode(RuneError));
    }
  }

  /** A part that starts with a surrogate ends with one. */
  lemma SurrogatePart(lo: rune, hi: rune)
    requires IsSurrogate(lo) && lo <= hi <= MaxRune && !Ragged(lo, hi, 1) && !Ragged(lo, hi, 2)
    ensures IsSurrogate(hi)
  {
    assert Pow64(1) == 64 && Pow64(2) == 4096;
    assert lo / 4096 == 13 && lo % 4096 != 0;
  }

  lemma OnlyPoint(w: Str, a: Str)
    requires InBox(w, a, a)
    ensures w == a
  {
  }
  lemma EncodeInjective(r: rune, q: rune)
    requires 0 <= r <= MaxRune && 0 <= q <= MaxRune && Encode(r) == Encode(q)
    ensures r == q
  {
    hide Encode, Digits, Lead, Number, Mark;
    EncodeDigits(r);
    EncodeDigits(q);
    var n := |Encode(r)| - 1;
    NumberOfDigits(r, n);
    NumberOfDigits(q, n);
    assert forall k :: 0 <= k < n ==> 0x80 + Digits(r, n)[k] == Encode(r)[k + 1] == 0x80 + Digits(q, n)[k];
    assert Digits(r, n) == Digits(q, n);
  }

  lemma NotPlain(r: rune, lo: rune, hi: rune)
    requires 0 <= r <= MaxRune && !(lo <= r <= hi && ValidRune(r))
    ensures !Plain(Encode(r), lo, hi)
  {
    hide Encode;
    if q: rune :| lo <= q <= hi && ValidRune(q) && Encode(r) == Encode(q) {
      EncodeInjective(r, q);
    }
  }

  /** A surrogate, or a rune below the part, is not accepted by a part that starts at a surrogate or above. */
  lemma NotFromSurrogates(r: rune, lo: rune, hi: rune, fold: bool)
    requires 0 <= r <= 0xDFFF && 0xD800 <= lo && hi <= MaxRune && (r >= 0xD800 || r < lo)
    ensures Encode(r) !in Added(lo, hi, fold)
  {
    hide Encode;
    if Encode(r) in Added(lo, hi, fold) {
      AddedFromSurrogates(lo, hi, fold, Encode(r));
      NotPlain(r, lo, hi);
      EncodeInjective(r, RuneError);
    }
  }

  /** An unsafe range has a rune, a surrogate or just below them, that it does not accept. */
  lemma {:induction false} Missing(lo: rune, hi: rune, fold: bool) returns (r: rune)
    requires 0 <= lo <= hi <= MaxRune && !Safe(lo, hi)
    ensures lo <= r <= hi && RuneSelf <= r <= 0xDFFF && Encode(r) !in Added(lo, hi, fold)
    decreases hi - lo
  {
    hide SplitAt, Encode, PartWords, Added;
    if lo >= 0xD800 {
      r := lo;
      NotFromSurrogates(r, lo, hi, fold);
      return;
    }
    SplitInside(lo, hi);
    var mid := SplitAt(lo, hi);
    if mid == hi {
      AddedPart(lo, hi, fold);
      r := MissingPart(lo, hi, fold);
    } else if mid < 0xD800 {
      r := Missing(mid + 1, hi, fold);
      AddedSplit(lo, hi, fold);
      SafeAdded(lo, mid, fold);
      NotSpelt(r, lo, mid, fold);
    } else {
      r := Missing(lo, mid, fold);
      AddedSplit(lo, hi, fold);
      NotFromSurrogates(r, mid + 1, hi, fold);
    }
  }

  lemma NotSpelt(r: rune, lo: rune, hi: rune, fold: bool)
    requires RuneSelf <= r <= MaxRune && !(lo <= r <= hi)
    ensures Encode(r) !in RangeWords(lo, hi, fold)
  {
    EncodeSize(r);
    hide Encode;
    if q: rune :| lo <= q <= hi && Spells(Encode(r), q, fold) {
      EncodeInjective(r, q);
    }
  }

  lemma EncodeSize(r: rune)
    requires RuneSelf <= r <= MaxRune
    ensures |Encode(r)| > 1
  {
  }

  /** An unsafe part reaches from below the surrogates into them: it misses the runes that end in 0xBF. */
  lemma MissingPart(lo: rune, hi: rune, fold: bool) returns (r: rune)
    requires 0 <= lo < 0xD800 && lo <= hi <= MaxRune && !Safe(lo, hi) && SplitAt(lo, hi) == hi
    ensures lo <= r <= hi && RuneSelf <= r <= 0xDFFF && Encode(r) !in PartWords(lo, hi, fold)
  {
    Unsplit(lo, hi);
    hide SplitAt;
    ThreeByteEnds(lo, hi);
    r := lo + 63;
    EncodeIs(r, r / 64, r / 64 / 64);
    EncodeIs(RuneError, RuneError / 64, RuneError / 64 / 64);
    hide Encode, Ragged;
    assert r % 64 == 63 && Encode(r)[2] == 0xBF && Encode(RuneError)[2] == 0xBD;
    assert EncodeRune(hi) == Encode(RuneError);
  }

  lemma ThreeByteEnds(lo: rune, hi: rune)
    requires RuneSelf <= lo < 0xD800 && lo <= hi <= MaxRune && !Safe(lo, hi) && |Encode(lo)| == |Encode(hi)|
    requires !Ragged(lo, hi, 1) && !Ragged(lo, hi, 2)
    ensures 0x800 <= lo && lo % 64 == 0 && lo + 63 < 0xD800 && IsSurrogate(hi)
  {
    assert Pow64(1) == 64 && Pow64(2) == 4096;
    assert 0x800 <= lo && hi < 0x10000;
    if lo / 4096 != hi / 4096 {
      assert hi % 4096 == 4095 && lo % 4096 == 0;
      assert hi / 4096 == 13;
    }
  }

  /** addRange accepts exactly the words of a range if and only if no part of it ends in a surrogate. */
  lemma AddedExactIff(lo: rune, hi: rune, fold: bool)
    requires 0 <= lo <= hi <= MaxRune
    ensures Added(lo, hi, fold) == RangeWords(lo, hi, fold) <==> Safe(lo, hi)
  {
    hide Added, Safe;
    if Safe(lo, hi) {
      SafeAdded(lo, hi, fold);
    } else {
      var r := Missing(lo, hi, fold);
      assert Spells(Encode(r), r, fold);
    }
  }

  /** The range of one surrogate accepts the replacement character in its place. */
  lemma SurrogateReplaced(r: rune, fold: bool)
    requires IsSurrogate(r)
    ensures Added(r, r, fold) == iset{Encode(RuneError)}
  {
    SplitInside(r, r);
    AddedPart(r, r, fold);
    hide Encode;
    var e := Encode(RuneError);
    forall w
      ensures w in PartWords(r, r, fold) <==> w == e
    {
      if InBox(w, e, e) {
        OnlyPoint(w, e);
      }
    }
  }

  // ---------------------------------------------------------------- small ranges

  /** Every word has a byte. */
  lemma {:induction false} AddedNotEmpty(lo: rune, hi: rune, fold: bool)
    ensures [] !in Added(lo, hi, fold)
    decreases hi - lo
  {
    hide SplitAt;
    if 0 <= lo <= hi <= MaxRune {
      SplitInside(lo, hi);
      var mid := SplitAt(lo, hi);
      if mid < hi {
        AddedSplit(lo, hi, fold);
        AddedNotEmpty(lo, mid, fold);
        AddedNotEmpty(mid + 1, hi, fold);
      } else {
        AddedPart(lo, hi, fold);
      }
    }
  }

  ghost predicate Encoded(w: Str, lo: rune, hi: rune) {
    exists r: rune :: lo <= r <= hi && w == EncodeRune(r)
  }

  /** A range with few runes accepts nothing but what EncodeRune makes of them: its parts are too short to reach from
      below the surrogates into them. */
  lemma {:induction false} SmallAdded(lo: rune, hi: rune, w: Str)
    requires hi - lo < 127 && w in Added(lo, hi, false)
    ensures Encoded(w, lo, hi)
    decreases hi - lo
  {
    hide SplitAt, PartWords, EncodeRune;
    SplitInside(lo, hi);
    var mid := SplitAt(lo, hi);
    if mid < hi {
      AddedSplit(lo, hi, false);
      if w in Added(lo, mid, false) {
        SmallAdded(lo, mid, w);
        var r: rune :| lo <= r <= mid && w == EncodeRune(r);
      } else {
        SmallAdded(mid + 1, hi, w);
        var r: rune :| mid + 1 <= r <= hi && w == EncodeRune(r);
      }
    } else {
      AddedPart(lo, hi, false);
      SmallPart(lo, hi, w);
    }
  }

  lemma SmallPart(lo: rune, hi: rune, w: Str)
    requires 0 <= lo <= hi <= MaxRune && hi - lo < 127 && SplitAt(lo, hi) == hi && w in PartWords(lo, hi, false)
    ensures Encoded(w, lo, hi)
  {
    if Safe(lo, hi) {
      SafePart(lo, hi, false);
      hide SplitAt, Encode, PartWords;
      var r: rune :| lo <= r <= hi && Spells(w, r, false);
      assert w == EncodeRune(r);
    } else {
      Unsplit(lo, hi);
      hide SplitAt, Encode;
      if lo < 0xD800 {
        ThreeByteEnds(lo, hi);
        SpreadAcross(lo, hi);
        assert false;
      }
      SurrogatePart(lo, hi);
      OnlyPoint(w, Encode(RuneError));
      assert w == EncodeRune(lo);
    }
  }

  lemma SpreadAcross(lo: rune, hi: rune)
    requires 0 <= lo < 0xD800 <= hi && lo % 64 == 0 && !Ragged(lo, hi, 1)
    ensures hi - lo >= 127
  {
    assert Pow64(1) == 64;
  }

  // ---------------------------------------------------------------- classes

  /** The words of the runes in a list of ranges; a single rune stands for itself. */
  ghost function ClassWords(r: seq<rune>): iset<Str> {
    if |r| == 1 then RangeWords(r[0], r[0], false) else PairWords(r, |r| / 2)
  }

  /** The first `n` ranges. */
  ghost function PairWords(r: seq<rune>, n: nat): iset<Str>
    requires 2 * n <= |r|
  {
    if n == 0 then iset{} else PairWords(r, n - 1) + RangeWords(r[2 * n - 2], r[2 * n - 1], false)
  }

  /** What the ranges add, one after the other. */
  ghost function ClassAdded(r: seq<rune>): iset<Str> {
    if |r| == 1 then Added(r[0], r[0], false) else PairsAdded(r, |r| / 2)
  }

  ghost function PairsAdded(r: seq<rune>, n: nat): iset<Str>
    requires 2 * n <= |r|
  {
    if n == 0 then iset{} else PairsAdded(r, n - 1) + Added(r[2 * n - 2], r[2 * n - 1], false)
  }

  /** A list of runes as the parser makes it: one, or the ends of ranges. */
  predicate ClassRanges(r: seq<rune>) {
    (|r| == 1 || |r| % 2 == 0) && forall k :: 0 <= k < |r| ==> 0 <= r[k] <= MaxRune
  }

  /** The ranges are in order, and apart. */
  predicate Ordered(r: seq<rune>) {
    (forall k :: 0 <= k < |r| / 2 ==> Low(r, k) <= High(r, k))
    && forall i, j :: 0 <= i < j < |r| / 2 ==> High(r, i) < Low(r, j)
  }

  function Low(r: seq<rune>, k: nat): rune
    requires k < |r| / 2
  {
    r[2 * k]
  }

  function High(r: seq<rune>, k: nat): rune
    requires k < |r| / 2
  {
    r[2 * k + 1]
  }

  predicate SafeClass(r: seq<rune>) {
    if |r| == 1 then Safe(r[0], r[0]) else forall k :: 0 <= k < |r| / 2 ==> Safe(Low(r, k), High(r, k))
  }

  ghost predicate InPair(r: seq<rune>, k: nat, w: Str) {
    k < |r| / 2 && w in Added(Low(r, k), High(r, k), false)
  }

  lemma {:induction false} PairsMembers(r: seq<rune>, n: nat, w: Str)
    requires 2 * n <= |r|
    ensures w in PairsAdded(r, n) <==> exists k: nat :: k < n && InPair(r, k, w)
  {
    hide Added;
    if n > 0 {
      PairsMembers(r, n - 1, w);
      assert InPair(r, n - 1, w) <==> w in Added(r[2 * n - 2], r[2 * n - 1], false);
    }
  }

  lemma {:induction false} SafePairs(r: seq<rune>, n: nat)
    requires ClassRanges(r) && |r| != 1 && 2 * n <= |r| && SafeClass(r)
    ensures PairsAdded(r, n) == PairWords(r, n)
  {
    hide Added, RangeWords;
    if n > 0 {
      SafePairs(r, n - 1);
      assert Low(r, n - 1) == r[2 * n - 2] && High(r, n - 1) == r[2 * n - 1];
      SafeAdded(r[2 * n - 2], r[2 * n - 1], false);
    }
  }

  lemma SafeClassAdded(r: seq<rune>)
    requires ClassRanges(r) && SafeClass(r)
    ensures ClassAdded(r) == ClassWords(r)
  {
    hide Added, RangeWords, Safe;
    if |r| == 1 {
      SafeAdded(r[0], r[0], false);
    } else {
      SafePairs(r, |r| / 2);
    }
  }

  lemma {:induction false} PairWordsHold(r: seq<rune>, n: nat, k: nat, w: Str)
    requires k < n && 2 * n <= |r| && w in RangeWords(Low(r, k), High(r, k), false)
    ensures w in PairWords(r, n)
    decreases n
  {
    hide RangeWords;
    if k < n - 1 {
      PairWordsHold(r, n - 1, k, w);
    }
  }

  lemma {:induction false} FirstUnsafe(r: seq<rune>, n: nat) returns (k: nat)
    requires n < |r| / 2 && !Safe(Low(r, n), High(r, n))
    ensures k <= n && !Safe(Low(r, k), High(r, k)) && forall j :: 0 <= j < k ==> Safe(Low(r, j), High(r, j))
    decreases n
  {
    hide Safe, Low, High;
    if j :| 0 <= j < n && !Safe(Low(r, j), High(r, j)) {
      k := FirstUnsafe(r, j);
    } else {
      k := n;
    }
  }

  /** What the first unsafe range misses, no other range has. */
  lemma MissingInClass(r: seq<rune>, k: nat) returns (w: Str)
    requires ClassRanges(r) && |r| != 1 && Ordered(r) && k < |r| / 2 && !Safe(Low(r, k), High(r, k))
    requires forall j :: 0 <= j < k ==> Safe(Low(r, j), High(r, j))
    ensures w in ClassWords(r) && w !in ClassAdded(r)
  {
    hide Added, Encode;
    var q := Missing(Low(r, k), High(r, k), false);
    w := Encode(q);
    assert Spells(w, q, false);
    PairWordsHold(r, |r| / 2, k, w);
    forall j: nat | j < |r| / 2
      ensures !InPair(r, j, w)
    {
      if j < k {
        SafeAdded(Low(r, j), High(r, j), false);
        NotSpelt(q, Low(r, j), High(r, j), false);
      } else if j > k {
        NotFromSurrogates(q, Low(r, j), High(r, j), false);
      }
    }
    PairsMembers(r, |r| / 2, w);
  }

  /** A class in order is compiled exactly if and only if each of its ranges is. */
  lemma ClassExactIff(r: seq<rune>)
    requires ClassRanges(r) && (|r| == 1 || Ordered(r))
    ensures ClassAdded(r) == ClassWords(r) <==> SafeClass(r)
  {
    hide Added, RangeWords, Safe, Ordered;
    if |r| == 1 {
      AddedExactIff(r[0], r[0], false);
    } else if SafeClass(r) {
      SafeClassAdded(r);
    } else {
      var n: nat :| n < |r| / 2 && !Safe(Low(r, n), High(r, n));
      var k := FirstUnsafe(r, n);
      var w := MissingInClass(r, k);
    }
  }
}
