/** Which texts are indexed (index/write.go, the tests of Add and validUTF8), seen from the text: well-formed UTF-8 is
    refused only for its size, its lines or its number of trigrams. */
module TextAcceptance {
  import opened Bytes
  import opened Utf8
  import opened TextScan

  // ---------------------------------------------------------------- bytes in sequence

  /** What a byte can be in UTF-8. */
  datatype Role = Ascii | Continuation | LeadByte | Stray

  function RoleOf(c: byte): Role {
    if c < 0x80 then Ascii else if c < 0xC0 then Continuation else if c < 0xF8 then LeadByte else Stray
  }

  /** A lead byte is followed by a continuation byte, ASCII by none, a continuation byte by anything but a stray one. */
  lemma PairRoles(c1: byte, c2: byte)
    ensures ValidPair(c1, c2) <==>
            match RoleOf(c1)
            case Ascii => RoleOf(c2) in {Ascii, LeadByte}
            case Continuation => RoleOf(c2) in {Ascii, Continuation, LeadByte}
            case LeadByte => RoleOf(c2) == Continuation
            case Stray => false
  {
  }

  /** Bytes that have no place in UTF-8 keep a text out. */
  lemma MalformedRefused(text: Str, i: nat)
    requires i < |text|
    requires RoleOf(text[i]) == Stray
             || (RoleOf(text[i]) == LeadByte && i + 1 < |text| && RoleOf(text[i + 1]) != Continuation)
             || (RoleOf(text[i]) == Continuation && (i == 0 || RoleOf(text[i - 1]) == Ascii))
    ensures !Accepted(text)
  {
    PairRoles(Previous(text, i), text[i]);
    if i + 1 < |text| {
      PairRoles(text[i], text[i + 1]);
      assert Previous(text, i + 1) == text[i];
    }
    assert !GoodAt(text, i) || (i + 1 < |text| && !GoodAt(text, i + 1));
  }

  /** One lead byte, then continuation bytes; or one ASCII byte. */
  lemma EncodingRoles(r: rune)
    requires ValidRune(r)
    ensures var e := EncodeRune(r);
            RoleOf(e[0]) == (if |e| == 1 then Ascii else LeadByte)
            && forall j :: 0 < j < |e| ==> RoleOf(e[j]) == Continuation
  {
  }

  lemma {:induction false} LastRole(rs: seq<rune>)
    requires forall r :: r in rs ==> ValidRune(r)
    ensures var w := EncodeRunes(rs); w != [] ==> RoleOf(w[|w| - 1]) in {Ascii, Continuation}
  {
    if rs != [] {
      EncodingRoles(rs[|rs| - 1]);
    }
  }

  /** Every byte of well-formed text may follow the one before it. */
  lemma {:induction false} WellFormedPairs(rs: seq<rune>, i: nat)
    requires (forall r :: r in rs ==> ValidRune(r)) && i < |EncodeRunes(rs)|
    ensures ValidPair(Previous(EncodeRunes(rs), i), EncodeRunes(rs)[i])
  {
    hide EncodeRune;
    if rs != [] {
      var front, e := EncodeRunes(rs[..|rs| - 1]), EncodeRune(rs[|rs| - 1]);
      var w := EncodeRunes(rs);
      assert w == front + e;
      if i < |front| {
        WellFormedPairs(rs[..|rs| - 1], i);
        assert Previous(w, i) == Previous(front, i);
      } else {
        EncodingRoles(rs[|rs| - 1]);
        LastRole(rs[..|rs| - 1]);
        PairRoles(Previous(w, i), w[i]);
        assert w[i] == e[i - |front|];
        assert i > 0 ==> Previous(w, i) == if i == |front| then front[i - 1] else e[i - 1 - |front|];
      }
    }
  }

  // ---------------------------------------------------------------- lines

  /** There is a newline among the `n` bytes in front of `j`. */
  predicate BreakBefore(text: Str, j: nat, n: nat) {
    exists k :: 0 <= k < |text| && j - n <= k < j && text[k] == '\n' as int
  }

  /** No line is longer than `n` bytes, its newline included. */
  predicate LinesWithin(text: Str, n: nat) {
    forall j :: n <= j < |text| ==> BreakBefore(text, j, n)
  }

  lemma BreakStep(text: Str, j: nat, n: nat)
    requires 0 < j <= |text| && 0 < n && text[j - 1] != '\n' as int
    ensures BreakBefore(text, j, n) ==> BreakBefore(text, j - 1, n - 1)
  {
    if k :| 0 <= k < |text| && j - n <= k < j && text[k] == '\n' as int {
      assert k < j - 1;
    }
  }

  lemma BreakGrows(text: Str, j: nat, n: nat, m: nat)
    ensures n <= m && BreakBefore(text, j, n) ==> BreakBefore(text, j, m)
  {
  }

  lemma {:induction false} LineLengthIs(text: Str, i: nat)
    requires i < |text|
    ensures var n := LineLength(text, i);
            0 < n <= i + 1 && !BreakBefore(text, i, n - 1) && (n <= i ==> text[i - n] == '\n' as int)
  {
    if !(i == 0 || text[i - 1] == Newline) {
      LineLengthIs(text, i - 1);
      BreakStep(text, i, LineLength(text, i - 1));
    }
  }

  ghost predicate CountsWithin(text: Str, n: nat) {
    forall i :: 0 <= i < |text| ==> LineLength(text, i) <= n
  }

  /** The running count of Add stays within the limit just when the lines do. */
  lemma LinesWithinIff(text: Str, n: nat)
    requires n > 0
    ensures CountsWithin(text, n) <==> LinesWithin(text, n)
  {
    hide LineLength;
    if CountsWithin(text, n) {
      forall j | n <= j < |text|
        ensures BreakBefore(text, j, n)
      {
        LineLengthIs(text, j);
        var k := j - LineLength(text, j);
        assert text[k] == '\n' as int;
      }
    }
    if LinesWithin(text, n) {
      forall i | 0 <= i < |text|
        ensures LineLength(text, i) <= n
      {
        LineLengthIs(text, i);
        BreakGrows(text, i, n, LineLength(text, i) - 1);
      }
    }
  }

  // ---------------------------------------------------------------- acceptance

  /** A text is indexed exactly when its bytes may follow each other, it has at most 2^30 bytes, no line of more than
      2000, and at most 20000 different trigrams. */
  lemma AcceptedIff(text: Str)
    ensures Accepted(text) <==>
            (forall i :: 0 <= i < |text| ==> ValidPair(Previous(text, i), text[i]))
            && |text| <= 1073741824 && LinesWithin(text, 2000) && |TrigramNums(text)| <= 20000
  {
    LinesWithinIff(text, 2000);
    ScannableIs(text);
    hide Scannable, LinesWithin, CountsWithin, ValidPair, LineLength, TrigramNums;
  }

  lemma ScannableIs(text: Str)
    ensures Scannable(text) <==>
            |text| <= 1073741824 && (forall i :: 0 <= i < |text| ==> ValidPair(Previous(text, i), text[i]))
            && CountsWithin(text, 2000)
  {
    hide ValidPair, LineLength, Previous;
    if Scannable(text) {
      forall i | 0 <= i < |text|
        ensures ValidPair(Previous(text, i), text[i]) && LineLength(text, i) <= 2000
      {
        assert GoodAt(text, i);
      }
    } else if |text| <= MaxFileLen {
      var i :| 0 <= i < |text| && !GoodAt(text, i);
      assert !ValidPair(Previous(text, i), text[i]) || LineLength(text, i) > 2000;
    }
  }

  /** Well-formed UTF-8 passes the test of its bytes, so that only its size, its lines and its trigrams decide. */
  lemma WellFormedAcceptedIff(rs: seq<rune>)
    requires forall r :: r in rs ==> ValidRune(r)
    ensures var w := EncodeRunes(rs);
            Accepted(w) <==> |w| <= 1073741824 && LinesWithin(w, 2000) && |TrigramNums(w)| <= 20000
  {
    var w := EncodeRunes(rs);
    AcceptedIff(w);
    forall i | 0 <= i < |w|
      ensures ValidPair(Previous(w, i), w[i])
    {
      WellFormedPairs(rs, i);
    }
  }
}
