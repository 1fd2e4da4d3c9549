/** Scanning a file for trigrams (index/write.go, the loop of Add and validUTF8). */
module TextScan {
  import opened Bytes
  import opened IndexFormat
  import opened SparseSets
  import opened RegexpSoundness

  const MaxFileLen := 0x4000_0000
  const MaxLineLen := 2000
  const MaxTextTrigrams := 20000
  const Newline: byte := 10

  /** validUTF8: whether the byte pair can appear in valid UTF-8. */
  predicate ValidPair(c1: byte, c2: byte) {
    if c1 < 0x80 then c2 < 0x80 || 0xc0 <= c2 < 0xf8
    else if c1 < 0xc0 then c2 < 0xf8
    else if c1 < 0xf8 then 0x80 <= c2 < 0xc0
    else false
  }

  /** The byte before `i`; the scan starts as if behind a zero byte. */
  function Previous(text: Str, i: nat): byte
    requires i < |text|
  {
    if i == 0 then 0 else text[i - 1]
  }

  /** How long byte `i` makes its line; a newline belongs to the line it ends. */
  function LineLength(text: Str, i: nat): nat
    requires i < |text|
  {
    if i == 0 || text[i - 1] == Newline then 1 else LineLength(text, i - 1) + 1
  }

  predicate GoodAt(text: Str, i: nat)
    requires i < |text|
  {
    ValidPair(Previous(text, i), text[i]) && LineLength(text, i) <= MaxLineLen
  }

  /** The text gets through the scanning loop. */
  predicate Scannable(text: Str) {
    |text| <= MaxFileLen && forall i :: 0 <= i < |text| ==> GoodAt(text, i)
  }

  /** The number of the trigram at `i`. */
  function NumAt(text: Str, i: nat): nat
    requires i + 3 <= |text|
  {
    TriNum(text[i..i + 3])
  }

  /** The numbers of the trigrams of a text. */
  function TrigramNums(text: Str): set<nat> {
    set i: nat | i < |text| - 2 :: NumAt(text, i)
  }

  /** The files that are indexed. */
  predicate Accepted(text: Str) {
    Scannable(text) && |TrigramNums(text)| <= MaxTextTrigrams
  }

  /** The number set of a text is its trigram set. */
  lemma TrigramNumsAre(text: Str, t: Str)
    requires |t| == 3
    ensures t in TrigramsOf(text) <==> TriNum(t) in TrigramNums(text)
  {
    if t in TrigramsOf(text) {
      var i: nat :| OccursAt(text, i, t);
      assert NumAt(text, i) == TriNum(t);
    }
    if TriNum(t) in TrigramNums(text) {
      var i: nat :| i < |text| - 2 && TriNum(t) == NumAt(text, i);
      TriNumInjective(t, text[i..i + 3]);
      assert OccursAt(text, i, t);
    }
  }

  /** No accepted byte is 0xf8 or above, so the trigram of all ones stays free for the sentinel. */
  lemma NoSentinel(text: Str, t: nat)
    requires Scannable(text) && t in TrigramNums(text)
    ensures t < AllOnes
  {
    var i: nat :| i < |text| - 2 && t == NumAt(text, i);
    var w := text[i..i + 3];
    assert GoodAt(text, i + 2) && w[2] < 0xf8;
    TriNumLast(w);
  }

  lemma TriNumLast(w: Str)
    requires |w| == 3
    ensures var b0: nat, b1: nat, b2: nat := w[0], w[1], w[2]; TriNum(w) == (b0 * 256 + b1) * 256 + b2
  {
    assert w[..3] == w && w[..2][..1] == w[..1] && w[..1][..0] == [];
    assert ReadBigEndian(w[..1]) == w[0];
    assert ReadBigEndian(w[..2]) == ReadBigEndian(w[..2][..1]) * 256 + w[1];
  }

  // ---------------------------------------------------------------- the sliding window

  /** The value of `tv` after `n` bytes. */
  function Window(text: Str, n: nat): nat
    requires n <= |text|
  {
    if n == 0 then 0 else Window(text, n - 1) * 256 % 0x100_0000 + text[n - 1]
  }

  /** Shifting a byte into a 24-bit window. */
  lemma ShiftIn(a: nat, c: byte)
    requires a < 0x100_0000
    ensures var w := a * 256 % 0x100_0000 + c;
            w < 0x100_0000 && w % 256 == c && w / 256 % 256 == a % 256
            && w == (a / 256 % 256 * 256 + a % 256) * 256 + c
  {
    var l, m, h := a % 256, a / 256 % 256, a / 256 / 256;
    assert a == (h * 256 + m) * 256 + l;
    var x := (m * 256 + l) * 256;
    assert a * 256 == h * 0x100_0000 + x;
    assert m * 256 + l < 0x1_0000;
    assert 0 <= x < 0x100_0000 && a * 256 % 0x100_0000 == x;
    var w := x + c;
    assert w == (m * 256 + l) * 256 + c && w / 256 == m * 256 + l;
  }

  lemma {:induction false} WindowIs(text: Str, n: nat)
    requires n <= |text|
    ensures Window(text, n) < 0x100_0000
    ensures n > 0 ==> Window(text, n) % 256 == text[n - 1] && Window(text, n) / 256 % 256 == Previous(text, n - 1)
    ensures n >= 3 ==> Window(text, n) == NumAt(text, n - 3)
  {
    if n > 0 {
      WindowIs(text, n - 1);
      ShiftIn(Window(text, n - 1), text[n - 1]);
    }
    if n >= 3 {
      TriNumLast(text[n - 3..n]);
    }
  }

  lemma WindowStep(text: Str, n: nat)
    requires n < |text|
    ensures Window(text, 0) == 0
    ensures Window(text, n + 1) == Window(text, n) * 256 % 0x100_0000 + text[n]
  {
  }

  lemma NumAtPrefix(text: Str, n: nat, i: nat)
    requires i + 3 <= n <= |text|
    ensures NumAt(text[..n], i) == NumAt(text, i)
  {
    assert text[..n][i..i + 3] == text[i..i + 3];
  }

  /** The trigram numbers seen after `n` bytes. */
  lemma NumsStep(text: Str, n: nat)
    requires n < |text|
    ensures TrigramNums(text[..n + 1]) ==
            TrigramNums(text[..n]) + if n >= 2 then {NumAt(text, n - 2)} else {}
  {
    hide NumAt;
    var s, t := text[..n], text[..n + 1];
    forall i: nat | i < |t| - 2
      ensures NumAt(t, i) == NumAt(text, i) && (i < |s| - 2 ==> NumAt(s, i) == NumAt(text, i))
    {
      NumAtPrefix(text, n + 1, i);
      if i < |s| - 2 {
        NumAtPrefix(text, n, i);
      }
    }
  }

  lemma NothingYet(text: Str)
    ensures TrigramNums([]) == {} && Window(text, 0) == 0
  {
  }

  /** The loop of Add: collects the trigrams of `text` in `set_`, and stops at the first bad byte. */
  method Scan(set_: Set, text: Str) returns (ok: bool)
    requires set_.Valid() && set_.sparse.Length == 0x100_0000
    modifies set_, set_.sparse
    ensures set_.Valid() && set_.sparse == old(set_.sparse)
    ensures ok <==> Scannable(text)
    ensures ok ==> Members(set_.dense) == TrigramNums(text)
  {
    hide Window, TrigramNums, NumAt;
    assert TrigramNums([]) == {} && Window(text, 0) == 0 by {
      NothingYet(text);
    }
    set_.Reset();
    var tv: nat := 0;
    var linelen := 0;
    assert text[..0] == [];
    for i := 0 to |text|
      invariant set_.Valid() && set_.sparse == old(set_.sparse) && set_.sparse.Length == 0x100_0000
      invariant tv == Window(text, i) && i <= MaxFileLen
      invariant linelen == if i == 0 || text[i - 1] == Newline then 0 else LineLength(text, i - 1)
      invariant forall h :: 0 <= h < i ==> GoodAt(text, h)
      invariant Members(set_.dense) == TrigramNums(text[..i])
    {
      var c := text[i];
      WindowStep(text, i);
      tv := tv * 256 % 0x100_0000 + c;
      WindowIs(text, i + 1);
      NumsStep(text, i);
      var n := i + 1;
      if n >= 3 {
        set_.Add(tv);
      }
      if !ValidPair(tv / 256 % 256, tv % 256) {
        assert !GoodAt(text, i);
        return false;
      }
      if n > MaxFileLen {
        return false;
      }
      linelen := linelen + 1;
      if linelen > MaxLineLen {
        assert !GoodAt(text, i);
        return false;
      }
      if c == Newline {
        linelen := 0;
      }
    }
    assert text[..|text|] == text;
    return true;
  }
}
