/** Byte strings: the order Go uses for strings, prefixes, suffixes and big-endian numbers. */
module Bytes {
  type byte = x: int | 0 <= x < 256
  type Str = seq<byte>

  datatype Option<+T> = None | Some(value: T)

  // ---------------------------------------------------------------- lexicographic order

  /** Go's `<` on strings. */
  predicate Less(s: Str, t: Str) {
    t != [] && (s == [] || s[0] < t[0] || (s[0] == t[0] && Less(s[1..], t[1..])))
  }

  predicate LessEq(s: Str, t: Str) {
    s == t || Less(s, t)
  }

  lemma {:induction false} LessIrreflexive(s: Str)
    ensures !Less(s, s)
  {
    if s != [] {
      LessIrreflexive(s[1..]);
    }
  }

  lemma {:induction false} LessTransitive(s: Str, t: Str, u: Str)
    requires Less(s, t) && Less(t, u)
    ensures Less(s, u)
  {
    if s != [] && s[0] == t[0] == u[0] {
      LessTransitive(s[1..], t[1..], u[1..]);
    }
  }

  lemma {:induction false} LessTotal(s: Str, t: Str)
    ensures Less(s, t) || s == t || Less(t, s)
  {
    if s != [] && t != [] && s[0] == t[0] {
      LessTotal(s[1..], t[1..]);
      assert s == [s[0]] + s[1..] && t == [t[0]] + t[1..];
    }
  }

  lemma LessAsymmetric(s: Str, t: Str)
    requires Less(s, t)
    ensures !Less(t, s) && s != t
  {
    LessIrreflexive(s);
    if Less(t, s) {
      LessTransitive(s, t, s);
    }
  }

  // ---------------------------------------------------------------- prefixes and suffixes

  predicate HasPrefix(s: Str, p: Str) {
    p <= s
  }

  predicate HasSuffix(s: Str, p: Str) {
    |p| <= |s| && s[|s| - |p|..] == p
  }

  lemma {:induction false} PrefixIsLessEq(p: Str, s: Str)
    requires p <= s
    ensures LessEq(p, s)
  {
    if p != [] {
      PrefixIsLessEq(p[1..], s[1..]);
      assert p == [p[0]] + p[1..] && s == [s[0]] + s[1..];
    }
  }

  /** Everything between a string and one of its extensions extends the string too. */
  lemma {:induction false} PrefixInterval(p: Str, c: Str, s: Str)
    requires p <= s && LessEq(p, c) && LessEq(c, s)
    ensures p <= c
  {
    if p != [] && p != c && c != s {
      assert c[0] == p[0];
      PrefixInterval(p[1..], c[1..], s[1..]);
    }
  }

  // ---------------------------------------------------------------- reversal

  function Reversed(s: Str): (r: Str)
    ensures |r| == |s|
  {
    if s == [] then [] else Reversed(s[1..]) + [s[0]]
  }

  lemma {:induction false} ReversedAppend(s: Str, t: Str)
    ensures Reversed(s + t) == Reversed(t) + Reversed(s)
  {
    if s == [] {
      assert s + t == t;
    } else {
      assert (s + t)[1..] == s[1..] + t;
      ReversedAppend(s[1..], t);
    }
  }

  lemma {:induction false} ReversedTwice(s: Str)
    ensures Reversed(Reversed(s)) == s
  {
    if s != [] {
      ReversedTwice(s[1..]);
      ReversedAppend(Reversed(s[1..]), [s[0]]);
    }
  }

  lemma SuffixIsReversedPrefix(s: Str, p: Str)
    ensures HasSuffix(s, p) <==> Reversed(p) <= Reversed(s)
  {
    if HasSuffix(s, p) {
      ReversedAppend(s[..|s| - |p|], p);
      assert s == s[..|s| - |p|] + p;
    }
    if Reversed(p) <= Reversed(s) {
      var rest := Reversed(s)[|p|..];
      assert Reversed(s) == Reversed(p) + rest;
      ReversedAppend(Reversed(p), rest);
      ReversedTwice(s);
      ReversedTwice(p);
      assert s == Reversed(rest) + p;
    }
  }

  // ---------------------------------------------------------------- substrings

  /** `w` occurs in `text` starting at byte `at`. */
  predicate OccursAt(text: Str, at: nat, w: Str) {
    at + |w| <= |text| && text[at..at + |w|] == w
  }

  lemma OccursWithin(text: Str, at: nat, mid: Str, at': nat, w: Str)
    requires OccursAt(text, at, mid) && OccursAt(mid, at', w)
    ensures OccursAt(text, at + at', w)
  {
    forall k | 0 <= k < |w|
      ensures text[at + at'..at + at' + |w|][k] == w[k]
    {
      assert mid[at' + k] == w[k] && text[at + (at' + k)] == mid[at' + k];
    }
  }

  lemma OccursInFront(front: Str, tail: Str, at: nat, w: Str)
    requires OccursAt(front, at, w)
    ensures OccursAt(front + tail, at, w)
  {
  }

  lemma OccursAtEnd(front: Str, w: Str, tail: Str)
    ensures OccursAt(front + (w + tail), |front|, w) && OccursAt(front + w, |front|, w)
  {
  }

  // ---------------------------------------------------------------- concatenations

  /** The parts one after the other. */
  function Joined(parts: seq<Str>): Str {
    if parts == [] then [] else Joined(parts[..|parts| - 1]) + parts[|parts| - 1]
  }

  lemma JoinedAppend(parts: seq<Str>, part: Str)
    ensures Joined(parts + [part]) == Joined(parts) + part
  {
    assert (parts + [part])[..|parts|] == parts;
  }

  lemma JoinedTake(parts: seq<Str>, k: nat)
    requires k < |parts|
    ensures Joined(parts[..k + 1]) == Joined(parts[..k]) + parts[k]
  {
    assert parts[..k + 1][..k] == parts[..k];
  }

  /** Each part is found behind the parts before it. */
  lemma {:induction false} JoinedAt(parts: seq<Str>, k: nat)
    requires k < |parts|
    ensures OccursAt(Joined(parts), |Joined(parts[..k])|, parts[k])
  {
    var n := |parts| - 1;
    if k < n {
      JoinedAt(parts[..n], k);
      assert parts[..n][..k] == parts[..k];
      OccursInFront(Joined(parts[..n]), parts[n], |Joined(parts[..k])|, parts[k]);
    } else {
      OccursAtEnd(Joined(parts[..n]), parts[n], []);
    }
  }

  lemma {:induction false} JoinedWidth(parts: seq<Str>, w: nat)
    requires forall p :: p in parts ==> |p| == w
    ensures |Joined(parts)| == w * |parts|
  {
    if parts != [] {
      var n := |parts| - 1;
      assert parts[n] in parts;
      JoinedWidth(parts[..n], w);
      TimesNext(w, n);
    }
  }

  lemma TimesNext(w: nat, n: nat)
    ensures w * (n + 1) == w * n + w
  {
  }
}
