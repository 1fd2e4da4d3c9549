/** The in-place loops of simplifySet (index/regexp.go), proved against the functions on values. */
module RegexpLoops {
  import opened Bytes
  import opened StringSets
  import opened Queries
  import opened RegexpAnalysis

  lemma Rounds(t: StrSet, len: nat, isSuffix: bool)
    requires len >= 1
    ensures |ShortenAll(t, len, isSuffix)| == |t|
  {
  }

  lemma Round(t: StrSet, k: nat, len: nat, isSuffix: bool, str: Str)
    requires len >= 1 && k < |t|
    requires str == if |t[k]| < len then t[k] else if isSuffix then t[k][|t[k]| - len + 1..] else t[k][..len - 1]
    ensures var cut := ShortenAll(t, len, isSuffix);
            |cut| == |t| && cut[..k + 1] == cut[..k] + [str]
  {
    var cut := ShortenAll(t, len, isSuffix);
    assert cut[k] == Shorten(t[k], len, isSuffix);
  }

  /** Puts `str` behind the first `w` strings unless it is the last of them. */
  method KeepNew(a: array<Str>, w0: nat, k: nat, str: Str) returns (w: nat)
    requires w0 <= k < a.Length
    modifies a
    ensures w <= k + 1 && forall h :: k < h < a.Length ==> a[h] == old(a[h])
    ensures forall y :: y in a[..w] <==> y in old(a[..w0]) || y == str
  {
    w := w0;
    ghost var kept := a[..w];
    if w == 0 || a[w - 1] != str {
      a[w] := str;
      w := w + 1;
      assert a[..w] == kept + [str];
    } else {
      assert str == kept[w - 1];
    }
  }

  /** One round of the shortening loop over `a[..n]`: cut each string, skip repetitions. */
  method ShortenInPlace(a: array<Str>, n: nat, len: nat, isSuffix: bool) returns (w: nat)
    requires n <= a.Length && len >= 1
    modifies a
    ensures w <= n
    ensures forall y :: y in a[..w] <==> y in ShortenAll(old(a[..n]), len, isSuffix)
  {
    hide ShortenAll, Shorten, Extends;
    w := 0;
    ghost var was := a[..n];
    ghost var cut := ShortenAll(was, len, isSuffix);
    Rounds(was, len, isSuffix);
    for k := 0 to n
      invariant w <= k && forall h :: k <= h < n ==> a[h] == was[h]
      invariant forall y :: y in a[..w] <==> y in cut[..k]
    {
      var str := a[k];
      if |str| >= len {
        str := if isSuffix then str[|str| - len + 1..] else str[..len - 1];
      }
      Round(was, k, len, isSuffix, str);
      w := KeepNew(a, w, k, str);
    }
    assert cut[..n] == cut;
  }

  /** The redundancy loop over `a[..n]`. */
  method DropInPlace(a: array<Str>, n: nat, isSuffix: bool) returns (w: nat)
    requires n <= a.Length
    modifies a
    ensures w <= n && a[..w] == DropRedundant([], old(a[..n]), isSuffix)
  {
    w := 0;
    ghost var was := a[..n];
    assert was[0..] == was && a[..0] == [];
    for k := 0 to n
      invariant w <= k && a[k..n] == was[k..]
      invariant DropRedundant(a[..w], was[k..], isSuffix) == DropRedundant([], was, isSuffix)
    {
      var str := a[k];
      ghost var kept, left := a[..w], was[k..];
      assert str == left[0] && left[1..] == was[k + 1..] by {
        assert a[k..n][0] == str;
      }
      assert w > 0 ==> a[w - 1] == kept[w - 1];
      if w == 0 || !Extends(str, a[w - 1], isSuffix) {
        a[w] := str;
        w := w + 1;
        assert a[..w] == kept + [str];
      }
      assert a[k + 1..n] == was[k + 1..];
    }
    assert was[n..] == [];
  }

  /** The shortening loop of simplifySet: 3 bytes, then fewer while the set is larger than maxSet. */
  method ShrinkInPlace(a: array<Str>, n: nat, isSuffix: bool) returns (w: nat)
    requires n <= a.Length
    modifies a
    ensures w <= n && a[..w] == Shrink(old(a[..n]), 3, isSuffix)
  {
    hide Clean, ShortenAll;
    ghost var goal := Shrink(a[..n], 3, isSuffix);
    var len := 3;
    w := n;
    while len == 3 || w > maxSet
      invariant w <= n && 0 <= len <= 3
      invariant len == 3 ==> w == n && goal == Shrink(a[..w], len, isSuffix)
      invariant len < 3 ==> if w > maxSet then len >= 1 && goal == Shrink(a[..w], len, isSuffix) else goal == a[..w]
      decreases len
    {
      ghost var was := a[..w];
      ghost var cut := ShortenAll(was, len, isSuffix);
      ShortenToEmpty(was, len, isSuffix);
      w := ShortenInPlace(a, w, len, isSuffix);
      CleanDeterminedByElements(a[..w], cut, isSuffix);
      w := CleanInPlace(a, w, isSuffix);
      len := len - 1;
    }
  }

  /** simplifySet: the set is rewritten in place, the query gains the set's trigrams. */
  method SimplifySet(set_: StrSet, query: Query, isSuffix: bool) returns (out: StrSet, query': Query)
    ensures out == SimplifiedSet(set_, isSuffix)
    ensures query' == AndTrigrams(query, Clean(set_, isSuffix))
  {
    var a := new Str[|set_|](i requires 0 <= i < |set_| => set_[i]);
    assert a[..|set_|] == set_;
    var n := CleanInPlace(a, |set_|, isSuffix);
    query' := AndTrigrams(query, a[..n]);
    n := ShrinkInPlace(a, n, isSuffix);
    n := DropInPlace(a, n, isSuffix);
    out := a[..n];
  }

  lemma EndsCount(exact: StrSet)
    ensures |Heads(exact)| == |Tails(exact)| == |exact|
  {
  }

  lemma EndsAt(exact: StrSet, k: nat, head: Str, tail: Str)
    requires k < |exact|
    requires head == if |exact[k]| >= 3 then exact[k][..2] else exact[k]
    requires tail == if |exact[k]| >= 3 then exact[k][|exact[k]| - 2..] else exact[k]
    ensures |Heads(exact)| == |Tails(exact)| == |exact|
    ensures Heads(exact)[..k + 1] == Heads(exact)[..k] + [head] && Tails(exact)[..k + 1] == Tails(exact)[..k] + [tail]
  {
    ShortEnds(exact[k]);
    hide Shorten, Extends, ShortenAll;
    TakeNext(Heads(exact), k, head);
    TakeNext(Tails(exact), k, tail);
  }

  lemma ShortEnds(str: Str)
    ensures Shorten(str, 3, false) == if |str| >= 3 then str[..2] else str
    ensures Shorten(str, 3, true) == if |str| >= 3 then str[|str| - 2..] else str
  {
    hide Extends;
  }

  lemma TakeNext(t: StrSet, k: nat, x: Str)
    requires k < |t| && t[k] == x
    ensures t[..k + 1] == t[..k] + [x]
  {
  }

  /** The loop of simplify that turns exact strings into prefixes and suffixes. */
  method MoveExact(exact: StrSet, prefix0: StrSet, suffix0: StrSet) returns (prefix: StrSet, suffix: StrSet)
    ensures prefix == prefix0 + Heads(exact) && suffix == suffix0 + Tails(exact)
  {
    hide Heads, Tails;
    prefix, suffix := prefix0, suffix0;
    ghost var heads, tails := Heads(exact), Tails(exact);
    EndsCount(exact);
    for k := 0 to |exact|
      invariant prefix == prefix0 + heads[..k] && suffix == suffix0 + tails[..k]
    {
      var s := exact[k];
      var head, tail := s, s;
      if |s| >= 3 {
        head, tail := s[..2], s[|s| - 2..];
      }
      EndsAt(exact, k, head, tail);
      prefix, suffix := prefix + [head], suffix + [tail];
    }
    assert heads[..|exact|] == heads && tails[..|exact|] == tails;
  }

  /** simplify: give up an exact set that is too big, then reduce both sets. */
  method SimplifyInfo(info: RegexpInfo, force: bool) returns (out: RegexpInfo)
    ensures out == Simplify(info, force)
  {
    out := info;
    if info.exact.Some? {
      var exact := Clean(info.exact.value, false);
      out := out.(exact := Some(exact));
      var shortest := ScanMinLen(exact);
      if |exact| > maxExact || (shortest >= 3 && force) || shortest >= 4 {
        var prefix, suffix := MoveExact(exact, info.prefix, info.suffix);
        out := AddExact(out).(exact := None, prefix := prefix, suffix := suffix);
      }
    }
    assert out == Flush(info, force);
    if out.exact.None? {
      var p, q := SimplifySet(out.prefix, out.query, false);
      var s, q' := SimplifySet(out.suffix, q, true);
      out := out.(prefix := p, suffix := s, query := q');
    }
  }
}
