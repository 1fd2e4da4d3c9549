/** The strings that name DFA states (regexp/match.go, nstate.enc and nstate.dec). */
module StateCodes {
  import opened Bytes
  import opened Varints
  import opened PostEntries
  import opened IndexFormat
  import opened SparseSets
  import opened Programs

  // ---------------------------------------------------------------- sort.Ints

  function InsertInt(x: nat, s: seq<nat>): (r: seq<nat>)
    ensures forall y :: y in r <==> y == x || y in s
  {
    if s == [] || x <= s[0] then [x] + s else [s[0]] + InsertInt(x, s[1..])
  }

  function SortInts(s: seq<nat>): (r: seq<nat>)
    ensures forall y :: y in r <==> y in s
  {
    if s == [] then [] else InsertInt(s[0], SortInts(s[1..]))
  }

  lemma {:induction false} InsertIncreasing(x: nat, s: seq<nat>)
    requires Increasing(s) && x !in s
    ensures Increasing(InsertInt(x, s))
  {
    if s != [] && x > s[0] {
      InsertIncreasing(x, s[1..]);
      var r := InsertInt(x, s[1..]);
      forall j | 0 <= j < |r|
        ensures s[0] < r[j]
      {
        assert r[j] in r;
        if r[j] != x {
          var k :| 0 <= k < |s[1..]| && s[1..][k] == r[j];
        }
      }
    }
  }

  lemma {:induction false} SortIncreasing(s: seq<nat>)
    requires Distinct(s)
    ensures Increasing(SortInts(s)) && Members(SortInts(s)) == Members(s)
  {
    if s != [] {
      SortIncreasing(s[1..]);
      InsertIncreasing(s[0], SortInts(s[1..]));
    }
  }

  /** A strictly increasing list is determined by its elements. */
  lemma {:induction false} IncreasingUnique(s: seq<nat>, t: seq<nat>)
    requires Increasing(s) && Increasing(t) && forall x :: x in s <==> x in t
    ensures s == t
  {
    assert s != [] ==> s[0] in s;
    assert t != [] ==> t[0] in t;
    if s != [] {
      LeastFirst(s);
      LeastFirst(t);
      IncreasingUnique(s[1..], t[1..]);
    }
  }

  lemma LeastFirst(s: seq<nat>)
    requires Increasing(s) && s != []
    ensures forall x :: x in s <==> x == s[0] || x in s[1..]
    ensures forall x :: x in s[1..] ==> s[0] < x
  {
    assert s == [s[0]] + s[1..];
    forall x | x in s[1..]
      ensures s[0] < x
    {
      var k :| 0 <= k < |s[1..]| && s[1..][k] == x;
    }
  }

  // ---------------------------------------------------------------- the code

  const FlagBOL := 1
  const FlagBOT := 4
  const FlagWord := 16

  /** `f & bit != 0`, for a power of two. */
  predicate HasBit(f: nat, bit: nat)
    requires bit > 0
  {
    f / bit % 2 == 1
  }

  function FlagBits(z: State): (f: uint32)
    ensures HasBit(f, FlagBOL) == z.beginLine && HasBit(f, FlagBOT) == z.beginText && HasBit(f, FlagWord) == z.word
  {
    (if z.beginLine then FlagBOL else 0) + (if z.beginText then FlagBOT else 0) + (if z.word then FlagWord else 0)
  }

  /** The partial rune, always 0, the flags, and the differences of the sorted instruction numbers. */
  function Code(ids: seq<uint32>, flag: uint32): Str {
    PutUvarint(0) + (PutUvarint(flag) + Deltas(NoId, ids))
  }

  /** `s` names the state `z`. */
  ghost predicate Encodes(s: Str, z: State) {
    exists ids: seq<uint32> :: Increasing(ids) && Members(ids) == z.q && s == Code(ids, FlagBits(z))
  }

  lemma PutRoundTrip(x: uint32, rest: Str)
    ensures var b := PutUvarint(x) + rest;
            Uvarint(b) == Some(Varint(x, |PutUvarint(x)|)) && b[|PutUvarint(x)|..] == rest
  {
    WriteIsPut(x);
    UvarintRoundTrip(x, rest);
  }

  /** The front of a nonempty list of differences. */
  lemma DeltasFront(last: uint32, ids: seq<uint32>)
    requires ids != []
    ensures var u := Uvarint(Deltas(last, ids));
            u.Some? && u.value.size <= |Deltas(last, ids)| && u.value.value < TwoTo32
            && (last + u.value.value) % TwoTo32 == ids[0]
            && Deltas(last, ids)[u.value.size..] == Deltas(ids[0], ids[1..])
  {
    UvarintRoundTrip(Delta(last, ids[0]), Deltas(ids[0], ids[1..]));
  }

  lemma {:induction false} DeltasInjective(last: uint32, ids: seq<uint32>, ids': seq<uint32>)
    requires Deltas(last, ids) == Deltas(last, ids')
    ensures ids == ids'
    decreases ids
  {
    hide Uvarint;
    if ids != [] && ids' != [] {
      DeltasFront(last, ids);
      DeltasFront(last, ids');
      assert ids[0] == ids'[0];
      DeltasInjective(ids[0], ids[1..], ids'[1..]);
    }
  }

  /** Different flags or instructions have different codes. */
  lemma CodeInjective(ids: seq<uint32>, flag: uint32, ids': seq<uint32>, flag': uint32)
    requires Code(ids, flag) == Code(ids', flag')
    ensures ids == ids' && flag == flag'
  {
    hide PutUvarint, Uvarint, Deltas;
    PutRoundTrip(0, PutUvarint(flag) + Deltas(NoId, ids));
    PutRoundTrip(0, PutUvarint(flag') + Deltas(NoId, ids'));
    PutRoundTrip(flag, Deltas(NoId, ids));
    PutRoundTrip(flag', Deltas(NoId, ids'));
    DeltasInjective(NoId, ids, ids');
  }

  /** A code names one state. */
  lemma EncodesOne(s: Str, z: State, z': State)
    requires Encodes(s, z) && Encodes(s, z')
    ensures z == z'
  {
    hide Code, FlagBits;
    var ids: seq<uint32> :| Increasing(ids) && Members(ids) == z.q && s == Code(ids, FlagBits(z));
    var ids': seq<uint32> :| Increasing(ids') && Members(ids') == z'.q && s == Code(ids', FlagBits(z'));
    CodeInjective(ids, FlagBits(z), ids', FlagBits(z'));
  }

  /** A state has one code. */
  lemma StateHasOneCode(s: Str, s': Str, z: State)
    requires Encodes(s, z) && Encodes(s', z)
    ensures s == s'
  {
    hide Code, FlagBits, Increasing;
    var ids: seq<uint32> :| Increasing(ids) && Members(ids) == z.q && s == Code(ids, FlagBits(z));
    var ids': seq<uint32> :| Increasing(ids') && Members(ids') == z.q && s' == Code(ids', FlagBits(z));
    forall x
      ensures x in ids <==> x in ids'
    {
      assert x in ids <==> x in Members(ids);
      assert x in ids' <==> x in Members(ids');
    }
    IncreasingUnique(ids, ids');
  }

  // ---------------------------------------------------------------- nstate

  class NState {
    const q: Set
    var partial: nat
    var flag: uint32

    constructor (n: nat)
      ensures fresh(q) && fresh(q.sparse) && q.Valid() && q.sparse.Length == n && q.dense == []
      ensures partial == 0 && flag == 0
    {
      q := new Set(n);
      partial, flag := 0, 0;
    }

    ghost predicate Valid()
      reads this, q, q.sparse
    {
      q.Valid() && q.sparse.Length < NoId && partial == 0
    }

    /** The scratch state holds `z`. */
    ghost predicate Holds(z: State)
      reads this, q, q.sparse
    {
      Valid() && Members(q.dense) == z.q && flag == FlagBits(z)
    }

    /** enc. */
    method Enc(ghost z: State) returns (s: Str)
      requires Holds(z)
      ensures Encodes(s, z)
    {
      hide Increasing, PutUvarint, WriteUvarint, Deltas, Distinct, Code, LastId, Delta, FlagBits;
      q.ValidDistinct();
      SortIncreasing(q.dense);
      var ids := SortInts(q.dense);
      assert Increasing(ids) && Members(ids) == z.q;
      ghost var codes: seq<uint32> := SmallIds(ids, q.sparse.Length);
      hide Set.Valid;
      var buf := PutUvarint(partial);
      buf := buf + PutUvarint(flag);
      var last: uint32 := NoId;
      assert buf == Code(codes[..0], flag) && last == LastId(NoId, codes[..0]) by {
        EmptyCode(codes, flag);
      }
      for i := 0 to |ids|
        invariant last == LastId(NoId, codes[..i]) && buf == Code(codes[..i], flag)
      {
        CodeAppend(codes, i, flag);
        buf := buf + PutUvarint(Delta(last, ids[i]));
        last := ids[i];
      }
      assert codes[..|ids|] == codes;
      s := buf;
    }

    /** dec: restores the flags and the instructions; `bug` is not reached on a code. */
    method Dec(s: Str, ghost z: State)
      requires Valid() && Encodes(s, z) && forall i :: i in z.q ==> i < q.sparse.Length
      modifies this, q, q.sparse
      ensures Holds(z) && q.sparse == old(q.sparse)
    {
      hide Increasing, PutUvarint, WriteUvarint, Deltas, Uvarint, Code, FlagBits;
      ghost var ids: seq<uint32> :| Increasing(ids) && Members(ids) == z.q && s == Code(ids, FlagBits(z));
      CodeParts(ids, FlagBits(z));
      var b := s;
      var u := Uvarint(b);
      assert u.Some? && u.value.size > 0;
      b := b[u.value.size..];
      partial := u.value.value;
      u := Uvarint(b);
      assert u.Some? && u.value.size > 0;
      b := b[u.value.size..];
      flag := u.value.value;
      q.Reset();
      var last: uint32 := NoId;
      ghost var k := 0;
      assert ids[..0] == [] && ids[0..] == ids;
      while |b| > 0
        invariant 0 <= k <= |ids| && b == Deltas(last, ids[k..])
        invariant q.Valid() && q.sparse == old(q.sparse) && q.dense == ids[..k]
        invariant partial == 0 && flag == FlagBits(z)
        decreases |b|
      {
        assert k < |ids| by {
          NoDeltasLeft(last, ids, k);
        }
        DeltasFront(last, ids[k..]);
        u := Uvarint(b);
        assert u.Some? && u.value.size > 0 by {
          SizePositive(b);
        }
        b := b[u.value.size..];
        last := (last + u.value.value) % TwoTo32;
        assert last == ids[k] && ids[k] in Members(ids);
        NewId(ids, k);
        q.Add(last);
        assert ids[k..][1..] == ids[k + 1..];
        assert ids[..k + 1] == ids[..k] + [ids[k]];
        k := k + 1;
      }
      assert k == |ids| by {
        DeltasNotEmpty(last, ids[k..]);
      }
      assert ids[..k] == ids;
    }
  }

  lemma EmptyCode(codes: seq<uint32>, flag: uint32)
    ensures Code(codes[..0], flag) == PutUvarint(0) + PutUvarint(flag) && LastId(NoId, codes[..0]) == NoId
  {
    hide PutUvarint;
    assert Deltas(NoId, codes[..0]) == [];
  }

  lemma CodeAppend(codes: seq<uint32>, i: nat, flag: uint32)
    requires i < |codes|
    ensures var last := LastId(NoId, codes[..i]);
            Code(codes[..i + 1], flag) == Code(codes[..i], flag) + PutUvarint(Delta(last, codes[i]))
            && LastId(NoId, codes[..i + 1]) == codes[i]
  {
    assert codes[..i + 1] == codes[..i] + [codes[i]];
    assert LastId(NoId, codes[..i + 1]) == codes[i];
    hide PutUvarint, WriteUvarint, Deltas, LastId, Delta;
    var d := Delta(LastId(NoId, codes[..i]), codes[i]);
    DeltasAppend(NoId, codes[..i], codes[i]);
    WriteIsPut(d);
    Regroup(PutUvarint(0), PutUvarint(flag), Deltas(NoId, codes[..i]), PutUvarint(d));
  }

  lemma Regroup(a: Str, b: Str, c: Str, d: Str)
    ensures a + (b + (c + d)) == a + (b + c) + d
  {
  }

  lemma SizePositive(b: Str)
    ensures Uvarint(b).Some? ==> Uvarint(b).value.size > 0
  {
  }

  lemma NoDeltasLeft(last: uint32, ids: seq<uint32>, k: nat)
    requires k <= |ids| && Deltas(last, ids[k..]) != []
    ensures k < |ids|
  {
  }

  lemma DeltasNotEmpty(last: uint32, ids: seq<uint32>)
    ensures ids != [] ==> Deltas(last, ids) != []
  {
  }

  lemma NewId(ids: seq<uint32>, k: nat)
    requires Increasing(ids) && k < |ids|
    ensures ids[k] !in ids[..k]
  {
  }

  lemma CodeParts(ids: seq<uint32>, flag: uint32)
    ensures var s := Code(ids, flag);
            var u := Uvarint(s);
            u.Some? && 0 < u.value.size <= |s| && u.value.value == 0
            && (var b := s[u.value.size..];
                var w := Uvarint(b);
                w.Some? && 0 < w.value.size <= |b| && w.value.value == flag && b[w.value.size..] == Deltas(NoId, ids))
  {
    hide PutUvarint, Uvarint, Deltas;
    PutRoundTrip(0, PutUvarint(flag) + Deltas(NoId, ids));
    PutRoundTrip(flag, Deltas(NoId, ids));
  }

  ghost function SmallIds(ids: seq<nat>, n: nat): (r: seq<uint32>)
    requires n < NoId && forall i :: i in ids ==> i < n
    ensures r == ids
  {
    if ids == [] then []
    else
      assert ids[0] in ids && forall i :: i in ids[1..] ==> i in ids;
      [ids[0]] + SmallIds(ids[1..], n)
  }
}
