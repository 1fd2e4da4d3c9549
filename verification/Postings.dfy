/** Streaming posting lists and evaluating queries (index/read.go, postReader to mergeOr). */
module Postings {
  import opened Bytes
  import opened Varints
  import opened PostEntries
  import opened IndexFormat
  import opened IndexReader

  // ---------------------------------------------------------------- restriction

  /** The ids that are also in `r`, in order. */
  function Keep(ids: seq<uint32>, r: seq<uint32>): (k: seq<uint32>)
    ensures forall x :: x in k <==> x in ids && x in r
    ensures |k| <= |ids|
  {
    if ids == [] then []
    else if ids[0] in r then [ids[0]] + Keep(ids[1..], r)
    else Keep(ids[1..], r)
  }

  /** A nil restriction allows every id. */
  function Wanted(ids: seq<uint32>, restrict: Option<seq<uint32>>): (k: seq<uint32>)
    ensures |k| <= |ids|
  {
    match restrict
    case None => ids
    case Some(r) => Keep(ids, r)
  }

  lemma {:induction false} KeepIncreasing(ids: seq<uint32>, r: seq<uint32>)
    requires Increasing(ids)
    ensures Increasing(Keep(ids, r))
  {
    if ids != [] {
      KeepIncreasing(ids[1..], r);
      var k := Keep(ids[1..], r);
      forall j | 0 <= j < |k|
        ensures ids[0] < k[j]
      {
        assert k[j] in k;
      }
    }
  }

  lemma WantedIncreasing(ids: seq<uint32>, restrict: Option<seq<uint32>>)
    requires Increasing(ids)
    ensures Increasing(Wanted(ids, restrict))
  {
    if restrict.Some? {
      KeepIncreasing(ids, restrict.value);
    }
  }

  lemma {:induction false} KeepSame(ids: seq<uint32>, r: seq<uint32>, s: seq<uint32>)
    requires forall x :: x in ids ==> (x in r <==> x in s)
    ensures Keep(ids, r) == Keep(ids, s)
  {
    if ids != [] {
      assert ids[0] in ids;
      KeepSame(ids[1..], r, s);
    }
  }

  /** Dropping members of the restriction below all the ids changes nothing. */
  lemma KeepDropSmall(ids: seq<uint32>, r: seq<uint32>, i: nat)
    requires i <= |r| && forall x, h :: x in ids && 0 <= h < i ==> r[h] < x
    ensures Keep(ids, r) == Keep(ids, r[i..])
  {
    forall x | x in ids
      ensures x in r <==> x in r[i..]
    {
      if x in r {
        var h :| 0 <= h < |r| && r[h] == x;
        assert r[i..][h - i] == x;
      }
    }
    KeepSame(ids, r, r[i..]);
  }

  // ---------------------------------------------------------------- postReader

  /** Decoding one delta of a posting list. */
  lemma DecodeDelta(d: Str, fileid: uint32, rest: seq<uint32>)
    requires Deltas(fileid, rest) + [0] <= d && rest != [] && rest[0] != fileid
    ensures var u := Uvarint(d);
            u.Some? && u.value.size <= |d| && u.value.value == Delta(fileid, rest[0])
            && Delta(fileid, rest[0]) != 0
            && (fileid + Delta(fileid, rest[0])) % TwoTo32 == rest[0]
            && Deltas(rest[0], rest[1..]) + [0] <= d[u.value.size..]
  {
    hide Uvarint, WriteUvarint, Deltas, Delta;
    var delta := Delta(fileid, rest[0]);
    var w := WriteUvarint(delta);
    DeltasHead(fileid, rest);
    DeltaWraps(fileid, rest[0]);
    assert w + (Deltas(rest[0], rest[1..]) + [0]) == Deltas(fileid, rest) + [0];
    assert w <= d;
    assert d == w + d[|w|..];
    UvarintRoundTrip(delta, d[|w|..]);
  }

  lemma DeltasHead(fileid: uint32, rest: seq<uint32>)
    requires rest != []
    ensures Deltas(fileid, rest) == WriteUvarint(Delta(fileid, rest[0])) + Deltas(rest[0], rest[1..])
  {
    hide WriteUvarint, Delta;
  }

  /** 32-bit differences add up again. */
  lemma DeltaWraps(last: uint32, id: uint32)
    ensures id != last ==> Delta(last, id) != 0
    ensures (last + Delta(last, id)) % TwoTo32 == id
  {
    if id >= last {
      assert (id - last) % TwoTo32 == id - last;
    } else {
      assert (id - last) % TwoTo32 == id - last + TwoTo32;
    }
  }

  /** The list of a trigram, nil if it has none. */
  method ListData(ix: Index, trigram: nat, ghost v: View) returns (count: nat, offset: nat, d: Str)
    requires Represents(ix, v)
    ensures count == |Lookup(v.postings, trigram)| && ValidIds(Lookup(v.postings, trigram), |v.names|) && |v.names| < NoId
    ensures if Lookup(v.postings, trigram) == [] then d == [] else Deltas(NoId, Lookup(v.postings, trigram)) + [0] <= d
  {
    hide Deltas, Lookup, ValidIds, ValidPostings;
    ghost var k;
    count, offset, k := FindList(ix, trigram, v);
    d := [];
    if count != 0 {
      ListAtOffset(ix, v, k, offset);
      d := ix.data[ix.postData + offset + 3..];
    }
    LookupValid(v.postings, trigram, |v.names|);
  }

  class PostReader {
    var count: nat
    var offset: nat
    var fileid: uint32
    var d: Str                            // nil when the trigram has no list
    var restrict: Option<seq<uint32>>     // resliced from the front as the ids pass by
    ghost var rest: seq<uint32>           // the ids still to be read

    ghost predicate Valid()
      reads this
    {
      && count == |rest| && Increasing(rest)
      && (forall x :: x in rest ==> x < NoId && (fileid == NoId || fileid < x))
      && (restrict.Some? ==> Increasing(restrict.value))
      && (if d == [] then rest == [] else Deltas(fileid, rest) + [0] <= d)
    }

    /** What successive calls of Next return. */
    ghost function Remaining(): seq<uint32>
      reads this
    {
      Wanted(rest, restrict)
    }

    /** The current id, if there is one, and those to come. */
    ghost function Pending(more: bool): seq<uint32>
      reads this
    {
      if more then [fileid] + Remaining() else []
    }

    constructor Init(ix: Index, trigram: nat, r: Option<seq<uint32>>, ghost v: View)
      requires Represents(ix, v) && (r.Some? ==> Increasing(r.value))
      ensures Valid() && Remaining() == Wanted(Lookup(v.postings, trigram), r)
      ensures count == |Lookup(v.postings, trigram)|
    {
      count, offset, fileid, d, restrict := 0, 0, 0, [], None;
      rest := [];
      new;
      hide *;
      count, offset, d := ListData(ix, trigram, v);
      restrict := r;
      if count != 0 {
        fileid := NoId;
      }
      rest := Lookup(v.postings, trigram);
      Started(Lookup(v.postings, trigram), |v.names|);
    }

    /** The state of a new reader. */
    lemma Started(ids: seq<uint32>, numName: nat)
      requires count == |ids| && ValidIds(ids, numName) && numName < NoId && (restrict.Some? ==> Increasing(restrict.value))
      requires rest == ids && (ids != [] ==> fileid == NoId && Deltas(NoId, ids) + [0] <= d) && (ids == [] ==> d == [])
      ensures Valid() && Remaining() == Wanted(ids, restrict)
    {
      hide Deltas;
    }

    method Next() returns (ok: bool)
      requires Valid()
      modifies this
      ensures Valid()
      ensures old(Remaining()) == Pending(ok)
      ensures count <= old(count) && (ok ==> count < old(count))
    {
      while count > 0
        invariant Valid() && Remaining() == old(Remaining()) && count <= old(count)
        decreases count
      {
        Step();
        if restrict.Some? {
          Trim();
          if |restrict.value| == 0 || restrict.value[0] != fileid {
            continue;
          }
        }
        return true;
      }
      assert d == [] || d[0] == 0;
      fileid := NoId;
      return false;
    }

    /** Reads the next delta; `corrupt` would be called if the assertion failed. */
    method Step()
      requires Valid() && count > 0
      modifies this
      ensures Valid() && count == old(count) - 1 && restrict == old(restrict)
      ensures old(rest) == [fileid] + rest
    {
      hide Uvarint, Delta, Deltas;
      assert rest[0] in rest;
      DecodeDelta(d, fileid, rest);
      var u := Uvarint(d);
      assert u.Some? && u.value.value != 0;
      count := count - 1;
      d := d[u.value.size..];
      fileid := (fileid + u.value.value) % TwoTo32;
      assert forall x :: x in rest[1..] ==> x in rest && rest[0] < x;
      rest := rest[1..];
    }

    /** Reslices the restriction so that it starts at `fileid` or later. */
    method Trim()
      requires Valid() && restrict.Some? && forall x :: x in rest ==> fileid < x
      modifies this
      ensures Valid() && restrict.Some?
      ensures count == old(count) && fileid == old(fileid) && rest == old(rest)
      ensures Remaining() == old(Remaining())
      ensures fileid in old(restrict.value) <==> |restrict.value| > 0 && restrict.value[0] == fileid
    {
      var r := restrict.value;
      var i := 0;
      while i < |r| && r[i] < fileid
        invariant i <= |r| && forall h :: 0 <= h < i ==> r[h] < fileid
      {
        i := i + 1;
      }
      KeepDropSmall(rest, r, i);
      restrict := Some(r[i..]);
    }
  }

  /** The bytes from which a list's reader starts. */
  lemma ListStarts(ix: Index, v: View, k: nat)
    requires Represents(ix, v) && k < |v.postings|
    ensures var o := ix.postData + |PostingData(v.postings[..k])| + 3;
            o <= |ix.data| && Deltas(NoId, v.postings[k].ids) + [0] <= ix.data[o..]
  {
    var p := v.postings[k];
    var o := |PostingData(v.postings[..k])|;
    PostingAt(v.postings, k);
    OccursWithin(ix.data, ix.postData, PostingData(v.postings), o, PostingBytes(p));
    SplitPosting(ix.data, ix.postData + o, p);
  }

  lemma ListAtOffset(ix: Index, v: View, k: nat, offset: nat)
    requires Represents(ix, v) && k < |v.postings| && offset == |PostingData(v.postings[..k])|
    ensures ix.postData + offset + 3 <= |ix.data| && Deltas(NoId, v.postings[k].ids) + [0] <= ix.data[ix.postData + offset + 3..]
    ensures |v.names| < NoId
  {
    ListStarts(ix, v, k);
  }

  lemma SplitPosting(data: Str, o: nat, p: Posting)
    requires OccursAt(data, o, PostingBytes(p))
    ensures o + 3 <= |data| && Deltas(NoId, p.ids) + [0] <= data[o + 3..]
  {
    var w := Deltas(NoId, p.ids) + [0];
    OccursAtEnd(Tri3(p.trigram), w, []);
    OccursWithin(data, o, PostingBytes(p), 3, w);
    assert data[o + 3..][..|w|] == data[o + 3..o + 3 + |w|];
  }

  // ---------------------------------------------------------------- lists of ids

  /** A Go slice of ids: nil, or the first `n` cells of an array. */
  datatype IdList = Nil | Ids(arr: array<uint32>, n: nat)

  predicate Fits(l: IdList) {
    l.Ids? ==> l.n <= l.arr.Length
  }

  function Cells(l: IdList): set<object> {
    if l.Ids? then {l.arr} else {}
  }

  function Elems(l: IdList): seq<uint32>
    requires Fits(l)
    reads Cells(l)
  {
    if l.Nil? then [] else l.arr[..l.n]
  }

  function Len(l: IdList): nat {
    if l.Nil? then 0 else l.n
  }

  /** A restriction: nil allows everything. */
  function Restriction(l: IdList): Option<seq<uint32>>
    requires Fits(l)
    reads Cells(l)
  {
    if l.Nil? then None else Some(Elems(l))
  }

  method FromSeq(s: seq<uint32>) returns (l: IdList)
    ensures l.Ids? && fresh(l.arr) && Fits(l) && Elems(l) == s
  {
    var arr := new uint32[|s|](i requires 0 <= i < |s| => s[i]);
    l := Ids(arr, |s|);
  }

  /** Reads a list to its end. */
  method Collect(r: PostReader) returns (x: seq<uint32>)
    requires r.Valid()
    modifies r
    ensures x == old(r.Remaining())
  {
    hide PostReader.Valid;
    ghost var all := r.Remaining();
    x := [];
    var more := r.Next();
    while more
      invariant r.Valid() && all == x + r.Pending(more)
      decreases r.count, more
    {
      ghost var tail := r.Remaining();
      assert x + ([r.fileid] + tail) == (x + [r.fileid]) + tail;
      x := x + [r.fileid];
      more := r.Next();
    }
  }

  /** postingList. */
  method PostingList(ix: Index, trigram: nat, restrict: Option<seq<uint32>>, ghost v: View) returns (l: IdList)
    requires Represents(ix, v) && (restrict.Some? ==> Increasing(restrict.value))
    ensures l.Ids? && fresh(l.arr) && Fits(l)
    ensures Elems(l) == Wanted(Lookup(v.postings, trigram), restrict)
  {
    var r := new PostReader.Init(ix, trigram, restrict, v);
    var x := Collect(r);
    l := FromSeq(x);
  }

  // ---------------------------------------------------------------- postingAnd, in place

  lemma {:induction false} KeepEmpty(ids: seq<uint32>)
    ensures Keep(ids, []) == []
  {
    if ids != [] {
      KeepEmpty(ids[1..]);
    }
  }

  /** Skipping list ids below the reader's head. */
  lemma KeepSkip(list: seq<uint32>, i: nat, r: seq<uint32>)
    requires i < |list| && list[i] !in r
    ensures Keep(list[i..], r) == Keep(list[i + 1..], r)
  {
    assert list[i..][0] == list[i] && list[i..][1..] == list[i + 1..];
  }

  /** Passing the head of the reader: it is kept exactly when the list is at it. */
  lemma KeepHead(list: seq<uint32>, i: nat, h: uint32, tail: seq<uint32>)
    requires i <= |list| && Increasing(list) && Increasing([h] + tail)
    requires i < |list| ==> h <= list[i]
    ensures Keep(list[i..], [h] + tail) ==
            if i < |list| && list[i] == h then [h] + Keep(list[i + 1..], tail) else Keep(list[i..], tail)
  {
    var at := i < |list| && list[i] == h;
    var from := if at then i + 1 else i;
    forall x | x in list[from..]
      ensures x in [h] + tail <==> x in tail
    {
      var j :| 0 <= j < |list[from..]| && list[from..][j] == x;
      assert list[from + j] == x;
    }
    KeepSame(list[from..], [h] + tail, tail);
    if at {
      assert list[i..][0] == h && list[i..][1..] == list[i + 1..];
      assert ([h] + tail)[0] == h;
    }
  }

  /** The loop of postingAnd over `arr[..n]`. */
  method Intersect(r: PostReader, arr: array<uint32>, n: nat) returns (w: nat)
    requires r.Valid() && n <= arr.Length && Increasing(arr[..n]) && Increasing(r.Remaining())
    modifies r, arr
    ensures w <= n && arr[..w] == Keep(old(arr[..n]), old(r.Remaining()))
  {
    hide PostReader.Valid;
    ghost var was, all, kept := arr[..n], r.Remaining(), [];
    w := 0;
    var i: nat := 0;
    assert was[0..] == was;
    var more := r.Next();
    while more
      invariant r.Valid() && w <= i <= n && arr[i..n] == was[i..] && arr[..w] == kept
      invariant Increasing(r.Pending(more))
      invariant Keep(was, all) == kept + Keep(was[i..], r.Pending(more))
      decreases r.count, more
    {
      ghost var tail := r.Remaining();
      w, i, kept := IntersectOne(arr, w, i, n, r.fileid, was, all, kept, tail);
      more := r.Next();
    }
    KeepEmpty(was[i..]);
  }

  /** The body of that loop: moves the list's cursor to the reader's id, and keeps the id if it is there. */
  method IntersectOne(arr: array<uint32>, w0: nat, i0: nat, n: nat, fileid: uint32, ghost was: seq<uint32>,
                      ghost all: seq<uint32>, ghost kept0: seq<uint32>, ghost tail: seq<uint32>)
    returns (w: nat, i: nat, ghost kept: seq<uint32>)
    requires w0 <= i0 <= n <= arr.Length && |was| == n && arr[i0..n] == was[i0..] && arr[..w0] == kept0
    requires Increasing(was) && Increasing([fileid] + tail)
    requires Keep(was, all) == kept0 + Keep(was[i0..], [fileid] + tail)
    modifies arr
    ensures w <= i <= n && arr[i..n] == was[i..] && arr[..w] == kept && Increasing(tail)
    ensures Keep(was, all) == kept + Keep(was[i..], tail)
  {
    hide Keep, Increasing;
    w, kept := w0, kept0;
    i := SkipBelow(arr, i0, n, fileid, was, tail);
    KeepStep(was, all, kept, i0, i, fileid, tail);
    TailIncreasing(fileid, tail);
    if i < n && arr[i] == fileid {
      WriteBehind(arr, w, i, n, fileid);
      kept := kept + [fileid];
      w, i := w + 1, i + 1;
    }
  }

  lemma KeepStep(was: seq<uint32>, all: seq<uint32>, kept: seq<uint32>, i0: nat, i: nat, h: uint32, tail: seq<uint32>)
    requires i0 <= i <= |was| && Increasing(was) && Increasing([h] + tail) && (i < |was| ==> h <= was[i])
    requires Keep(was, all) == kept + Keep(was[i0..], [h] + tail)
    requires Keep(was[i0..], [h] + tail) == Keep(was[i..], [h] + tail)
    ensures Keep(was, all) ==
            if i < |was| && was[i] == h then (kept + [h]) + Keep(was[i + 1..], tail) else kept + Keep(was[i..], tail)
  {
    KeepHead(was, i, h, tail);
    if i < |was| && was[i] == h {
      assert kept + ([h] + Keep(was[i + 1..], tail)) == (kept + [h]) + Keep(was[i + 1..], tail);
    }
  }

  /** postingAnd: keeps the ids of `list` that are in the trigram's list, overwriting `list`. */
  method PostingAnd(ix: Index, list: IdList, trigram: nat, restrict: Option<seq<uint32>>, ghost v: View)
    returns (l: IdList)
    requires Represents(ix, v) && (restrict.Some? ==> Increasing(restrict.value))
    requires list.Ids? && Fits(list) && Increasing(Elems(list))
    modifies list.arr
    ensures l.Ids? && l.arr == list.arr && l.n <= list.n && Fits(l)
    ensures Elems(l) == Keep(old(Elems(list)), Wanted(Lookup(v.postings, trigram), restrict))
  {
    var r := new PostReader.Init(ix, trigram, restrict, v);
    LookupValid(v.postings, trigram, |v.names|);
    WantedIncreasing(Lookup(v.postings, trigram), restrict);
    var w := Intersect(r, list.arr, list.n);
    l := Ids(list.arr, w);
  }

  method WriteBehind(arr: array<uint32>, w: nat, i: nat, n: nat, x: uint32)
    requires w <= i < n <= arr.Length
    modifies arr
    ensures arr[..w + 1] == old(arr[..w]) + [x] && arr[i + 1..n] == old(arr[i + 1..n])
  {
    arr[w] := x;
  }

  lemma TailIncreasing(h: uint32, tail: seq<uint32>)
    requires Increasing([h] + tail)
    ensures Increasing(tail)
  {
    assert ([h] + tail)[1..] == tail;
  }

  method SkipBelow(arr: array<uint32>, i0: nat, n: nat, fileid: uint32, ghost was: seq<uint32>, ghost tail: seq<uint32>)
    returns (i: nat)
    requires i0 <= n <= arr.Length && |was| == n && arr[i0..n] == was[i0..] && Increasing([fileid] + tail)
    ensures i0 <= i <= n && arr[i..n] == was[i..] && (i < n ==> arr[i] == was[i] && fileid <= was[i])
    ensures Keep(was[i0..], [fileid] + tail) == Keep(was[i..], [fileid] + tail)
  {
    hide Keep;
    i := i0;
    ghost var r := [fileid] + tail;
    assert forall x :: x in r ==> fileid <= x by {
      assert r[0] == fileid && forall j :: 0 < j < |r| ==> fileid < r[j];
    }
    forall j | i0 <= j < n
      ensures arr[j] == was[j]
    {
      assert arr[i0..n][j - i0] == was[i0..][j - i0];
    }
    while i < n && arr[i] < fileid
      invariant i0 <= i <= n
      invariant Keep(was[i0..], r) == Keep(was[i..], r)
    {
      KeepSkip(was, i, r);
      i := i + 1;
    }
    assert arr[i..n] == was[i..] by {
      assert |arr[i..n]| == |was[i..]| && forall j :: 0 <= j < n - i ==> arr[i..n][j] == arr[i + j] == was[i + j] == was[i..][j];
    }
  }

  // ---------------------------------------------------------------- postingOr and mergeOr

  ghost predicate IsUnion(l: seq<uint32>, a: seq<uint32>, b: seq<uint32>) {
    Increasing(l) && forall x :: x in l <==> x in a || x in b
  }

  /** Merging as far as cursors `i` and `j`: the result so far, below everything left. */
  ghost predicate Merging(l: seq<uint32>, a: seq<uint32>, i: nat, b: seq<uint32>, j: nat) {
    i <= |a| && j <= |b| && IsUnion(l, a[..i], b[..j])
    && (forall x :: x in l ==> (i < |a| ==> x < a[i]) && (j < |b| ==> x < b[j]))
  }

  lemma AppendIncreasing(l: seq<uint32>, x: uint32)
    requires Increasing(l) && forall y :: y in l ==> y < x
    ensures Increasing(l + [x])
  {
    forall k | 0 <= k < |l|
      ensures l[k] < x
    {
      assert l[k] in l;
    }
  }

  lemma MergeStep(l: seq<uint32>, a: seq<uint32>, i: nat, b: seq<uint32>, j: nat)
    requires Merging(l, a, i, b, j) && Increasing(a) && Increasing(b)
    ensures i < |a| && (j == |b| || a[i] < b[j]) ==> Merging(l + [a[i]], a, i + 1, b, j)
    ensures j < |b| && (i == |a| || b[j] < a[i]) ==> Merging(l + [b[j]], a, i, b, j + 1)
    ensures i < |a| && j < |b| && a[i] == b[j] ==> Merging(l + [a[i]], a, i + 1, b, j + 1)
  {
    if i < |a| {
      assert a[..i + 1] == a[..i] + [a[i]];
      AppendIncreasing(l, a[i]);
    }
    if j < |b| {
      assert b[..j + 1] == b[..j] + [b[j]];
      AppendIncreasing(l, b[j]);
    }
  }

  lemma MergeDone(l: seq<uint32>, a: seq<uint32>, b: seq<uint32>)
    requires Merging(l, a, |a|, b, |b|)
    ensures IsUnion(l, a, b)
  {
    assert a[..|a|] == a && b[..|b|] == b;
  }

  lemma HeadOf(b: seq<uint32>, j: nat, h: uint32, tail: seq<uint32>)
    requires j <= |b| && b[j..] == [h] + tail
    ensures j < |b| && b[j] == h && b[j + 1..] == tail
  {
    assert b[j..][0] == b[j] && b[j..][1..] == b[j + 1..];
  }

  /** The loops of postingOr. */
  method MergeReader(r: PostReader, a: seq<uint32>) returns (x: seq<uint32>)
    requires r.Valid() && Increasing(a) && Increasing(r.Remaining())
    modifies r
    ensures IsUnion(x, a, old(r.Remaining()))
  {
    hide PostReader.Valid;
    ghost var b := r.Remaining();
    ghost var j: nat := 0;
    x := [];
    var i: nat := 0;
    var more := r.Next();
    while more
      invariant r.Valid() && i <= |a| && j <= |b| && Merging(x, a, i, b, j)
      invariant b[j..] == r.Pending(more)
      decreases r.count, more
    {
      var fileid := r.fileid;
      HeadOf(b, j, fileid, r.Remaining());
      i, x := TakeBelow(a, i, fileid, x, b, j);
      MergeStep(x, a, i, b, j);
      x := x + [fileid];
      if i < |a| && a[i] == fileid {
        i := i + 1;
      }
      j := j + 1;
      more := r.Next();
    }
    while i < |a|
      invariant i <= |a| && j == |b| && Merging(x, a, i, b, j)
    {
      MergeStep(x, a, i, b, j);
      x := x + [a[i]];
      i := i + 1;
    }
    MergeDone(x, a, b);
  }

  method TakeBelow(a: seq<uint32>, i0: nat, fileid: uint32, x0: seq<uint32>, ghost b: seq<uint32>, ghost j: nat)
    returns (i: nat, x: seq<uint32>)
    requires Increasing(a) && Increasing(b) && j < |b| && b[j] == fileid && Merging(x0, a, i0, b, j)
    ensures Merging(x, a, i, b, j) && (i < |a| ==> fileid <= a[i])
  {
    i, x := i0, x0;
    while i < |a| && a[i] < fileid
      invariant i <= |a| && Merging(x, a, i, b, j)
    {
      MergeStep(x, a, i, b, j);
      x := x + [a[i]];
      i := i + 1;
    }
  }

  /** postingOr: `list` and the trigram's list merged into a new one. */
  method PostingOr(ix: Index, list: IdList, trigram: nat, restrict: Option<seq<uint32>>, ghost v: View)
    returns (l: IdList)
    requires Represents(ix, v) && (restrict.Some? ==> Increasing(restrict.value))
    requires list.Ids? && Fits(list) && Increasing(Elems(list))
    ensures l.Ids? && fresh(l.arr) && Fits(l)
    ensures IsUnion(Elems(l), Elems(list), Wanted(Lookup(v.postings, trigram), restrict))
  {
    var r := new PostReader.Init(ix, trigram, restrict, v);
    LookupValid(v.postings, trigram, |v.names|);
    WantedIncreasing(Lookup(v.postings, trigram), restrict);
    var x := MergeReader(r, Elems(list));
    l := FromSeq(x);
  }

  /** mergeOr. */
  method MergeOr(l1: IdList, l2: IdList) returns (l: IdList)
    requires Fits(l1) && Fits(l2) && Increasing(Elems(l1)) && Increasing(Elems(l2))
    ensures l.Ids? && fresh(l.arr) && Fits(l) && IsUnion(Elems(l), Elems(l1), Elems(l2))
  {
    var a, b := Elems(l1), Elems(l2);
    var x: seq<uint32> := [];
    var i, j := 0, 0;
    while i < |a| || j < |b|
      invariant i <= |a| && j <= |b| && Merging(x, a, i, b, j)
      decreases |a| - i + |b| - j
    {
      MergeStep(x, a, i, b, j);
      if j == |b| || (i < |a| && a[i] < b[j]) {
        x := x + [a[i]];
        i := i + 1;
      } else if i == |a| || (j < |b| && a[i] > b[j]) {
        x := x + [b[j]];
        j := j + 1;
      } else {
        x := x + [a[i]];
        i, j := i + 1, j + 1;
      }
    }
    MergeDone(x, a, b);
    l := FromSeq(x);
  }
}
