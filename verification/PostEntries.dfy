/** Post entries and their radix sort (index/write.go, postEntry and sortPost). */
module PostEntries {
  const Shift32: nat := 0x1_0000_0000
  const Radix: nat := 4096

  /** A (trigram, file id) pair packed into one number. */
  type postEntry = nat

  function MakePostEntry(trigram: nat, fileid: nat): postEntry {
    trigram * Shift32 + fileid
  }

  function Trigram(p: postEntry): nat {
    p / Shift32
  }

  function FileId(p: postEntry): nat {
    p % Shift32
  }

  lemma PackUnpack(trigram: nat, fileid: nat)
    requires fileid < Shift32
    ensures var p := MakePostEntry(trigram, fileid); Trigram(p) == trigram && FileId(p) == fileid
  {
  }

  /** Entries compare by trigram first, then by file. */
  lemma EntryOrder(p: postEntry, q: postEntry)
    ensures p < q <==> Trigram(p) < Trigram(q) || (Trigram(p) == Trigram(q) && FileId(p) < FileId(q))
    ensures p == q <==> Trigram(p) == Trigram(q) && FileId(p) == FileId(q)
  {
  }

  predicate Increasing(s: seq<nat>) {
    forall i, j :: 0 <= i < j < |s| ==> s[i] < s[j]
  }

  lemma {:induction false} IncreasingShort(s: seq<nat>, n: nat)
    requires Increasing(s) && forall x :: x in s ==> x < n
    ensures |s| <= n
    decreases n
  {
    if s != [] {
      var k := |s| - 1;
      assert s[k] in s;
      forall x | x in s[..k]
        ensures x < n - 1
      {
        var i :| 0 <= i < k && s[i] == x;
      }
      IncreasingShort(s[..k], n - 1);
    }
  }

  // ---------------------------------------------------------------- buckets

  /** The 12 bits of the trigram that a pass sorts by. */
  function Digit(p: postEntry, pass: nat): (d: nat)
    ensures d < Radix
  {
    (if pass == 0 then p / Shift32 else p / Shift32 / Radix) % Radix
  }

  /** The entries with digit `r`, in their order in `s`. */
  function Bucket(s: seq<postEntry>, pass: nat, r: nat): (b: seq<postEntry>)
    ensures |b| <= |s|
  {
    if s == [] then []
    else
      var b := Bucket(s[..|s| - 1], pass, r);
      if Digit(s[|s| - 1], pass) == r then b + [s[|s| - 1]] else b
  }

  /** The first `k` buckets one after the other. */
  function Buckets(s: seq<postEntry>, pass: nat, k: nat): seq<postEntry> {
    if k == 0 then [] else Buckets(s, pass, k - 1) + Bucket(s, pass, k - 1)
  }

  function Start(s: seq<postEntry>, pass: nat, k: nat): nat {
    |Buckets(s, pass, k)|
  }

  lemma {:induction false} StartAppend(s: seq<postEntry>, p: postEntry, pass: nat, k: nat)
    ensures Start(s + [p], pass, k) == Start(s, pass, k) + if Digit(p, pass) < k then 1 else 0
  {
    if k > 0 {
      StartAppend(s, p, pass, k - 1);
      assert (s + [p])[..|s|] == s;
    }
  }

  lemma {:induction false} StartAll(s: seq<postEntry>, pass: nat)
    ensures Start(s, pass, Radix) == |s|
  {
    if s == [] {
      StartEmpty(pass, Radix);
    } else {
      var t, p := s[..|s| - 1], s[|s| - 1];
      assert s == t + [p];
      StartAll(t, pass);
      StartAppend(t, p, pass, Radix);
    }
  }

  lemma {:induction false} StartEmpty(pass: nat, k: nat)
    ensures Start([], pass, k) == 0
  {
    if k > 0 {
      StartEmpty(pass, k - 1);
    }
  }

  lemma {:induction false} StartMonotone(s: seq<postEntry>, pass: nat, j: nat, k: nat)
    requires j <= k
    ensures Start(s, pass, j) <= Start(s, pass, k)
    ensures j < k ==> Start(s, pass, j) + |Bucket(s, pass, j)| <= Start(s, pass, k)
  {
    if j < k {
      StartMonotone(s, pass, j, k - 1);
    }
  }

  lemma StartStep(s: seq<postEntry>, pass: nat, k: nat)
    ensures Start(s, pass, k + 1) == Start(s, pass, k) + |Bucket(s, pass, k)|
  {
  }

  lemma BucketStep(s: seq<postEntry>, k: nat, pass: nat, r: nat)
    requires k < |s|
    ensures Bucket(s[..k + 1], pass, r) ==
            if Digit(s[k], pass) == r then Bucket(s[..k], pass, r) + [s[k]] else Bucket(s[..k], pass, r)
  {
    assert s[..k + 1][..k] == s[..k];
  }

  lemma {:induction false} BucketPrefix(s: seq<postEntry>, k: nat, pass: nat, r: nat)
    requires k <= |s|
    ensures Bucket(s[..k], pass, r) <= Bucket(s, pass, r)
  {
    if k < |s| {
      assert s[..|s| - 1][..k] == s[..k];
      BucketPrefix(s[..|s| - 1], k, pass, r);
    } else {
      assert s[..k] == s;
    }
  }

  // ---------------------------------------------------------------- one counting pass

  /** sortN, in three steps: count the digits, then turn the counts into start positions. */
  method CountDigits(post: array<postEntry>, sortN: array<nat>, pass: nat)
    requires sortN.Length == Radix && (sortN as object) != post
    modifies sortN
    ensures forall r :: 0 <= r < Radix ==> sortN[r] == |Bucket(post[..], pass, r)|
  {
    for i := 0 to Radix
      invariant forall r :: 0 <= r < i ==> sortN[r] == 0
    {
      sortN[i] := 0;
    }
    ghost var s := post[..];
    for k := 0 to post.Length
      invariant forall r :: 0 <= r < Radix ==> sortN[r] == |Bucket(s[..k], pass, r)|
    {
      var r := Digit(post[k], pass);
      forall r' | 0 <= r' < Radix
        ensures |Bucket(s[..k + 1], pass, r')| == |Bucket(s[..k], pass, r')| + if r' == r then 1 else 0
      {
        BucketStep(s, k, pass, r');
      }
      sortN[r] := sortN[r] + 1;
    }
    assert s[..post.Length] == s;
  }

  function SumTo(counts: seq<nat>, r: nat): nat
    requires r <= |counts|
  {
    if r == 0 then 0 else SumTo(counts, r - 1) + counts[r - 1]
  }

  method Accumulate(sortN: array<nat>)
    modifies sortN
    ensures forall r :: 0 <= r < sortN.Length ==> sortN[r] == SumTo(old(sortN[..]), r)
  {
    ghost var counts := sortN[..];
    var tot := 0;
    for i := 0 to sortN.Length
      invariant tot == SumTo(counts, i)
      invariant forall r :: 0 <= r < i ==> sortN[r] == SumTo(counts, r)
      invariant forall r :: i <= r < sortN.Length ==> sortN[r] == counts[r]
    {
      var count := sortN[i];
      assert SumTo(counts, i + 1) == tot + count;
      sortN[i] := tot;
      tot := tot + count;
    }
  }

  lemma {:induction false} SumIsStart(s: seq<postEntry>, counts: seq<nat>, pass: nat, r: nat)
    requires |counts| == Radix && r <= Radix
    requires forall r :: 0 <= r < Radix ==> counts[r] == |Bucket(s, pass, r)|
    ensures SumTo(counts, r) == Start(s, pass, r)
  {
    if r > 0 {
      SumIsStart(s, counts, pass, r - 1);
      StartStep(s, pass, r - 1);
    }
  }

  /** The buckets of `s[..k]` sit at their places in `t`. */
  ghost predicate Placed(s: seq<postEntry>, k: nat, t: seq<postEntry>, pass: nat, r: nat)
    requires k <= |s|
  {
    var b := Bucket(s[..k], pass, r);
    Start(s, pass, r) + |b| <= |t| && t[Start(s, pass, r)..Start(s, pass, r) + |b|] == b
  }

  ghost predicate PlacedAll(s: seq<postEntry>, k: nat, t: seq<postEntry>, pass: nat)
    requires k <= |s|
  {
    forall r :: 0 <= r < Radix ==> Placed(s, k, t, pass, r)
  }

  lemma NothingPlaced(s: seq<postEntry>, t: seq<postEntry>, pass: nat)
    requires |t| == |s|
    ensures PlacedAll(s, 0, t, pass)
  {
    StartAll(s, pass);
    forall r | 0 <= r < Radix
      ensures Placed(s, 0, t, pass, r)
    {
      StartMonotone(s, pass, r, Radix);
    }
  }

  /** Writing the next entry at the end of its bucket keeps every bucket in place. */
  lemma PlaceNext(s: seq<postEntry>, k: nat, t: seq<postEntry>, pass: nat, r: nat)
    requires k < |s| == |t| && r < Radix && Placed(s, k, t, pass, r)
    ensures var d := Digit(s[k], pass);
            var o := Start(s, pass, d) + |Bucket(s[..k], pass, d)|;
            o < |t| && Placed(s, k + 1, t[o := s[k]], pass, r)
  {
    hide Start, Bucket, Digit;
    var d := Digit(s[k], pass);
    BucketStep(s, k, pass, d);
    BucketStep(s, k, pass, r);
    BucketPrefix(s, k + 1, pass, d);
    BucketPrefix(s, k + 1, pass, r);
    StartMonotone(s, pass, d, Radix);
    StartMonotone(s, pass, r, Radix);
    StartAll(s, pass);
    if r < d {
      StartMonotone(s, pass, r, d);
    } else if d < r {
      StartMonotone(s, pass, d, r);
    }
    var b := Bucket(s[..k], pass, r);
    WriteBeside(t, Start(s, pass, r), b, Start(s, pass, d) + |Bucket(s[..k], pass, d)|, s[k]);
  }

  /** Writing outside a stretch leaves it alone, and at its end extends it. */
  lemma WriteBeside(t: seq<postEntry>, i: nat, b: seq<postEntry>, o: nat, x: postEntry)
    requires i + |b| <= |t| && t[i..i + |b|] == b && o < |t|
    ensures o < i || i + |b| <= o ==> t[o := x][i..i + |b|] == b
    ensures o == i + |b| ==> t[o := x][i..i + |b| + 1] == b + [x]
  {
    assert forall h :: 0 <= h < |b| ==> t[i + h] == t[i..i + |b|][h] == b[h];
  }

  lemma {:induction false} AllPlaced(s: seq<postEntry>, t: seq<postEntry>, pass: nat, k: nat)
    requires k <= Radix && |t| == |s|
    requires PlacedAll(s, |s|, t, pass)
    ensures Start(s, pass, k) <= |t| && t[..Start(s, pass, k)] == Buckets(s, pass, k)
  {
    if k > 0 {
      AllPlaced(s, t, pass, k - 1);
      assert Placed(s, |s|, t, pass, k - 1);
      assert s[..|s|] == s;
      var i := Start(s, pass, k - 1);
      var b := Bucket(s, pass, k - 1);
      assert t[..i + |b|] == t[..i] + t[i..i + |b|];
    }
  }

  /** One stable counting pass from `post` into `tmp`. */
  method CountingPass(post: array<postEntry>, tmp: array<postEntry>, sortN: array<nat>, pass: nat)
    requires post.Length == tmp.Length && post != tmp
    requires sortN.Length == Radix && sortN != post && sortN != tmp
    modifies tmp, sortN
    ensures tmp[..] == Buckets(post[..], pass, Radix)
  {
    hide Bucket, Buckets, Placed;
    CountDigits(post, sortN, pass);
    ghost var s := post[..];
    ghost var counts := sortN[..];
    Accumulate(sortN);
    forall r | 0 <= r < Radix
      ensures sortN[r] == Start(s, pass, r)
    {
      SumIsStart(s, counts, pass, r);
    }
    NothingPlaced(s, tmp[..], pass);
    for k := 0 to post.Length
      invariant post[..] == s
      invariant forall r :: 0 <= r < Radix ==> sortN[r] == Start(s, pass, r) + |Bucket(s[..k], pass, r)|
      invariant PlacedAll(s, k, tmp[..], pass)
    {
      Distribute(post, tmp, sortN, pass, k, s);
    }
    assert s[..post.Length] == s;
    AllPlaced(s, tmp[..], pass, Radix);
    StartAll(s, pass);
    assert tmp[..post.Length] == tmp[..];
  }

  /** The body of the distribution loop. */
  method Distribute(post: array<postEntry>, tmp: array<postEntry>, sortN: array<nat>, pass: nat, k: nat,
                    ghost s: seq<postEntry>)
    requires post.Length == tmp.Length && post != tmp && k < post.Length
    requires sortN.Length == Radix && sortN != post && sortN != tmp && post[..] == s
    requires forall r :: 0 <= r < Radix ==> sortN[r] == Start(s, pass, r) + |Bucket(s[..k], pass, r)|
    requires PlacedAll(s, k, tmp[..], pass)
    modifies tmp, sortN
    ensures forall r :: 0 <= r < Radix ==> sortN[r] == Start(s, pass, r) + |Bucket(s[..k + 1], pass, r)|
    ensures PlacedAll(s, k + 1, tmp[..], pass)
  {
    hide Start, Bucket;
    var p := post[k];
    var d := Digit(p, pass);
    hide Digit, Placed;
    var o := sortN[d];
    ghost var t := tmp[..];
    forall r | 0 <= r < Radix
      ensures o < |t| && Placed(s, k + 1, t[o := p], pass, r)
      ensures |Bucket(s[..k + 1], pass, r)| == |Bucket(s[..k], pass, r)| + if r == d then 1 else 0
    {
      PlaceNext(s, k, t, pass, r);
      BucketStep(s, k, pass, r);
    }
    assert Placed(s, k + 1, t[o := p], pass, d);
    sortN[d] := sortN[d] + 1;
    tmp[o] := p;
    assert tmp[..] == t[o := p];
  }

  /** sortPost: two passes, the second one back into the original array. */
  method SortPost(post: array<postEntry>)
    modifies post
    ensures post[..] == RadixSorted(old(post[..]))
  {
    var tmp := new postEntry[post.Length];
    var sortN := new nat[Radix];
    CountingPass(post, tmp, sortN, 0);
    CountingPass(tmp, post, sortN, 1);
  }

  function RadixSorted(s: seq<postEntry>): seq<postEntry> {
    Buckets(Buckets(s, 0, Radix), 1, Radix)
  }

  // ---------------------------------------------------------------- the result is sorted

  lemma {:induction false} BucketContents(s: seq<postEntry>, pass: nat, r: nat)
    ensures forall p :: multiset(Bucket(s, pass, r))[p] == if Digit(p, pass) == r then multiset(s)[p] else 0
  {
    if s != [] {
      assert s == s[..|s| - 1] + [s[|s| - 1]];
      BucketContents(s[..|s| - 1], pass, r);
    }
  }

  lemma {:induction false} BucketsContents(s: seq<postEntry>, pass: nat, k: nat)
    ensures forall p :: multiset(Buckets(s, pass, k))[p] == if Digit(p, pass) < k then multiset(s)[p] else 0
  {
    hide Bucket, Digit;
    if k > 0 {
      BucketsContents(s, pass, k - 1);
      BucketContents(s, pass, k - 1);
    }
  }

  lemma PassPermutes(s: seq<postEntry>, pass: nat)
    ensures multiset(Buckets(s, pass, Radix)) == multiset(s)
  {
    BucketsContents(s, pass, Radix);
  }

  ghost predicate Pairwise(s: seq<postEntry>, a: (postEntry, postEntry) -> bool) {
    forall i, j :: 0 <= i < j < |s| ==> a(s[i], s[j])
  }

  lemma {:induction false} BucketPairwise(s: seq<postEntry>, pass: nat, r: nat, a: (postEntry, postEntry) -> bool)
    requires Pairwise(s, a)
    ensures Pairwise(Bucket(s, pass, r), a)
    ensures forall p :: p in Bucket(s, pass, r) ==> p in s && Digit(p, pass) == r
  {
    if s != [] {
      var n := |s| - 1;
      var b := Bucket(s[..n], pass, r);
      BucketPairwise(s[..n], pass, r, a);
      forall i | 0 <= i < |b|
        ensures a(b[i], s[n])
      {
        assert b[i] in s[..n];
        var j :| 0 <= j < n && s[j] == b[i];
      }
    }
  }

  /** Stability: a pass orders by its digit and keeps the earlier order among equal digits. */
  lemma {:induction false} BucketsPairwise(s: seq<postEntry>, pass: nat, k: nat, a: (postEntry, postEntry) -> bool)
    requires Pairwise(s, a)
    ensures Pairwise(Buckets(s, pass, k),
                     (x: postEntry, y: postEntry) =>
                       Digit(x, pass) < Digit(y, pass) || (Digit(x, pass) == Digit(y, pass) && a(x, y)))
    ensures forall p :: p in Buckets(s, pass, k) ==> p in s && Digit(p, pass) < k
  {
    if k > 0 {
      var bs, b := Buckets(s, pass, k - 1), Bucket(s, pass, k - 1);
      BucketsPairwise(s, pass, k - 1, a);
      BucketPairwise(s, pass, k - 1, a);
      forall i, j | 0 <= i < j < |bs + b|
        ensures var x, y := (bs + b)[i], (bs + b)[j];
                Digit(x, pass) < Digit(y, pass) || (Digit(x, pass) == Digit(y, pass) && a(x, y))
      {
        if i < |bs| <= j {
          assert bs[i] in bs && b[j - |bs|] in b;
        } else if |bs| <= i {
          assert b[i - |bs|] in b && b[j - |bs|] in b;
        }
      }
    }
  }

  lemma TwoDigits(p: postEntry)
    requires Trigram(p) < 0x100_0000
    ensures Trigram(p) == Digit(p, 1) * Radix + Digit(p, 0)
  {
  }

  /** sortPost permutes its input, and an input in file order without repeated pairs comes out strictly
      sorted by trigram and file. */
  lemma RadixSortedCorrect(s: seq<postEntry>)
    ensures multiset(RadixSorted(s)) == multiset(s)
    ensures (forall p :: p in s ==> Trigram(p) < 0x100_0000)
            && (forall i, j :: 0 <= i < j < |s| ==> FileId(s[i]) <= FileId(s[j]) && s[i] != s[j])
            ==> Increasing(RadixSorted(s))
  {
    PassPermutes(s, 0);
    PassPermutes(Buckets(s, 0, Radix), 1);
    if (forall p :: p in s ==> Trigram(p) < 0x100_0000)
       && (forall i, j :: 0 <= i < j < |s| ==> FileId(s[i]) <= FileId(s[j]) && s[i] != s[j])
    {
      RadixSortedIncreasing(s);
    }
  }

  lemma RadixSortedIncreasing(s: seq<postEntry>)
    requires forall p :: p in s ==> Trigram(p) < 0x100_0000
    requires forall i, j :: 0 <= i < j < |s| ==> FileId(s[i]) <= FileId(s[j]) && s[i] != s[j]
    ensures Increasing(RadixSorted(s))
  {
    var a := (x: postEntry, y: postEntry) => FileId(x) <= FileId(y) && x != y;
    assert Pairwise(s, a);
    var u := Buckets(s, 0, Radix);
    BucketsPairwise(s, 0, Radix, a);
    var b := (x: postEntry, y: postEntry) =>
      Digit(x, 0) < Digit(y, 0) || (Digit(x, 0) == Digit(y, 0) && a(x, y));
    assert Pairwise(u, b);
    BucketsPairwise(u, 1, Radix, b);
    var v := RadixSorted(s);
    forall i, j | 0 <= i < j < |v|
      ensures v[i] < v[j]
    {
      var x, y := v[i], v[j];
      assert x in v && y in v;
      assert x in u && y in u && x in s && y in s;
      assert Digit(x, 1) < Digit(y, 1) || (Digit(x, 1) == Digit(y, 1) && b(x, y));
      TwoDigits(x);
      TwoDigits(y);
      EntryOrder(x, y);
    }
  }
}
