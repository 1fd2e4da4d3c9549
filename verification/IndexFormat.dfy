/** The index file format (the comment that opens index/read.go), as byte strings. */
module IndexFormat {
  import opened Bytes
  import opened Varints
  import opened PostEntries

  // ---------------------------------------------------------------- numbers

  /** The `n` low bytes of `x`, most significant first. */
  function BigEndian(x: nat, n: nat): (b: Str)
    ensures |b| == n
  {
    if n == 0 then [] else BigEndian(x / 256, n - 1) + [x % 256]
  }

  function ReadBigEndian(b: Str): nat {
    if b == [] then 0
    else
      var high: nat := ReadBigEndian(b[..|b| - 1]);
      high * 256 + b[|b| - 1]
  }

  function Pow256(n: nat): nat {
    if n == 0 then 1 else 256 * Pow256(n - 1)
  }

  lemma {:induction false} BigEndianRoundTrip(x: nat, n: nat)
    requires x < Pow256(n)
    ensures ReadBigEndian(BigEndian(x, n)) == x
  {
    if n > 0 {
      BigEndianRoundTrip(x / 256, n - 1);
      assert BigEndian(x, n)[..n - 1] == BigEndian(x / 256, n - 1);
    }
  }

  lemma {:induction false} ReadBigEndianInjective(b: Str, c: Str)
    requires |b| == |c| && ReadBigEndian(b) == ReadBigEndian(c)
    ensures b == c
  {
    if b != [] {
      var n := |b| - 1;
      ReadBigEndianInjective(b[..n], c[..n]);
      assert b == b[..n] + [b[n]] && c == c[..n] + [c[n]];
    }
  }

  lemma {:induction false} ReadBigEndianBound(b: Str)
    ensures ReadBigEndian(b) < Pow256(|b|)
  {
    if b != [] {
      ReadBigEndianBound(b[..|b| - 1]);
    }
  }

  /** The four bytes of writeUint32. */
  function U32(x: nat): (b: Str)
    ensures |b| == 4
  {
    BigEndian(x, 4)
  }

  function ReadU32(b: Str): uint32
    requires |b| >= 4
  {
    ReadBigEndianBound(b[..4]);
    assert Pow256(2) == 0x1_0000 && Pow256(4) == 0x1_0000_0000;
    ReadBigEndian(b[..4])
  }

  lemma U32RoundTrip(x: uint32)
    ensures ReadU32(U32(x)) == x
  {
    assert Pow256(2) == 0x1_0000 && Pow256(4) == 0x1_0000_0000;
    BigEndianRoundTrip(x, 4);
    assert U32(x)[..4] == U32(x);
  }

  const AllOnes: nat := 0xFF_FFFF
  const NoId: uint32 := 0xFFFF_FFFF

  /** The three bytes of a trigram. */
  function Tri3(t: nat): (b: Str)
    ensures |b| == 3
  {
    BigEndian(t, 3)
  }

  function TriNum(b: Str): nat
    requires |b| >= 3
  {
    ReadBigEndian(b[..3])
  }

  lemma TriRoundTrip(t: nat)
    requires t <= AllOnes
    ensures TriNum(Tri3(t)) == t
  {
    assert Pow256(2) == 0x1_0000 && Pow256(3) == 0x100_0000;
    BigEndianRoundTrip(t, 3);
    assert Tri3(t)[..3] == Tri3(t);
  }

  lemma TriNumInjective(b: Str, c: Str)
    requires |b| == |c| == 3 && TriNum(b) == TriNum(c)
    ensures b == c
  {
    ReadBigEndianInjective(b[..3], c[..3]);
    assert b[..3] == b && c[..3] == c;
  }

  // ---------------------------------------------------------------- posting lists

  /** The wrap-around difference that writeUvarint stores. */
  function Delta(last: uint32, id: uint32): uint32 {
    (id - last) % TwoTo32
  }

  function Deltas(last: uint32, ids: seq<uint32>): Str
    decreases ids
  {
    if ids == [] then [] else WriteUvarint(Delta(last, ids[0])) + Deltas(ids[0], ids[1..])
  }

  function LastId(last: uint32, ids: seq<uint32>): uint32 {
    if ids == [] then last else ids[|ids| - 1]
  }

  lemma {:induction false} DeltasAppend(last: uint32, ids: seq<uint32>, id: uint32)
    ensures Deltas(last, ids + [id]) == Deltas(last, ids) + WriteUvarint(Delta(LastId(last, ids), id))
    decreases ids
  {
    if ids == [] {
      assert ids + [id] == [id];
      assert [id][1..] == [];
    } else {
      assert (ids + [id])[1..] == ids[1..] + [id];
      DeltasAppend(ids[0], ids[1..], id);
    }
  }

  datatype Posting = Posting(trigram: nat, ids: seq<uint32>)

  function PostingBytes(p: Posting): Str {
    Tri3(p.trigram) + (Deltas(NoId, p.ids) + [0])
  }

  function PostingParts(ps: seq<Posting>): (parts: seq<Str>)
    ensures |parts| == |ps|
  {
    seq(|ps|, k requires 0 <= k < |ps| => PostingBytes(ps[k]))
  }

  /** The section of posting lists. */
  function PostingData(ps: seq<Posting>): Str {
    Joined(PostingParts(ps))
  }

  function EntryBytes(p: Posting, offset: nat): (b: Str)
    ensures |b| == 11
  {
    Tri3(p.trigram) + U32(|p.ids|) + U32(offset)
  }

  /** The entry of list `k`: its offset is the length of the lists before it. */
  function EntryPart(ps: seq<Posting>, k: nat): (b: Str)
    requires k < |ps|
    ensures |b| == 11
  {
    EntryBytes(ps[k], |PostingData(ps[..k])|)
  }

  function EntryParts(ps: seq<Posting>): (parts: seq<Str>)
    ensures |parts| == |ps|
  {
    seq(|ps|, k requires 0 <= k < |ps| => EntryPart(ps, k))
  }

  /** The posting list index. */
  function EntryData(ps: seq<Posting>): Str {
    Joined(EntryParts(ps))
  }

  lemma PostingsAppend(ps: seq<Posting>, p: Posting)
    ensures PostingData(ps + [p]) == PostingData(ps) + PostingBytes(p)
    ensures EntryData(ps + [p]) == EntryData(ps) + EntryBytes(p, |PostingData(ps)|)
  {
    assert PostingParts(ps + [p]) == PostingParts(ps) + [PostingBytes(p)];
    JoinedAppend(PostingParts(ps), PostingBytes(p));
    EntryPartsAppend(ps, p);
    JoinedAppend(EntryParts(ps), EntryBytes(p, |PostingData(ps)|));
  }

  lemma EntryPartStable(ps: seq<Posting>, p: Posting, k: nat)
    requires k <= |ps|
    ensures EntryPart(ps + [p], k) == if k < |ps| then EntryPart(ps, k) else EntryBytes(p, |PostingData(ps)|)
  {
    assert (ps + [p])[..k] == ps[..k];
    if k == |ps| {
      assert ps[..k] == ps;
    }
  }

  lemma EntryPartsAppend(ps: seq<Posting>, p: Posting)
    ensures EntryParts(ps + [p]) == EntryParts(ps) + [EntryBytes(p, |PostingData(ps)|)]
  {
    forall k | 0 <= k <= |ps|
      ensures EntryPart(ps + [p], k) == if k < |ps| then EntryPart(ps, k) else EntryBytes(p, |PostingData(ps)|)
    {
      EntryPartStable(ps, p, k);
    }
  }

  /** Lists in strict trigram order, each a strictly increasing list of ids below `numName`. */
  ghost predicate ValidPostings(ps: seq<Posting>, numName: nat) {
    (forall i, j :: 0 <= i < j < |ps| ==> ps[i].trigram < ps[j].trigram)
    && forall p :: p in ps ==> p.trigram <= AllOnes && ValidIds(p.ids, numName)
  }

  ghost predicate ValidIds(ids: seq<uint32>, numName: nat) {
    Increasing(ids) && |ids| <= numName && forall id :: id in ids ==> id < numName
  }

  /** The ids recorded for trigram `t`. */
  function Lookup(ps: seq<Posting>, t: nat): seq<uint32> {
    if ps == [] then []
    else if ps[|ps| - 1].trigram == t then ps[|ps| - 1].ids
    else Lookup(ps[..|ps| - 1], t)
  }

  lemma {:induction false} LookupAt(ps: seq<Posting>, k: nat)
    requires k < |ps| && forall i, j :: 0 <= i < j < |ps| ==> ps[i].trigram < ps[j].trigram
    ensures Lookup(ps, ps[k].trigram) == ps[k].ids
  {
    if k < |ps| - 1 {
      LookupAt(ps[..|ps| - 1], k);
    }
  }

  lemma {:induction false} LookupNone(ps: seq<Posting>, t: nat)
    requires forall p :: p in ps ==> p.trigram != t
    ensures Lookup(ps, t) == []
  {
    if ps != [] {
      assert ps[|ps| - 1] in ps;
      LookupNone(ps[..|ps| - 1], t);
    }
  }

  lemma {:induction false} LookupValid(ps: seq<Posting>, t: nat, numName: nat)
    requires ValidPostings(ps, numName)
    ensures ValidIds(Lookup(ps, t), numName)
  {
    if ps != [] {
      assert ps[|ps| - 1] in ps;
      LookupValid(ps[..|ps| - 1], t, numName);
    }
  }

  lemma PostingAt(ps: seq<Posting>, k: nat)
    requires k < |ps|
    ensures OccursAt(PostingData(ps), |PostingData(ps[..k])|, PostingBytes(ps[k]))
  {
    JoinedAt(PostingParts(ps), k);
    assert PostingParts(ps)[..k] == PostingParts(ps[..k]);
  }

  lemma EntryAt(ps: seq<Posting>, k: nat)
    requires k < |ps|
    ensures OccursAt(EntryData(ps), 11 * k, EntryPart(ps, k))
  {
    var parts := EntryParts(ps);
    JoinedAt(parts, k);
    JoinedWidth(parts[..k], 11);
  }

  // ---------------------------------------------------------------- names and paths

  function TerminatedParts(names: seq<Str>): (parts: seq<Str>)
    ensures |parts| == |names|
  {
    seq(|names|, k requires 0 <= k < |names| => names[k] + [0])
  }

  /** NUL-terminated strings one after the other. */
  function Terminated(names: seq<Str>): Str {
    Joined(TerminatedParts(names))
  }

  function OffsetPart(names: seq<Str>, k: nat): (b: Str)
    requires k <= |names|
    ensures |b| == 4
  {
    U32(|Terminated(names[..k])|)
  }

  function OffsetParts(names: seq<Str>): (parts: seq<Str>)
    ensures |parts| == |names|
  {
    seq(|names|, k requires 0 <= k < |names| => OffsetPart(names, k))
  }

  /** The offset of each string. */
  function NameOffsets(names: seq<Str>): (b: Str)
  {
    Joined(OffsetParts(names))
  }

  lemma OffsetPartStable(names: seq<Str>, name: Str, k: nat)
    requires k <= |names|
    ensures OffsetPart(names + [name], k) == OffsetPart(names, k)
  {
    assert (names + [name])[..k] == names[..k];
  }

  lemma NamesAppend(names: seq<Str>, name: Str)
    ensures Terminated(names + [name]) == Terminated(names) + (name + [0])
    ensures NameOffsets(names + [name]) == NameOffsets(names) + U32(|Terminated(names)|)
  {
    assert TerminatedParts(names + [name]) == TerminatedParts(names) + [name + [0]];
    JoinedAppend(TerminatedParts(names), name + [0]);
    forall k | 0 <= k <= |names|
      ensures OffsetPart(names + [name], k) == OffsetPart(names, k)
    {
      OffsetPartStable(names, name, k);
    }
    assert OffsetParts(names + [name]) == OffsetParts(names) + [OffsetPart(names, |names|)];
    JoinedAppend(OffsetParts(names), OffsetPart(names, |names|));
    assert names[..|names|] == names;
  }

  lemma NameAt(names: seq<Str>, k: nat)
    requires k < |names|
    ensures OccursAt(Terminated(names), |Terminated(names[..k])|, names[k] + [0])
  {
    JoinedAt(TerminatedParts(names), k);
    assert TerminatedParts(names)[..k] == TerminatedParts(names[..k]);
  }

  lemma NameOffsetAt(names: seq<Str>, k: nat)
    requires k < |names|
    ensures OccursAt(NameOffsets(names), 4 * k, OffsetPart(names, k))
  {
    var parts := OffsetParts(names);
    JoinedAt(parts, k);
    JoinedWidth(parts[..k], 4);
  }

  // ---------------------------------------------------------------- the file

  const Magic: Str := [0x63, 0x73, 0x65, 0x61, 0x72, 0x63, 0x68, 0x20, 0x69, 0x6E, 0x64, 0x65, 0x78, 0x20, 0x31, 0x0A]
  const TrailerMagic: Str :=
    [0x0A, 0x63, 0x73, 0x65, 0x61, 0x72, 0x63, 0x68, 0x20, 0x74, 0x72, 0x61, 0x69, 0x6C, 0x72, 0x0A]

  /** The five sections between the two magic strings. */
  datatype Sections = Sections(paths: Str, names: Str, posts: Str, nameIndex: Str, postIndex: Str)

  function FileParts(s: Sections): seq<Str> {
    var path := |Magic|;
    var name := path + |s.paths|;
    var post := name + |s.names|;
    var nameIndex := post + |s.posts|;
    var postIndex := nameIndex + |s.nameIndex|;
    [Magic, s.paths, s.names, s.posts, s.nameIndex, s.postIndex,
     U32(path), U32(name), U32(post), U32(nameIndex), U32(postIndex), TrailerMagic]
  }

  function FileBytes(s: Sections): Str {
    Joined(FileParts(s))
  }

  /** An opened index. */
  datatype Index = Index(
    data: Str,
    pathData: uint32,
    nameData: uint32,
    postData: uint32,
    nameIndex: uint32,
    postIndex: uint32,
    numName: int,
    numPost: nat)

  /** What an index file holds. */
  datatype View = View(paths: seq<Str>, names: seq<Str>, postings: seq<Posting>)

  /** A view that the format can hold: paths and names without NUL, no empty path, valid lists. */
  ghost predicate ValidView(v: View) {
    && (forall p :: p in v.paths ==> p != [] && 0 !in p)
    && (forall n :: n in v.names ==> 0 !in n)
    && |v.names| < NoId
    && ValidPostings(v.postings, |v.names|)
  }

  /** `ix` is an index file of less than 4 GB that holds `v`. */
  ghost predicate Represents(ix: Index, v: View) {
    && |ix.data| < TwoTo32
    && ix.numName == |v.names| && ix.numPost == |v.postings|
    && OccursAt(ix.data, ix.pathData, Terminated(v.paths) + [0])
    && OccursAt(ix.data, ix.nameData, Terminated(v.names))
    && OccursAt(ix.data, ix.nameIndex, NameOffsets(v.names))
    && OccursAt(ix.data, ix.postData, PostingData(v.postings))
    && OccursAt(ix.data, ix.postIndex, EntryData(v.postings))
    && ValidView(v)
  }
}
