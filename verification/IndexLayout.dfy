/** The index file byte by byte (the comment that opens index/read.go), apart from the functions that write and read it. */
module IndexLayout {
  import opened Bytes
  import opened Varints
  import opened IndexFormat
  import opened IndexWriters
  import opened Merge

  // ---------------------------------------------------------------- numbers

  /** Numbers of four bytes have the most significant one first. */
  lemma NumberBytes(x: uint32)
    ensures U32(x) == [x / 0x100_0000, x / 0x1_0000 % 256, x / 0x100 % 256, x % 256]
  {
    var a, b, c := x / 256, x / 256 / 256, x / 256 / 256 / 256;
    assert BigEndian(c, 1) == BigEndian(c / 256, 0) + [c % 256];
    assert BigEndian(b, 2) == BigEndian(c, 1) + [b % 256];
    assert BigEndian(a, 3) == BigEndian(b, 2) + [a % 256];
    assert BigEndian(x, 4) == BigEndian(a, 3) + [x % 256];
    assert b == x / 0x1_0000 && c == x / 0x100_0000 && c < 256;
  }

  /** A trigram is written as its own three bytes. */
  lemma TrigramBytes(t: Str)
    requires |t| == 3
    ensures TriNum(t) == t[0] as int * 0x1_0000 + t[1] as int * 0x100 + t[2] as int
    ensures Tri3(TriNum(t)) == t
  {
    assert t[..3] == t && t[..3][..2] == t[..2] && t[..2][..1] == t[..1] && t[..1][..0] == [];
    assert ReadBigEndian(t[..1]) == t[0];
    assert ReadBigEndian(t[..2]) == ReadBigEndian(t[..1]) * 256 + t[1];
    var n := TriNum(t);
    assert n / 256 == ReadBigEndian(t[..2]) && n % 256 == t[2];
    assert n / 256 / 256 == t[0] && n / 256 % 256 == t[1];
    assert BigEndian(n / 256 / 256, 1) == BigEndian(0, 0) + [t[0]];
    assert BigEndian(n / 256, 2) == BigEndian(n / 256 / 256, 1) + [t[1]];
    assert BigEndian(n, 3) == BigEndian(n / 256, 2) + [t[2]];
  }

  /** The number that seven bits a byte spell, low bits first. */
  function SevenBits(b: Str): nat {
    if b == [] then 0 else b[0] as int % 128 + 128 * SevenBits(b[1..])
  }

  /** Variable-length numbers: seven bits a byte, low bits first, the top bit set on all bytes but the last, and no byte
      more than needed. */
  lemma {:induction false} VarintBytes(x: nat)
    ensures var b := PutUvarint(x);
            SevenBits(b) == x && b[|b| - 1] < 128 && (forall i :: 0 <= i < |b| - 1 ==> b[i] >= 128)
            && (|b| > 1 ==> b[|b| - 1] > 0)
    decreases x
  {
    if x >= 128 {
      VarintBytes(x / 128);
      var b := PutUvarint(x);
      assert b[1..] == PutUvarint(x / 128);
      assert forall i :: 0 < i < |b| ==> b[i] == b[1..][i - 1];
    }
  }

  // ---------------------------------------------------------------- lists and entries

  /** Ids are written as differences: the first one from -1, each later one from the id before it. */
  lemma DifferenceBytes(last: uint32, id: uint32, ids: seq<uint32>)
    ensures Deltas(last, []) == []
    ensures id < NoId ==> Deltas(NoId, [id] + ids) == PutUvarint(id + 1) + Deltas(id, ids)
    ensures last < id ==> Deltas(last, [id] + ids) == PutUvarint(id - last) + Deltas(id, ids)
  {
    hide WriteUvarint, PutUvarint;
    assert ([id] + ids)[1..] == ids;
    if id < NoId {
      assert Delta(NoId, id) == id + 1;
      WriteIsPut(id + 1);
    }
    if last < id {
      assert Delta(last, id) == id - last;
      WriteIsPut(id - last);
    }
  }

  /** A list is its trigram, the differences, and a zero; its entry is the trigram, the number of ids, and where the list
      starts among the lists. */
  lemma ListBytes(ps: seq<Posting>, p: Posting)
    ensures PostingData([]) == [] && EntryData([]) == []
    ensures PostingData(ps + [p]) == PostingData(ps) + Tri3(p.trigram) + Deltas(NoId, p.ids) + [0]
    ensures EntryData(ps + [p]) == EntryData(ps) + Tri3(p.trigram) + U32(|p.ids|) + U32(|PostingData(ps)|)
  {
    PostingsAppend(ps, p);
    hide Tri3, U32, Deltas;
  }

  lemma NameBytes(names: seq<Str>, name: Str)
    ensures Terminated([]) == [] && NameOffsets([]) == []
    ensures Terminated(names + [name]) == Terminated(names) + name + [0]
    ensures NameOffsets(names + [name]) == NameOffsets(names) + U32(|Terminated(names)|)
  {
    NamesAppend(names, name);
    hide U32;
  }

  // ---------------------------------------------------------------- the file

  predicate Spelt(b: Str, s: string) {
    |b| == |s| && forall i :: 0 <= i < |s| ==> b[i] as int == s[i] as int
  }

  lemma MagicStrings()
    ensures Spelt(Magic, "csearch index 1\n") && Spelt(TrailerMagic, "\ncsearch trailr\n")
  {
  }

  /** A flushed file: the paths and an empty one, the names and an empty one, the lists, an offset for each name and for
      the empty one, the entries, the offsets of these five sections, all between the magic strings. */
  lemma FlushedInOrder(paths: seq<Str>, names: seq<Str>, ps: seq<Posting>)
    ensures var a, b, c := Terminated(paths) + [0], Terminated(names) + [0], PostingData(ps);
            var d, e := NameOffsets(names) + U32(|Terminated(names)|), EntryData(ps);
            FileBytes(WrittenSections(paths, names, ps)) ==
            Magic + a + b + c + d + e
            + (U32(|Magic|) + U32(|Magic + a|) + U32(|Magic + a + b|) + U32(|Magic + a + b + c|)
               + U32(|Magic + a + b + c + d|))
            + TrailerMagic
  {
    FileInOrder(WrittenSections(paths, names, ps));
    NamesAppend(names, []);
    hide U32, FileBytes, Terminated, NameOffsets, PostingData, EntryData;
    assert Terminated(names) + ([] + [0]) == Terminated(names) + [0];
  }
}
