/** Reading an index file (index/read.go): sections, names and single posting lists. `corrupt` is
    never reached on a file that represents an index: each place that would call it asserts so. */
module IndexReader {
  import opened Bytes
  import opened Varints
  import opened PostEntries
  import opened IndexFormat

  // ---------------------------------------------------------------- Open

  /** Offset `j` of the trailer. */
  function TrailerField(file: Str, j: nat): uint32
    requires |file| >= 36 && j < 5
  {
    ReadU32(file[|file| - 36 + 4 * j..])
  }

  /** Open; None where the source calls corrupt or slices out of range. */
  function Open(file: Str): Option<Index> {
    if |file| < 4 * 4 + |TrailerMagic| || !HasSuffix(file, TrailerMagic) then None
    else if |file| < 5 * 4 + |TrailerMagic| then None
    else
      var n := |file| - 36;
      var nameIndex, postIndex := TrailerField(file, 3), TrailerField(file, 4);
      Some(Index(file, TrailerField(file, 0), TrailerField(file, 1), TrailerField(file, 2), nameIndex, postIndex,
                 (postIndex - nameIndex) % TwoTo32 / 4 - 1, (n - postIndex) % TwoTo32 / 11))
  }

  lemma ReadOffset(file: Str, at: nat, x: uint32)
    requires OccursAt(file, at, U32(x))
    ensures at + 4 <= |file| && ReadU32(file[at..]) == x
  {
    U32RoundTrip(x);
    assert file[at..][..4] == file[at..at + 4] == U32(x) == U32(x)[..4];
  }

  /** Where part `k` of a list of parts starts. */
  function PartOffset(parts: seq<Str>, k: nat): nat
    requires k <= |parts|
  {
    if k == 0 then 0 else PartOffset(parts, k - 1) + |parts[k - 1]|
  }

  lemma {:induction false} PartAt(parts: seq<Str>, k: nat)
    requires k <= |parts|
    ensures PartOffset(parts, k) == |Joined(parts[..k])|
    ensures k < |parts| ==> OccursAt(Joined(parts), PartOffset(parts, k), parts[k])
  {
    if k > 0 {
      PartAt(parts, k - 1);
      JoinedTake(parts, k - 1);
    }
    if k < |parts| {
      JoinedAt(parts, k);
    }
  }

  /** Where the parts of an index file start. */
  lemma FileOffsets(s: Sections)
    ensures var p := FileParts(s);
            var postIndex := 16 + |s.paths| + |s.names| + |s.posts| + |s.nameIndex|;
            var n := postIndex + |s.postIndex|;
            PartOffset(p, 1) == 16 && PartOffset(p, 2) == 16 + |s.paths|
            && PartOffset(p, 3) == 16 + |s.paths| + |s.names|
            && PartOffset(p, 4) == 16 + |s.paths| + |s.names| + |s.posts|
            && PartOffset(p, 5) == postIndex && PartOffset(p, 6) == n && PartOffset(p, 7) == n + 4
            && PartOffset(p, 8) == n + 8 && PartOffset(p, 9) == n + 12 && PartOffset(p, 10) == n + 16
            && PartOffset(p, 11) == n + 20 && PartOffset(p, 12) == n + 36
  {
    var p := FileParts(s);
    assert PartOffset(p, 1) == PartOffset(p, 0) + |p[0]|;
    assert PartOffset(p, 2) == PartOffset(p, 1) + |p[1]|;
    assert PartOffset(p, 3) == PartOffset(p, 2) + |p[2]|;
    assert PartOffset(p, 4) == PartOffset(p, 3) + |p[3]|;
    assert PartOffset(p, 5) == PartOffset(p, 4) + |p[4]|;
    assert PartOffset(p, 6) == PartOffset(p, 5) + |p[5]|;
    assert PartOffset(p, 7) == PartOffset(p, 6) + |p[6]|;
    assert PartOffset(p, 8) == PartOffset(p, 7) + |p[7]|;
    assert PartOffset(p, 9) == PartOffset(p, 8) + |p[8]|;
    assert PartOffset(p, 10) == PartOffset(p, 9) + |p[9]|;
    assert PartOffset(p, 11) == PartOffset(p, 10) + |p[10]|;
    assert PartOffset(p, 12) == PartOffset(p, 11) + |p[11]|;
  }

  lemma FilePart(s: Sections, k: nat)
    requires k < 12
    ensures OccursAt(FileBytes(s), PartOffset(FileParts(s), k), FileParts(s)[k])
    ensures |FileBytes(s)| == PartOffset(FileParts(s), 12)
  {
    PartAt(FileParts(s), k);
    PartAt(FileParts(s), 12);
    assert FileParts(s)[..12] == FileParts(s);
  }

  lemma OffsetPiece(s: Sections, j: nat)
    requires j < 5
    ensures FileParts(s)[j + 6] == U32(PartOffset(FileParts(s), j + 1))
    ensures PartOffset(FileParts(s), 12) == PartOffset(FileParts(s), 6) + 36
    ensures PartOffset(FileParts(s), j + 6) == PartOffset(FileParts(s), 6) + 4 * j
    ensures PartOffset(FileParts(s), j + 1) <= PartOffset(FileParts(s), 12)
  {
    FileOffsets(s);
  }

  /** One of the five offsets of the trailer, read back. */
  lemma TrailerOffset(s: Sections, j: nat)
    requires j < 5 && |FileBytes(s)| < TwoTo32
    ensures |FileBytes(s)| >= 36 && TrailerField(FileBytes(s), j) == PartOffset(FileParts(s), j + 1)
  {
    FilePart(s, j + 6);
    OffsetPiece(s, j);
    ReadOffset(FileBytes(s), |FileBytes(s)| - 36 + 4 * j, PartOffset(FileParts(s), j + 1));
  }

  lemma HasTrailer(s: Sections)
    ensures |FileBytes(s)| >= 36 && HasSuffix(FileBytes(s), TrailerMagic)
  {
    FileOffsets(s);
    FilePart(s, 11);
  }

  /** The fields that Open finds in a written file. */
  lemma OpenFields(s: Sections, k: nat, m: nat)
    requires |FileBytes(s)| < TwoTo32
    requires |s.nameIndex| == 4 * (k + 1) && |s.postIndex| == 11 * m
    ensures var ix := Open(FileBytes(s));
            var p := FileParts(s);
            ix.Some? && ix.value.data == FileBytes(s) && ix.value.numName == k && ix.value.numPost == m
            && ix.value.pathData == PartOffset(p, 1) && ix.value.nameData == PartOffset(p, 2)
            && ix.value.postData == PartOffset(p, 3) && ix.value.nameIndex == PartOffset(p, 4)
            && ix.value.postIndex == PartOffset(p, 5)
  {
    HasTrailer(s);
    TrailerOffset(s, 0);
    TrailerOffset(s, 1);
    TrailerOffset(s, 2);
    TrailerOffset(s, 3);
    TrailerOffset(s, 4);
    FileOffsets(s);
    FilePart(s, 11);
    OpenTrailer(FileBytes(s), k, m);
  }

  lemma OpenTrailer(f: Str, k: nat, m: nat)
    requires 36 <= |f| < TwoTo32 && HasSuffix(f, TrailerMagic)
    requires TrailerField(f, 4) == TrailerField(f, 3) + 4 * (k + 1)
    requires |f| == TrailerField(f, 4) + 11 * m + 36
    ensures Open(f) == Some(Index(f, TrailerField(f, 0), TrailerField(f, 1), TrailerField(f, 2),
                                  TrailerField(f, 3), TrailerField(f, 4), k, m))
  {
  }

  /** Opening a written file finds its sections again. */
  lemma OpenFile(s: Sections, k: nat, m: nat)
    requires |FileBytes(s)| < TwoTo32
    requires |s.nameIndex| == 4 * (k + 1) && |s.postIndex| == 11 * m
    ensures var f := FileBytes(s);
            var ix := Open(f);
            ix.Some? && ix.value.data == f && ix.value.numName == k && ix.value.numPost == m
            && OccursAt(f, ix.value.pathData, s.paths) && OccursAt(f, ix.value.nameData, s.names)
            && OccursAt(f, ix.value.postData, s.posts) && OccursAt(f, ix.value.nameIndex, s.nameIndex)
            && OccursAt(f, ix.value.postIndex, s.postIndex)
  {
    OpenFields(s, k, m);
    FilePart(s, 1);
    FilePart(s, 2);
    FilePart(s, 3);
    FilePart(s, 4);
    FilePart(s, 5);
  }

  // ---------------------------------------------------------------- names and paths

  /** str: the bytes up to the first NUL. */
  method ReadStr(data: Str, off: nat, ghost s: Str) returns (r: Str)
    requires OccursAt(data, off, s + [0]) && 0 !in s
    ensures r == s
  {
    var i := off;
    while data[i] != 0
      invariant off <= i <= off + |s| && off + |s| < |data|
      invariant data[off..i] == s[..i - off]
      decreases |data| - i
    {
      assert data[i] == (s + [0])[i - off];
      i := i + 1;
    }
    assert data[i] == (s + [0])[i - off];
    r := data[off..i];
  }

  /** The offset table and the name it points to. */
  lemma NameIn(data: Str, nameData: nat, nameIndex: nat, names: seq<Str>, k: nat)
    requires OccursAt(data, nameData, Terminated(names)) && OccursAt(data, nameIndex, NameOffsets(names))
    requires |data| < TwoTo32 && k < |names|
    ensures nameIndex + 4 * k + 4 <= |data|
    ensures OccursAt(data, nameData + ReadU32(data[nameIndex + 4 * k..]), names[k] + [0])
  {
    var o := |Terminated(names[..k])|;
    NameAt(names, k);
    NameOffsetAt(names, k);
    OccursWithin(data, nameIndex, NameOffsets(names), 4 * k, OffsetPart(names, k));
    OccursWithin(data, nameData, Terminated(names), o, names[k] + [0]);
    ReadOffset(data, nameIndex + 4 * k, o);
  }

  /** Name. */
  method Name(ix: Index, fileid: nat, ghost v: View) returns (name: Str)
    requires Represents(ix, v) && fileid < |v.names|
    ensures name == v.names[fileid]
  {
    hide EntryData, PostingData, Terminated, NameOffsets, OccursAt, ReadU32, ValidPostings;
    NameIn(ix.data, ix.nameData, ix.nameIndex, v.names, fileid);
    var off := ReadU32(ix.data[ix.nameIndex + 4 * fileid..]);
    name := ReadStr(ix.data, ix.nameData + off, v.names[fileid]);
  }

  /** Paths. */
  method Paths(ix: Index, ghost v: View) returns (x: seq<Str>)
    requires Represents(ix, v)
    ensures x == v.paths
  {
    x := ReadPaths(ix.data, ix.pathData, v.paths);
  }

  method ReadPaths(data: Str, pathData: nat, ghost paths: seq<Str>) returns (x: seq<Str>)
    requires OccursAt(data, pathData, Terminated(paths) + [0])
    requires forall p :: p in paths ==> p != [] && 0 !in p
    ensures x == paths
  {
    x := [];
    var off := pathData;
    while true
      invariant |x| <= |paths| && x == paths[..|x|]
      invariant off == pathData + |Terminated(x)|
      decreases |paths| - |x|
    {
      ghost var s := if |x| < |paths| then paths[|x|] else [];
      PathAt(data, pathData, paths, |x|);
      assert |x| < |paths| ==> s in paths;
      assert OccursAt(data, off, s + [0]);
      var p := ReadStr(data, off, s);
      if |p| == 0 {
        break;
      }
      NamesAppend(x, p);
      assert paths[..|x| + 1] == x + [p];
      x := x + [p];
      off := off + |p| + 1;
    }
  }

  /** Path `k` starts behind the ones before it, and the list ends with an empty one. */
  lemma PathAt(data: Str, pathData: nat, paths: seq<Str>, k: nat)
    requires OccursAt(data, pathData, Terminated(paths) + [0]) && k <= |paths|
    ensures OccursAt(data, pathData + |Terminated(paths[..k])|,
                     (if k < |paths| then paths[k] else []) + [0])
  {
    var all := Terminated(paths) + [0];
    if k < |paths| {
      NameAt(paths, k);
      OccursInFront(Terminated(paths), [0], |Terminated(paths[..k])|, paths[k] + [0]);
      OccursWithin(data, pathData, all, |Terminated(paths[..k])|, paths[k] + [0]);
    } else {
      assert paths[..k] == paths;
      OccursAtEnd(Terminated(paths), [0], []);
      OccursWithin(data, pathData, all, |Terminated(paths)|, [0]);
    }
  }

  // ---------------------------------------------------------------- findList

  lemma EntryPieces(p: Posting, offset: nat)
    ensures var e := EntryBytes(p, offset);
            OccursAt(e, 0, Tri3(p.trigram)) && OccursAt(e, 3, U32(|p.ids|)) && OccursAt(e, 7, U32(offset))
  {
    var t, u, v := Tri3(p.trigram), U32(|p.ids|), U32(offset);
    OccursAtEnd([], t, u);
    OccursAtEnd(t, u, []);
    OccursAtEnd(t + u, v, []);
    assert [] + (t + u) == t + u;
    OccursInFront(t + u, v, 0, t);
    OccursInFront(t + u, v, 3, u);
  }

  /** Reading the fields of an entry. */
  lemma EntryFields(data: Str, o: nat, p: Posting, offset: uint32)
    requires OccursAt(data, o, EntryBytes(p, offset)) && p.trigram <= AllOnes && |p.ids| < TwoTo32
    ensures o + 11 <= |data| && TriNum(data[o..]) == p.trigram
            && ReadU32(data[o + 3..]) == |p.ids| && ReadU32(data[o + 7..]) == offset
  {
    var e := EntryBytes(p, offset);
    EntryPieces(p, offset);
    OccursWithin(data, o, e, 0, Tri3(p.trigram));
    OccursWithin(data, o, e, 3, U32(|p.ids|));
    OccursWithin(data, o, e, 7, U32(offset));
    ReadOffset(data, o + 3, |p.ids|);
    ReadOffset(data, o + 7, offset);
    ReadTrigram(data, o, p.trigram);
  }

  lemma ReadTrigram(data: Str, o: nat, t: nat)
    requires OccursAt(data, o, Tri3(t)) && t <= AllOnes
    ensures o + 3 <= |data| && TriNum(data[o..]) == t
  {
    TriRoundTrip(t);
    assert data[o..][..3] == data[o..o + 3] == Tri3(t) == Tri3(t)[..3];
  }

  /** Reading entry `k` of the posting list index. */
  lemma EntryIn(data: Str, postIndex: nat, ps: seq<Posting>, k: nat)
    requires OccursAt(data, postIndex, EntryData(ps)) && k < |ps|
    requires ps[k].trigram <= AllOnes && |ps[k].ids| < TwoTo32 && |PostingData(ps)| < TwoTo32
    ensures var o := postIndex + 11 * k;
            o + 11 <= |data| && TriNum(data[o..]) == ps[k].trigram
            && ReadU32(data[o + 3..]) == |ps[k].ids|
            && ReadU32(data[o + 7..]) == |PostingData(ps[..k])|
  {
    hide EntryData, PostingData, U32, Tri3;
    EntryAt(ps, k);
    PostingAt(ps, k);
    OccursWithin(data, postIndex, EntryData(ps), 11 * k, EntryPart(ps, k));
    EntryFields(data, postIndex + 11 * k, ps[k], |PostingData(ps[..k])|);
  }

  predicate HasEntry(ix: Index, k: nat) {
    ix.postIndex + 11 * k + 11 <= |ix.data|
  }

  function EntryTrigram(ix: Index, k: nat): nat
    requires HasEntry(ix, k)
  {
    TriNum(ix.data[ix.postIndex + 11 * k..])
  }

  function EntryCount(ix: Index, k: nat): nat
    requires HasEntry(ix, k)
  {
    ReadU32(ix.data[ix.postIndex + 11 * k + 3..])
  }

  function EntryOffset(ix: Index, k: nat): nat
    requires HasEntry(ix, k)
  {
    ReadU32(ix.data[ix.postIndex + 11 * k + 7..])
  }

  /** listAt: the fields of entry `k` are those of list `k`. */
  lemma ListAt(ix: Index, v: View, k: nat)
    requires Represents(ix, v) && k < |v.postings|
    ensures HasEntry(ix, k) && EntryTrigram(ix, k) == v.postings[k].trigram
    ensures EntryCount(ix, k) == |v.postings[k].ids| && EntryOffset(ix, k) == |PostingData(v.postings[..k])|
  {
    hide EntryData, PostingData, Terminated, NameOffsets, TriNum, ReadU32, Increasing;
    assert v.postings[k] in v.postings;
    EntryIn(ix.data, ix.postIndex, v.postings, k);
  }

  /** findList: binary search (sort.Search) over the posting list index. */
  method FindList(ix: Index, trigram: nat, ghost v: View) returns (count: nat, offset: nat, ghost k: nat)
    requires Represents(ix, v)
    ensures count == |Lookup(v.postings, trigram)|
    ensures count > 0 ==> k < |v.postings| && v.postings[k].trigram == trigram
                          && v.postings[k].ids == Lookup(v.postings, trigram)
                          && offset == |PostingData(v.postings[..k])|
  {
    hide HasEntry, EntryTrigram, EntryCount, EntryOffset;
    ghost var ps := v.postings;
    forall h | 0 <= h < |ps|
      ensures HasEntry(ix, h) && EntryTrigram(ix, h) == ps[h].trigram
    {
      ListAt(ix, v, h);
    }
    var i := SearchList(ix, trigram, ps);
    k := i;
    if i >= ix.numPost {
      LookupNone(ps, trigram);
      return 0, 0, 0;
    }
    ListAt(ix, v, i);
    if EntryTrigram(ix, i) != trigram {
      LookupNone(ps, trigram);
      return 0, 0, 0;
    }
    LookupAt(ps, i);
    return EntryCount(ix, i), EntryOffset(ix, i), i;
  }

  /** The least entry whose trigram is not below `trigram`. */
  method SearchList(ix: Index, trigram: nat, ghost ps: seq<Posting>) returns (i: nat)
    requires |ps| == ix.numPost
    requires forall h :: 0 <= h < |ps| ==> HasEntry(ix, h) && EntryTrigram(ix, h) == ps[h].trigram
    requires forall g, h :: 0 <= g < h < |ps| ==> ps[g].trigram < ps[h].trigram
    ensures i <= |ps|
    ensures forall h :: 0 <= h < i ==> ps[h].trigram < trigram
    ensures forall h :: i <= h < |ps| ==> trigram <= ps[h].trigram
  {
    i := 0;
    var j := ix.numPost;
    while i < j
      invariant 0 <= i <= j <= |ps|
      invariant forall h :: 0 <= h < i ==> ps[h].trigram < trigram
      invariant forall h :: j <= h < |ps| ==> trigram <= ps[h].trigram
    {
      var h := (i + j) / 2;
      if EntryTrigram(ix, h) >= trigram {
        j := h;
      } else {
        i := h + 1;
      }
    }
  }
}
