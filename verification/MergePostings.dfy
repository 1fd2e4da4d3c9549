/** Merging the posting lists of two indexes (index/merge.go, second half of Merge). */
module MergePostings {
  import opened Bytes
  import opened Varints
  import opened PostEntries
  import opened IndexFormat
  import opened IndexReader
  import opened Postings
  import opened MergeMaps

  // ---------------------------------------------------------------- translating ids

  /** Where a docid map sends an id, in 32-bit arithmetic. */
  function Image(m: seq<IdRange>, id: nat): Option<uint32> {
    if m == [] then None
    else if m[0].lo <= id < m[0].hi then Some((m[0].new_ + id - m[0].lo) % TwoTo32)
    else Image(m[1..], id)
  }

  /** The ids that the map does not drop, translated. */
  function MapIds(ids: seq<uint32>, m: seq<IdRange>): seq<uint32> {
    if ids == [] then []
    else match Image(m, ids[0])
      case None => MapIds(ids[1..], m)
      case Some(n) => [n] + MapIds(ids[1..], m)
  }

  /** Ranges in order, with new ids below the sentinel. */
  ghost predicate GoodMap(m: seq<IdRange>) {
    (forall a :: 0 <= a < |m| ==> m[a].lo < m[a].hi && m[a].new_ + (m[a].hi - m[a].lo) <= NoId)
    && forall a, b :: 0 <= a < b < |m| ==> m[a].hi <= m[b].lo
  }

  /** Ranges that end at or before an id are passed for it, and the next one decides. */
  lemma {:induction false} ImageFrom(m: seq<IdRange>, i: nat, id: nat)
    requires GoodMap(m) && i <= |m| && forall h :: 0 <= h < i ==> m[h].hi <= id
    ensures i < |m| && m[i].lo <= id < m[i].hi ==> Image(m, id) == Some(m[i].new_ + id - m[i].lo)
    ensures i == |m| || id < m[i].lo ==> Image(m, id) == None
    decreases |m|
  {
    if m != [] {
      if i > 0 {
        ImageFrom(m[1..], i - 1, id);
      } else if id < m[0].lo {
        assert GoodMap(m[1..]);
        if |m| > 1 {
          ImageFrom(m[1..], 0, id);
        }
      }
    }
  }

  lemma {:induction false} AllDropped(ids: seq<uint32>, m: seq<IdRange>)
    requires GoodMap(m) && forall x, h :: x in ids && 0 <= h < |m| ==> m[h].hi <= x
    ensures MapIds(ids, m) == []
  {
    if ids != [] {
      assert ids[0] in ids && forall x :: x in ids[1..] ==> x in ids;
      ImageFrom(m, |m|, ids[0]);
      AllDropped(ids[1..], m);
    }
  }

  lemma MapIsGood(m: seq<IdRange>, order: seq<Origin>, newer: bool)
    requires MapFor(m, order, newer) && |order| < NoId
    ensures GoodMap(m)
  {
    forall a | 0 <= a < |m|
      ensures m[a].lo < m[a].hi && m[a].new_ + (m[a].hi - m[a].lo) <= NoId
    {
      assert m[a] in m && Places(m[a], order, newer);
    }
  }

  /** The map is the inverse of the order: it sends a file of its side to the file's place. */
  lemma ImageIsPlace(m: seq<IdRange>, order: seq<Origin>, newer: bool, id: nat)
    requires MapFor(m, order, newer) && |order| < NoId
    ensures forall n: nat :: Image(m, id) == Some(n) <==> n < |order| && order[n] == Origin(newer, id)
  {
    hide MapFor, GoodMap;
    MapIsGood(m, order, newer);
    if Image(m, id).Some? {
      var r := ImageRange(m, id);
      RangeGives(m, order, newer, r, id);
    }
    forall n: nat | n < |order| && order[n] == Origin(newer, id)
      ensures Image(m, id) == Some(n)
    {
      PlaceHasImage(m, order, newer, n);
    }
  }

  lemma RangeGives(m: seq<IdRange>, order: seq<Origin>, newer: bool, r: IdRange, id: nat)
    requires MapFor(m, order, newer) && |order| < NoId && r in m && r.lo <= id < r.hi
    ensures var n := (r.new_ + id - r.lo) % TwoTo32;
            n < |order| && order[n] == Origin(newer, id)
  {
    assert Places(r, order, newer) && Holds(r, r.new_ + id - r.lo);
  }

  lemma PlaceHasImage(m: seq<IdRange>, order: seq<Origin>, newer: bool, n: nat)
    requires MapFor(m, order, newer) && |order| < NoId && GoodMap(m) && n < |order| && order[n].newer == newer
    ensures Image(m, order[n].id) == Some(n)
  {
    hide Image, GoodMap;
    var r :| r in m && Holds(r, n);
    assert Places(r, order, newer);
    var a :| 0 <= a < |m| && m[a] == r;
    RangeImage(m, a, order[n].id);
  }

  lemma RangeImage(m: seq<IdRange>, a: nat, id: nat)
    requires GoodMap(m) && a < |m| && m[a].lo <= id < m[a].hi
    ensures Image(m, id) == Some(m[a].new_ + id - m[a].lo)
  {
    forall h | 0 <= h < a
      ensures m[h].hi <= id
    {
      assert m[h].hi <= m[a].lo;
    }
    ImageFrom(m, a, id);
  }

  lemma {:induction false} ImageRange(m: seq<IdRange>, id: nat) returns (r: IdRange)
    requires Image(m, id).Some?
    ensures r in m && r.lo <= id < r.hi && Image(m, id).value == (r.new_ + id - r.lo) % TwoTo32
  {
    if m[0].lo <= id < m[0].hi {
      r := m[0];
    } else {
      r := ImageRange(m[1..], id);
    }
  }

  /** A translated list holds the places of the files that the list holds. */
  lemma {:induction false} MapIdsElements(ids: seq<uint32>, m: seq<IdRange>, order: seq<Origin>, newer: bool)
    requires MapFor(m, order, newer) && |order| < NoId
    ensures forall n: nat :: n in MapIds(ids, m) <==> n < |order| && order[n].newer == newer && order[n].id in ids
  {
    hide MapFor, Image;
    if ids != [] {
      MapIdsElements(ids[1..], m, order, newer);
      ImageIsPlace(m, order, newer, ids[0]);
      assert forall x :: x in ids <==> x == ids[0] || x in ids[1..];
    }
  }

  /** Later files of one side have later places. */
  lemma PlacesInOrder(order: seq<Origin>, names1: seq<Str>, names2: seq<Str>, n: nat, n': nat)
    requires StrictOrder(order, names1, names2) && n < |order| && n' < |order| && order[n].newer == order[n'].newer
    requires var names := if order[n].newer then names2 else names1;
             StrictNames(names) && order[n].id < order[n'].id < |names|
    ensures n < n'
  {
    var names := if order[n].newer then names2 else names1;
    assert Less(names[order[n].id], names[order[n'].id]);
    if n' < n {
      assert Less(OriginName(order[n'], names1, names2), OriginName(order[n], names1, names2));
      LessAsymmetric(names[order[n].id], names[order[n'].id]);
    }
  }

  lemma {:induction false} MapIdsIncreasing(ids: seq<uint32>, m: seq<IdRange>, order: seq<Origin>, newer: bool,
                                            names1: seq<Str>, names2: seq<Str>)
    requires MapFor(m, order, newer) && |order| < NoId && StrictOrder(order, names1, names2) && Increasing(ids)
    requires StrictNames(if newer then names2 else names1)
    requires forall id :: id in ids ==> id < |if newer then names2 else names1|
    ensures Increasing(MapIds(ids, m))
  {
    hide MapFor, StrictOrder, StrictNames, Image;
    if ids != [] {
      var id, rest := ids[0], ids[1..];
      assert id in ids && forall x :: x in rest ==> x in ids;
      MapIdsIncreasing(rest, m, order, newer, names1, names2);
      ImageIsPlace(m, order, newer, id);
      MapIdsElements(rest, m, order, newer);
      var tail := MapIds(rest, m);
      if Image(m, id).Some? {
        var n := Image(m, id).value;
        forall k | 0 <= k < |tail|
          ensures n < tail[k]
        {
          assert tail[k] in tail && order[tail[k]].id in rest && order[n] == Origin(newer, id);
          PlacesInOrder(order, names1, names2, n, tail[k]);
        }
      }
    }
  }

  // ---------------------------------------------------------------- postMapReader

  /** The trigram of list `k`, or all ones behind the last list. */
  function TrigramAt(ps: seq<Posting>, k: nat): nat {
    if k < |ps| then ps[k].trigram else NoId
  }

  function IdsAt(ps: seq<Posting>, k: nat): seq<uint32> {
    if k < |ps| then ps[k].ids else []
  }

  class PostMapReader {
    const ix: Index
    const idmap: seq<IdRange>
    ghost const v: View
    var triNum: nat
    var trigram: nat
    var count: nat
    var d: Str
    var oldid: uint32
    var fileid: uint32
    var i: nat
    ghost var rest: seq<uint32>           // the ids of the current list still to be read

    ghost predicate Valid()
      reads this
    {
      && Represents(ix, v) && GoodMap(idmap)
      && triNum <= |v.postings| && trigram == TrigramAt(v.postings, triNum)
      && Reading(rest, count, oldid, d)
      && i <= |idmap| && Behind(idmap, i, rest)
    }

    /** The translated ids that NextId has still to return. */
    ghost function Remaining(): seq<uint32>
      reads this
    {
      MapIds(rest, idmap)
    }

    /** The current id, unless it is the sentinel, and those to come. */
    ghost function Pending(): seq<uint32>
      reads this
    {
      if fileid == NoId then [] else [fileid] + Remaining()
    }

    /** init. */
    constructor (ix: Index, idmap: seq<IdRange>, ghost v: View)
      requires Represents(ix, v) && GoodMap(idmap)
      ensures this.ix == ix && this.idmap == idmap && this.v == v
      ensures Valid() && triNum == 0 && rest == IdsAt(v.postings, 0)
    {
      this.ix, this.idmap, this.v := ix, idmap, v;
      triNum, count, d, oldid, fileid, i := 0, 0, [], 0, 0, 0;
      trigram := NoId;
      rest := [];
      new;
      Load();
    }

    method NextTrigram()
      requires Valid() && triNum < |v.postings|
      modifies this
      ensures Valid() && triNum == old(triNum) + 1 && rest == IdsAt(v.postings, triNum)
    {
      triNum := triNum + 1;
      Load();
    }

    method Load()
      requires Represents(ix, v) && GoodMap(idmap) && triNum <= |v.postings| && i <= |idmap|
      modifies this
      ensures Valid() && triNum == old(triNum) && rest == IdsAt(v.postings, triNum)
    {
      hide Represents, GoodMap, HasEntry, EntryTrigram, EntryCount, EntryOffset, Increasing, Deltas;
      rest := [];
      assert ix.numPost == |v.postings| by {
        ListCount(ix, v);
      }
      if triNum >= ix.numPost {
        trigram, count, fileid := NoId, 0, NoId;
        NothingRead(oldid, d);
        return;
      }
      ListAt(ix, v, triNum);
      trigram, count := EntryTrigram(ix, triNum), EntryCount(ix, triNum);
      var offset := EntryOffset(ix, triNum);
      rest := v.postings[triNum].ids;
      if count == 0 {
        fileid := NoId;
        NothingRead(oldid, d);
        return;
      }
      assert Reading(rest, count, NoId, ix.data[ix.postData + offset + 3..]) by {
        StartReading(ix, v, triNum);
      }
      d := ix.data[ix.postData + offset + 3..];
      oldid := NoId;
      i := 0;
    }

    /** nextId: the translation of the next id that has one. */
    method NextId() returns (ok: bool)
      requires Valid()
      modifies this`count, this`d, this`oldid, this`fileid, this`i, this`rest
      ensures Valid() && ok == (fileid != NoId) && old(Remaining()) == Pending()
      ensures count <= old(count) && (ok ==> count < old(count))
    {
      hide Represents, GoodMap, Reading, Behind, MapIds;
      while count > 0
        invariant Valid() && Remaining() == old(Remaining()) && count <= old(count)
        decreases count
      {
        ghost var was := rest;
        NextOld();
        if i >= |idmap| {
          assert MapIds(was, idmap) == [] && MapIds([], idmap) == [] && Reading([], 0, oldid, d) && Behind(idmap, i, []) by {
            BehindAll(idmap, was, oldid, rest);
            NothingRead(oldid, d);
            AllDropped([], idmap);
          }
          count, rest := 0, [];
          break;
        }
        if oldid < idmap[i].lo {
          assert MapIds(was, idmap) == MapIds(rest, idmap) by {
            ImageFrom(idmap, i, oldid);
            MapIdsStep(was, idmap);
          }
          continue;
        }
        assert MapIds(was, idmap) == [idmap[i].new_ + oldid - idmap[i].lo] + MapIds(rest, idmap)
          && idmap[i].new_ + oldid - idmap[i].lo < NoId by {
          ImageFrom(idmap, i, oldid);
          MapIdsStep(was, idmap);
          NewIdFits(idmap, i, oldid);
        }
        fileid := (idmap[i].new_ + oldid - idmap[i].lo) % TwoTo32;
        return true;
      }
      assert rest == [] && MapIds([], idmap) == [] by {
        NoneLeft(rest, count, oldid, d, idmap);
      }
      fileid := NoId;
      return false;
    }

    /** Reads the next delta and passes the ranges that end before the id. */
    method NextOld()
      requires Valid() && count > 0
      modifies this`count, this`d, this`oldid, this`i, this`rest
      ensures Valid() && count == old(count) - 1 && old(rest) == [oldid] + rest
      ensures (forall h :: 0 <= h < i ==> idmap[h].hi <= oldid) && (i < |idmap| ==> oldid < idmap[i].hi)
    {
      hide Represents, GoodMap, Uvarint, Deltas, Delta;
      ghost var id := rest[0];
      assert Behind(idmap, i, rest) && id in rest;
      ReadNext(rest, count, oldid, d);
      var u := Uvarint(d);
      assert u.Some? && u.value.value != 0;
      count := count - 1;
      oldid := (oldid + u.value.value) % TwoTo32;
      d := d[u.value.size..];
      rest := rest[1..];
      while i < |idmap| && idmap[i].hi <= oldid
        modifies this`i
        invariant i <= |idmap| && forall h :: 0 <= h < i ==> idmap[h].hi <= oldid
      {
        i := i + 1;
      }
    }
  }

  /** The state of a reader inside a list, with `rest` to come. */
  ghost predicate Reading(rest: seq<uint32>, count: nat, oldid: uint32, d: Str) {
    && count == |rest| && Increasing(rest)
    && (forall x :: x in rest ==> x < NoId && (oldid == NoId || oldid < x))
    && (count > 0 ==> Deltas(oldid, rest) + [0] <= d)
  }

  /** The ranges before `i` end before everything to come. */
  ghost predicate Behind(m: seq<IdRange>, i: nat, rest: seq<uint32>)
    requires i <= |m|
  {
    forall h, x :: 0 <= h < i && x in rest ==> m[h].hi <= x
  }

  lemma NothingRead(oldid: uint32, d: Str)
    ensures Reading([], 0, oldid, d)
  {
  }

  lemma ListCount(ix: Index, v: View)
    requires Represents(ix, v)
    ensures ix.numPost == |v.postings|
  {
  }

  lemma StartReading(ix: Index, v: View, k: nat)
    requires Represents(ix, v) && k < |v.postings|
    ensures var o := ix.postData + |PostingData(v.postings[..k])| + 3;
            o <= |ix.data| && Reading(v.postings[k].ids, |v.postings[k].ids|, NoId, ix.data[o..])
  {
    ListStarts(ix, v, k);
    assert v.postings[k] in v.postings;
  }

  /** Decoding the next id: `corrupt` is not reached. */
  lemma ReadNext(rest: seq<uint32>, count: nat, oldid: uint32, d: Str)
    requires Reading(rest, count, oldid, d) && count > 0
    ensures var u := Uvarint(d);
            u.Some? && u.value.size <= |d| && u.value.value != 0 && (oldid + u.value.value) % TwoTo32 == rest[0]
            && Reading(rest[1..], count - 1, rest[0], d[u.value.size..])
    ensures forall x :: x in rest[1..] ==> rest[0] < x
  {
    assert rest[0] in rest;
    DecodeDelta(d, oldid, rest);
    forall x | x in rest[1..]
      ensures rest[0] < x && x in rest
    {
      var k :| 0 <= k < |rest[1..]| && rest[1..][k] == x;
    }
  }

  lemma MapIdsStep(ids: seq<uint32>, m: seq<IdRange>)
    requires ids != []
    ensures MapIds(ids, m) == match Image(m, ids[0])
                                case None => MapIds(ids[1..], m)
                                case Some(n) => [n] + MapIds(ids[1..], m)
  {
  }

  lemma BehindAll(m: seq<IdRange>, was: seq<uint32>, oldid: uint32, rest: seq<uint32>)
    requires GoodMap(m) && was == [oldid] + rest && (forall h :: 0 <= h < |m| ==> m[h].hi <= oldid) && Behind(m, |m|, rest)
    ensures MapIds(was, m) == [] && Behind(m, |m|, [])
  {
    AllDropped(was, m);
  }

  lemma NewIdFits(m: seq<IdRange>, i: nat, id: nat)
    requires GoodMap(m) && i < |m| && m[i].lo <= id < m[i].hi
    ensures m[i].new_ + id - m[i].lo < NoId
  {
  }

  lemma NoneLeft(rest: seq<uint32>, count: nat, oldid: uint32, d: Str, m: seq<IdRange>)
    requires Reading(rest, count, oldid, d) && count == 0
    ensures rest == [] && MapIds([], m) == []
  {
  }

  // ---------------------------------------------------------------- postDataWriter

  class PostDataWriter {
    var out: Str                          // the file so far
    var postIndexFile: Str
    const base: nat                       // where the posting lists start in it
    var count: nat
    var offset: nat
    var last: uint32
    var t: nat
    ghost const front: Str
    ghost var lists: seq<Posting>         // the lists written
    ghost var ids: seq<uint32>            // the ids of the list being written

    ghost predicate Valid()
      reads this
    {
      && |front| == base && out == front + (PostingData(lists) + Unfinished(t, ids))
      && postIndexFile == EntryData(lists)
      && count == |ids| && last == LastId(NoId, ids)
      && (ids != [] ==> offset == base + |PostingData(lists)|)
    }

    /** init. */
    constructor (out: Str)
      ensures Valid() && lists == [] && ids == [] && front == out
    {
      this.out, base, front := out, |out|, out;
      postIndexFile := [];
      count, offset, last, t := 0, 0, NoId, 0;
      lists, ids := [], [];
      new;
      assert PostingData([]) == [] && EntryData([]) == [];
    }

    /** trigram: starts a list. */
    method StartTrigram(t: nat)
      requires Valid() && ids == []
      modifies this`offset, this`count, this`t, this`last
      ensures Valid() && this.t == t && offset == base + |PostingData(lists)|
    {
      offset := |out|;
      count := 0;
      this.t := t;
      last := NoId;
    }

    /** fileid: the trigram itself is written in front of the first id. */
    method AddId(id: uint32)
      requires Valid() && offset == base + |PostingData(lists)|
      modifies this`out, this`last, this`count, this`ids
      ensures Valid() && ids == old(ids) + [id]
    {
      hide PostingData, EntryData, Deltas, WriteUvarint, Unfinished;
      UnfinishedGrows(t, ids, id);
      assert Unfinished(t, []) == [] by {
        NothingUnfinished(t);
      }
      if count == 0 {
        out := out + Tri3(t);
      }
      out := out + WriteUvarint(Delta(last, id));
      last := id;
      count := count + 1;
      ids := ids + [id];
      assert out == front + (PostingData(lists) + Unfinished(t, ids));
    }

    /** endTrigram: a list without ids leaves no trace. */
    method EndTrigram()
      requires Valid()
      modifies this
      ensures Valid() && ids == [] && t == old(t)
      ensures lists == if old(ids) == [] then old(lists) else old(lists) + [Posting(t, old(ids))]
    {
      hide Deltas, WriteUvarint, PostingData, EntryData;
      if count == 0 {
        return;
      }
      var p := Posting(t, ids);
      PostingsAppend(lists, p);
      assert PostingBytes(p) == Unfinished(t, ids) + [0];
      out := out + [0];
      postIndexFile := postIndexFile + (Tri3(t) + U32(count) + U32(offset - base));
      lists := lists + [p];
      ids, last, count := [], NoId, 0;
      assert out == front + (PostingData(lists) + Unfinished(t, []));
    }
  }

  /** What a list shows before its end mark. */
  function Unfinished(t: nat, ids: seq<uint32>): Str {
    if ids == [] then [] else Tri3(t) + Deltas(NoId, ids)
  }

  lemma NothingUnfinished(t: nat)
    ensures Unfinished(t, []) == []
  {
  }

  lemma UnfinishedGrows(t: nat, ids: seq<uint32>, id: uint32)
    ensures Unfinished(t, ids + [id]) ==
            Unfinished(t, ids) + ((if ids == [] then Tri3(t) else []) + WriteUvarint(Delta(LastId(NoId, ids), id)))
  {
    DeltasAppend(NoId, ids, id);
    assert ids == [] ==> Deltas(NoId, ids) == [];
  }

  // ---------------------------------------------------------------- one merged list

  /** One side only: every id of its list that has a translation. */
  method CopyList(r: PostMapReader, w: PostDataWriter)
    requires r.Valid() && w.Valid() && w.ids == [] && w.offset == w.base + |PostingData(w.lists)|
    modifies r, w
    ensures r.Valid() && w.Valid() && r.triNum == old(r.triNum) && r.fileid == NoId
    ensures w.ids == old(r.Remaining()) && w.lists == old(w.lists) && w.t == old(w.t)
  {
    hide PostMapReader.Valid, PostDataWriter.Valid;
    ghost var all := r.Remaining();
    var more := r.NextId();
    while more
      invariant r.Valid() && w.Valid() && r.triNum == old(r.triNum) && w.lists == old(w.lists) && w.t == old(w.t)
      invariant w.offset == w.base + |PostingData(w.lists)|
      invariant more == (r.fileid != NoId) && all == w.ids + r.Pending()
      decreases r.count, more
    {
      assert w.ids + ([r.fileid] + r.Remaining()) == (w.ids + [r.fileid]) + r.Remaining();
      w.AddId(r.fileid);
      more := r.NextId();
    }
  }

  ghost predicate Disjoint(a: seq<uint32>, b: seq<uint32>) {
    forall x :: x in a ==> x !in b
  }

  /** Both sides: no id comes from both, so the panic of this loop is not reached. */
  method MergeLists(r1: PostMapReader, r2: PostMapReader, w: PostDataWriter)
    requires r1 != r2 && r1.Valid() && r2.Valid() && w.Valid() && w.ids == []
    requires w.offset == w.base + |PostingData(w.lists)|
    requires Increasing(r1.Remaining()) && Increasing(r2.Remaining()) && Disjoint(r1.Remaining(), r2.Remaining())
    modifies r1, r2, w
    ensures r1.Valid() && r2.Valid() && w.Valid() && w.lists == old(w.lists) && w.t == old(w.t)
    ensures r1.triNum == old(r1.triNum) && r2.triNum == old(r2.triNum)
    ensures IsUnion(w.ids, old(r1.Remaining()), old(r2.Remaining()))
  {
    hide PostMapReader.Valid, PostDataWriter.Valid, Increasing, Disjoint, Merging, IsUnion, MapIds, PostingData;
    ghost var a, b := r1.Remaining(), r2.Remaining();
    ghost var i: nat, j: nat := 0, 0;
    var _ := r1.NextId();
    var _ := r2.NextId();
    assert Merging(w.ids, a, 0, b, 0) by {
      NothingYet(a, b);
    }
    while r1.fileid < NoId || r2.fileid < NoId
      invariant r1.Valid() && r2.Valid() && w.Valid() && w.lists == old(w.lists) && w.t == old(w.t)
      invariant r1.triNum == old(r1.triNum) && r2.triNum == old(r2.triNum)
      invariant w.offset == w.base + |PostingData(w.lists)|
      invariant i <= |a| && j <= |b| && Merging(w.ids, a, i, b, j)
      invariant a[i..] == r1.Pending() && b[j..] == r2.Pending()
      decreases r1.count, r1.fileid != NoId, r2.count, r2.fileid != NoId
    {
      MergeStep(w.ids, a, i, b, j);
      assert r1.fileid == r2.fileid ==> false by {
        if r1.fileid == r2.fileid {
          HeadOf(a, i, r1.fileid, r1.Remaining());
          HeadOf(b, j, r2.fileid, r2.Remaining());
          NotShared(a, i, b, j);
        }
      }
      if r1.fileid < r2.fileid {
        HeadOf(a, i, r1.fileid, r1.Remaining());
        HeadOrEnd(b, j, r2);
        w.AddId(r1.fileid);
        var _ := r1.NextId();
        i := i + 1;
      } else if r2.fileid < r1.fileid {
        HeadOf(b, j, r2.fileid, r2.Remaining());
        HeadOrEnd(a, i, r1);
        w.AddId(r2.fileid);
        var _ := r2.NextId();
        j := j + 1;
      } else {
        assert false;
      }
    }
    MergeDone(w.ids, a, b);
  }

  lemma NothingYet(a: seq<uint32>, b: seq<uint32>)
    ensures Merging([], a, 0, b, 0)
  {
  }

  lemma NotShared(a: seq<uint32>, i: nat, b: seq<uint32>, j: nat)
    requires Disjoint(a, b) && i < |a| && j < |b|
    ensures a[i] != b[j]
  {
    assert a[i] in a && b[j] in b;
  }

  lemma HeadOrEnd(b: seq<uint32>, j: nat, r: PostMapReader)
    requires j <= |b| && b[j..] == r.Pending()
    ensures j == |b| || (j < |b| && b[j] == r.fileid)
  {
    if j < |b| {
      assert b[j..][0] == b[j];
    }
  }

  // ---------------------------------------------------------------- all lists

  /** File `n` of the merged index comes from a file whose index lists it under `u`. */
  ghost predicate FromOrigin(order: seq<Origin>, ps1: seq<Posting>, ps2: seq<Posting>, u: nat, n: nat) {
    n < |order| && order[n].id in Lookup(if order[n].newer then ps2 else ps1, u)
  }

  /** The lists below trigram `b` are done. */
  ghost predicate Done(order: seq<Origin>, ps1: seq<Posting>, ps2: seq<Posting>, ps: seq<Posting>, b: nat) {
    ValidPostings(ps, |order|) && (forall p :: p in ps ==> p.trigram < b)
    && (forall p :: p in ps ==> p.ids != [])
    && forall u: nat, n: nat :: n in Lookup(ps, u) <==> u < b && FromOrigin(order, ps1, ps2, u, n)
  }

  /** List `k` is the first with a trigram of at least `b`. */
  ghost predicate AtBound(ps: seq<Posting>, k: nat, b: nat) {
    k <= |ps| && (forall h :: 0 <= h < k ==> ps[h].trigram < b) && forall h :: k <= h < |ps| ==> b <= ps[h].trigram
  }

  ghost predicate Sorted(ps: seq<Posting>) {
    forall i, j :: 0 <= i < j < |ps| ==> ps[i].trigram < ps[j].trigram
  }

  lemma LookupAtBound(ps: seq<Posting>, k: nat, b: nat)
    requires Sorted(ps) && AtBound(ps, k, b)
    ensures Lookup(ps, b) == if k < |ps| && ps[k].trigram == b then ps[k].ids else []
  {
    if k < |ps| && ps[k].trigram == b {
      LookupAt(ps, k);
    } else {
      forall p | p in ps
        ensures p.trigram != b
      {
        var h :| 0 <= h < |ps| && ps[h] == p;
      }
      LookupNone(ps, b);
    }
  }

  /** Whether the reader at list `k` takes part in the next list. */
  predicate Takes(ps: seq<Posting>, k: nat, b: nat) {
    k < |ps| && ps[k].trigram == b
  }

  function NextAt(ps: seq<Posting>, k: nat, b: nat): nat {
    if Takes(ps, k, b) then k + 1 else k
  }

  /** Past the lists of `b`, up to the next bound. */
  lemma NextBound(ps: seq<Posting>, k: nat, b: nat, b': nat)
    requires Sorted(ps) && AtBound(ps, k, b) && b < b' <= TrigramAt(ps, NextAt(ps, k, b))
    ensures AtBound(ps, NextAt(ps, k, b), b')
    ensures forall u :: b < u < b' ==> Lookup(ps, u) == []
  {
    hide Lookup;
    var k' := NextAt(ps, k, b);
    forall u | b < u <= b'
      ensures AtBound(ps, k', u)
    {
      forall h | k' <= h < |ps|
        ensures u <= ps[h].trigram
      {
        assert k' < h ==> ps[k'].trigram < ps[h].trigram;
      }
    }
    forall u | b < u < b'
      ensures Lookup(ps, u) == []
    {
      LookupAtBound(ps, k', u);
    }
  }

  /** The two translated lists of a trigram: in order, without a common id, and together the files of the
      merged index that have the trigram. */
  lemma Translated(order: seq<Origin>, v1: View, v2: View, map1: seq<IdRange>, map2: seq<IdRange>, b: nat)
    requires ValidView(v1) && ValidView(v2) && StrictNames(v1.names) && StrictNames(v2.names) && |order| < NoId
    requires StrictOrder(order, v1.names, v2.names) && MapFor(map1, order, false) && MapFor(map2, order, true)
    ensures var x, y := MapIds(Lookup(v1.postings, b), map1), MapIds(Lookup(v2.postings, b), map2);
            Increasing(x) && Increasing(y) && Disjoint(x, y)
            && forall n: nat :: n in x || n in y <==> FromOrigin(order, v1.postings, v2.postings, b, n)
  {
    hide StrictOrder, MapFor, StrictNames;
    LookupValid(v1.postings, b, |v1.names|);
    LookupValid(v2.postings, b, |v2.names|);
    var l1, l2 := Lookup(v1.postings, b), Lookup(v2.postings, b);
    MapIdsElements(l1, map1, order, false);
    MapIdsElements(l2, map2, order, true);
    MapIdsIncreasing(l1, map1, order, false, v1.names, v2.names);
    MapIdsIncreasing(l2, map2, order, true, v1.names, v2.names);
  }

  /** Writing the list of `b` and moving to the next bound. */
  lemma ListDone(order: seq<Origin>, ps1: seq<Posting>, ps2: seq<Posting>, ps: seq<Posting>, b: nat, b': nat,
                 ids: seq<uint32>)
    requires Done(order, ps1, ps2, ps, b) && b < b' && b <= AllOnes
    requires Increasing(ids) && forall n: nat :: n in ids <==> FromOrigin(order, ps1, ps2, b, n)
    requires forall u :: b < u < b' ==> Lookup(ps1, u) == [] && Lookup(ps2, u) == []
    ensures Done(order, ps1, ps2, if ids == [] then ps else ps + [Posting(b, ids)], b')
  {
    hide ValidPostings, Increasing, Lookup;
    var ps' := if ids == [] then ps else ps + [Posting(b, ids)];
    forall id | id in ids
      ensures id < |order|
    {
      assert FromOrigin(order, ps1, ps2, b, id);
    }
    IncreasingShort(ids, |order|);
    ValidAppend(ps, b, ids, |order|);
    forall u: nat
      ensures Lookup(ps', u) == if u == b && ids != [] then ids else Lookup(ps, u)
    {
      LookupAppend(ps, b, ids, u);
    }
    forall u: nat, n: nat
      ensures n in Lookup(ps', u) <==> u < b' && FromOrigin(order, ps1, ps2, u, n)
    {
      assert n in Lookup(ps, u) <==> u < b && FromOrigin(order, ps1, ps2, u, n);
    }
  }

  lemma LookupAppend(ps: seq<Posting>, b: nat, ids: seq<uint32>, u: nat)
    ensures Lookup(ps + [Posting(b, ids)], u) == if u == b then ids else Lookup(ps, u)
  {
    assert (ps + [Posting(b, ids)])[..|ps|] == ps;
  }

  lemma ValidAppend(ps: seq<Posting>, b: nat, ids: seq<uint32>, numName: nat)
    requires ValidPostings(ps, numName) && (forall p :: p in ps ==> p.trigram < b) && b <= AllOnes
    requires Increasing(ids) && |ids| <= numName && forall id :: id in ids ==> id < numName
    ensures ValidPostings(ps + [Posting(b, ids)], numName)
  {
    forall i | 0 <= i < |ps|
      ensures ps[i].trigram < b
    {
      assert ps[i] in ps;
    }
  }

  /** The loop over the trigrams: both readers are at the next bound, and the lists below it are done. */
  ghost predicate Midway(order: seq<Origin>, v1: View, v2: View, k1: nat, k2: nat, ps: seq<Posting>) {
    var b := Bound(v1, v2, k1, k2);
    Done(order, v1.postings, v2.postings, ps, b) && AtBound(v1.postings, k1, b) && AtBound(v2.postings, k2, b)
  }

  function Bound(v1: View, v2: View, k1: nat, k2: nat): nat {
    var t1, t2 := TrigramAt(v1.postings, k1), TrigramAt(v2.postings, k2);
    if t1 <= t2 then t1 else t2
  }

  /** The lists that meet at the bound are those of its trigram. */
  lemma AtBoundLists(order: seq<Origin>, v1: View, v2: View, k1: nat, k2: nat, ps: seq<Posting>)
    requires ValidView(v1) && ValidView(v2) && Midway(order, v1, v2, k1, k2, ps)
    ensures var b := Bound(v1, v2, k1, k2);
            Lookup(v1.postings, b) == (if Takes(v1.postings, k1, b) then IdsAt(v1.postings, k1) else [])
            && Lookup(v2.postings, b) == (if Takes(v2.postings, k2, b) then IdsAt(v2.postings, k2) else [])
            && (Takes(v1.postings, k1, b) <==> b != NoId && TrigramAt(v1.postings, k1) == b)
            && (Takes(v2.postings, k2, b) <==> b != NoId && TrigramAt(v2.postings, k2) == b)
            && (b != NoId ==> b <= AllOnes)
  {
    var b := Bound(v1, v2, k1, k2);
    LookupAtBound(v1.postings, k1, b);
    LookupAtBound(v2.postings, k2, b);
    assert k1 < |v1.postings| ==> v1.postings[k1] in v1.postings;
    assert k2 < |v2.postings| ==> v2.postings[k2] in v2.postings;
  }

  /** One turn of the loop. */
  lemma TurnDone(order: seq<Origin>, v1: View, v2: View, map1: seq<IdRange>, map2: seq<IdRange>, k1: nat, k2: nat,
                 ps: seq<Posting>, ids: seq<uint32>)
    requires ValidView(v1) && ValidView(v2) && StrictNames(v1.names) && StrictNames(v2.names) && |order| < NoId
    requires StrictOrder(order, v1.names, v2.names) && MapFor(map1, order, false) && MapFor(map2, order, true)
    requires Midway(order, v1, v2, k1, k2, ps) && Bound(v1, v2, k1, k2) < NoId
    requires var b := Bound(v1, v2, k1, k2);
             IsUnion(ids, MapIds(Lookup(v1.postings, b), map1), MapIds(Lookup(v2.postings, b), map2))
    ensures var b := Bound(v1, v2, k1, k2);
            Midway(order, v1, v2, NextAt(v1.postings, k1, b), NextAt(v2.postings, k2, b),
                   if ids == [] then ps else ps + [Posting(b, ids)])
  {
    hide StrictOrder, MapFor, StrictNames, MapIds, Lookup, Done;
    var b := Bound(v1, v2, k1, k2);
    var k1', k2' := NextAt(v1.postings, k1, b), NextAt(v2.postings, k2, b);
    var b' := Bound(v1, v2, k1', k2');
    AtBoundLists(order, v1, v2, k1, k2, ps);
    BoundGrows(v1, v2, k1, k2);
    NextBound(v1.postings, k1, b, b');
    NextBound(v2.postings, k2, b, b');
    Translated(order, v1, v2, map1, map2, b);
    ListDone(order, v1.postings, v2.postings, ps, b, b', ids);
  }

  lemma BoundGrows(v1: View, v2: View, k1: nat, k2: nat)
    requires ValidView(v1) && ValidView(v2) && Bound(v1, v2, k1, k2) < NoId
    ensures var b := Bound(v1, v2, k1, k2);
            b < Bound(v1, v2, NextAt(v1.postings, k1, b), NextAt(v2.postings, k2, b))
  {
    var b := Bound(v1, v2, k1, k2);
    TrigramNext(v1.postings, k1, b, |v1.names|);
    TrigramNext(v2.postings, k2, b, |v2.names|);
  }

  lemma TrigramNext(ps: seq<Posting>, k: nat, b: nat, numName: nat)
    requires ValidPostings(ps, numName) && b <= TrigramAt(ps, k) && b < NoId
    ensures b < TrigramAt(ps, NextAt(ps, k, b))
  {
    if k + 1 < |ps| {
      assert ps[k].trigram < ps[k + 1].trigram;
    }
  }

  lemma NoListsYet(order: seq<Origin>, v1: View, v2: View)
    ensures Midway(order, v1, v2, 0, 0, []) || !ValidView(v1) || !ValidView(v2)
  {
    if ValidView(v1) && ValidView(v2) {
      var b := Bound(v1, v2, 0, 0);
      FirstBound(v1.postings, |v1.names|, b);
      FirstBound(v2.postings, |v2.names|, b);
      forall u: nat, n: nat
        ensures !(u < b && FromOrigin(order, v1.postings, v2.postings, u, n))
      {
        if u < b {
          LookupNone(v1.postings, u);
          LookupNone(v2.postings, u);
        }
      }
    }
  }

  lemma FirstBound(ps: seq<Posting>, numName: nat, b: nat)
    requires ValidPostings(ps, numName) && b <= TrigramAt(ps, 0)
    ensures AtBound(ps, 0, b) && forall p :: p in ps ==> b <= p.trigram
  {
    forall p | p in ps
      ensures b <= p.trigram
    {
      var h :| 0 <= h < |ps| && ps[h] == p;
      assert h > 0 ==> ps[0].trigram < ps[h].trigram;
    }
  }

  lemma AllDone(order: seq<Origin>, v1: View, v2: View, k1: nat, k2: nat, ps: seq<Posting>)
    requires ValidView(v1) && ValidView(v2) && Midway(order, v1, v2, k1, k2, ps) && Bound(v1, v2, k1, k2) == NoId
    ensures ValidPostings(ps, |order|) && forall p :: p in ps ==> p.ids != []
    ensures forall u: nat, n: nat :: n in Lookup(ps, u) <==> FromOrigin(order, v1.postings, v2.postings, u, n)
  {
    forall u: nat, n: nat
      ensures n in Lookup(ps, u) <==> FromOrigin(order, v1.postings, v2.postings, u, n)
    {
      assert n in Lookup(ps, u) <==> u < NoId && FromOrigin(order, v1.postings, v2.postings, u, n);
      if u >= NoId {
        LookupNone(v1.postings, u);
        LookupNone(v2.postings, u);
      }
    }
  }

  /** What each branch finds: the trigram of the next list, who takes part in it, and with which ids. */
  lemma TurnStart(r1: PostMapReader, r2: PostMapReader, order: seq<Origin>, lists: seq<Posting>)
    requires r1.Valid() && r2.Valid() && Midway(order, r1.v, r2.v, r1.triNum, r2.triNum, lists)
    requires r1.rest == IdsAt(r1.v.postings, r1.triNum) && r2.rest == IdsAt(r2.v.postings, r2.triNum)
    requires Bound(r1.v, r2.v, r1.triNum, r2.triNum) < NoId
    requires StrictNames(r1.v.names) && StrictNames(r2.v.names) && |order| < NoId
    requires StrictOrder(order, r1.v.names, r2.v.names) && MapFor(r1.idmap, order, false) && MapFor(r2.idmap, order, true)
    ensures var b := Bound(r1.v, r2.v, r1.triNum, r2.triNum);
            var x, y := MapIds(Lookup(r1.v.postings, b), r1.idmap), MapIds(Lookup(r2.v.postings, b), r2.idmap);
            Increasing(x) && Increasing(y) && Disjoint(x, y)
            && (r1.trigram <= r2.trigram ==> r1.trigram == b && x == r1.Remaining() && r1.triNum < |r1.v.postings|
                                             && NextAt(r1.v.postings, r1.triNum, b) == r1.triNum + 1)
            && (r2.trigram <= r1.trigram ==> r2.trigram == b && y == r2.Remaining() && r2.triNum < |r2.v.postings|
                                             && NextAt(r2.v.postings, r2.triNum, b) == r2.triNum + 1)
            && (r1.trigram < r2.trigram ==> y == [] && NextAt(r2.v.postings, r2.triNum, b) == r2.triNum)
            && (r2.trigram < r1.trigram ==> x == [] && NextAt(r1.v.postings, r1.triNum, b) == r1.triNum)
  {
    assert ValidView(r1.v) && ValidView(r2.v);
    hide ValidView, Represents, StrictOrder, MapFor, StrictNames, MapIds, Lookup, Midway, Increasing, Disjoint, Reading,
      Behind, GoodMap;
    AtBoundLists(order, r1.v, r2.v, r1.triNum, r2.triNum, lists);
    Translated(order, r1.v, r2.v, r1.idmap, r2.idmap, Bound(r1.v, r2.v, r1.triNum, r2.triNum));
    NothingMapped(r1.idmap);
    NothingMapped(r2.idmap);
  }

  /** The body of the loop over the trigrams: one of its three branches. */
  method Turn(r1: PostMapReader, r2: PostMapReader, w: PostDataWriter, ghost order: seq<Origin>)
    returns (ghost ids: seq<uint32>)
    requires r1 != r2 && r1.Valid() && r2.Valid() && w.Valid() && w.ids == []
    requires r1.rest == IdsAt(r1.v.postings, r1.triNum) && r2.rest == IdsAt(r2.v.postings, r2.triNum)
    requires Midway(order, r1.v, r2.v, r1.triNum, r2.triNum, w.lists) && Bound(r1.v, r2.v, r1.triNum, r2.triNum) < NoId
    requires StrictNames(r1.v.names) && StrictNames(r2.v.names) && |order| < NoId
    requires StrictOrder(order, r1.v.names, r2.v.names) && MapFor(r1.idmap, order, false) && MapFor(r2.idmap, order, true)
    modifies r1, r2, w
    ensures r1.Valid() && r2.Valid() && w.Valid() && w.ids == []
    ensures r1.rest == IdsAt(r1.v.postings, r1.triNum) && r2.rest == IdsAt(r2.v.postings, r2.triNum)
    ensures var b := old(Bound(r1.v, r2.v, r1.triNum, r2.triNum));
            r1.triNum == NextAt(r1.v.postings, old(r1.triNum), b) && r2.triNum == NextAt(r2.v.postings, old(r2.triNum), b)
            && w.lists == (if ids == [] then old(w.lists) else old(w.lists) + [Posting(b, ids)])
            && IsUnion(ids, MapIds(Lookup(r1.v.postings, b), r1.idmap), MapIds(Lookup(r2.v.postings, b), r2.idmap))
  {
    hide *;
    ghost var b := Bound(r1.v, r2.v, r1.triNum, r2.triNum);
    TurnStart(r1, r2, order, w.lists);
    ghost var x, y := MapIds(Lookup(r1.v.postings, b), r1.idmap), MapIds(Lookup(r2.v.postings, b), r2.idmap);
    if r1.trigram < r2.trigram {
      w.StartTrigram(r1.trigram);
      CopyList(r1, w);
      r1.NextTrigram();
    } else if r2.trigram < r1.trigram {
      w.StartTrigram(r2.trigram);
      CopyList(r2, w);
      r2.NextTrigram();
    } else {
      w.StartTrigram(r1.trigram);
      MergeLists(r1, r2, w);
      r1.NextTrigram();
      r2.NextTrigram();
    }
    ids := w.ids;
    assert IsUnion(ids, x, y) by {
      OneSideUnion(x, y);
    }
    w.EndTrigram();
  }

  lemma NothingMapped(m: seq<IdRange>)
    ensures MapIds([], m) == []
  {
  }

  lemma OneSideUnion(x: seq<uint32>, y: seq<uint32>)
    requires Increasing(x) && Increasing(y)
    ensures y == [] ==> IsUnion(x, x, y)
    ensures x == [] ==> IsUnion(y, x, y)
  {
  }

  lemma WriterDone(w: PostDataWriter)
    requires w.Valid() && w.ids == []
    ensures w.out == w.front + PostingData(w.lists) && w.postIndexFile == EntryData(w.lists)
  {
    assert PostingData(w.lists) + [] == PostingData(w.lists);
  }

  /** The loop stops exactly when the bound is the sentinel, and otherwise a reader moves on. */
  lemma Stopped(r1: PostMapReader, r2: PostMapReader)
    requires r1.Valid() && r2.Valid()
    ensures r1.trigram == r2.trigram == NoId <==> Bound(r1.v, r2.v, r1.triNum, r2.triNum) == NoId
    ensures Bound(r1.v, r2.v, r1.triNum, r2.triNum) <= NoId
    ensures var b := Bound(r1.v, r2.v, r1.triNum, r2.triNum);
            var k1, k2 := NextAt(r1.v.postings, r1.triNum, b), NextAt(r2.v.postings, r2.triNum, b);
            b < NoId ==> r1.triNum <= k1 <= |r1.v.postings| && r2.triNum <= k2 <= |r2.v.postings|
                         && r1.triNum + r2.triNum < k1 + k2
  {
    assert ValidView(r1.v) && ValidView(r2.v);
    hide Represents, GoodMap, Reading, Behind, ValidView, ValidPostings;
    ReaderTrigram(r1.v, r1.triNum);
    ReaderTrigram(r2.v, r2.triNum);
  }

  lemma ReaderTrigram(v: View, k: nat)
    requires ValidView(v)
    ensures TrigramAt(v.postings, k) <= NoId && (k < |v.postings| ==> TrigramAt(v.postings, k) < NoId)
  {
    assert k < |v.postings| ==> v.postings[k] in v.postings;
  }

  lemma ViewsValid(ix1: Index, ix2: Index, v1: View, v2: View)
    requires Represents(ix1, v1) && Represents(ix2, v2)
    ensures ValidView(v1) && ValidView(v2)
  {
  }

  /** The fourth part of Merge: the posting lists and their index. */
  method MergeAllLists(ix1: Index, ix2: Index, map1: seq<IdRange>, map2: seq<IdRange>, out0: Str,
                       ghost v1: View, ghost v2: View, ghost order: seq<Origin>)
    returns (out: Str, postIndex: Str, ghost ps: seq<Posting>)
    requires Represents(ix1, v1) && Represents(ix2, v2) && StrictNames(v1.names) && StrictNames(v2.names)
    requires StrictOrder(order, v1.names, v2.names) && |order| < NoId
    requires MapFor(map1, order, false) && MapFor(map2, order, true)
    ensures out == out0 + PostingData(ps) && postIndex == EntryData(ps)
    ensures ValidPostings(ps, |order|) && forall p :: p in ps ==> p.ids != []
    ensures forall u: nat, n: nat :: n in Lookup(ps, u) <==> FromOrigin(order, v1.postings, v2.postings, u, n)
  {
    hide *;
    ViewsValid(ix1, ix2, v1, v2);
    MapIsGood(map1, order, false);
    MapIsGood(map2, order, true);
    var r1 := new PostMapReader(ix1, map1, v1);
    var r2 := new PostMapReader(ix2, map2, v2);
    var w := new PostDataWriter(out0);
    NoListsYet(order, v1, v2);
    while true
      invariant fresh(r1) && fresh(r2) && fresh(w)
      invariant r1.Valid() && r1.rest == IdsAt(v1.postings, r1.triNum)
      invariant r2.Valid() && r2.rest == IdsAt(v2.postings, r2.triNum)
      invariant w.Valid() && w.ids == []
      invariant Midway(order, v1, v2, r1.triNum, r2.triNum, w.lists)
      decreases |v1.postings| - r1.triNum + |v2.postings| - r2.triNum
    {
      Stopped(r1, r2);
      if r1.trigram == NoId && r2.trigram == NoId {
        break;
      }
      ghost var k1, k2, lists := r1.triNum, r2.triNum, w.lists;
      ghost var ids;
      ids := Turn(r1, r2, w, order);
      TurnDone(order, v1, v2, map1, map2, k1, k2, lists, ids);
    }
    out, postIndex, ps := w.out, w.postIndexFile, w.lists;
    AllDone(order, v1, v2, r1.triNum, r2.triNum, ps);
    WriterDone(w);
  }
}
