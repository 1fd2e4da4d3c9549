/** Merging sorted runs into posting lists (index/write.go, mergePost). */
module PostMerge {
  import opened Bytes
  import opened Varints
  import opened PostEntries
  import opened PostHeaps
  import opened IndexFormat

  /** An entry with a real trigram and file id. */
  predicate Proper(p: postEntry) {
    Trigram(p) < AllOnes && FileId(p) < NoId
  }

  /** Every entry is proper and occurs once. */
  ghost predicate GoodEntries(all: multiset<postEntry>, numName: nat) {
    forall p :: p in all ==> Proper(p) && all[p] == 1 && FileId(p) < numName
  }

  /** `e` is the next entry: the heap holds exactly the entries above it. */
  ghost predicate AtEntry(all: multiset<postEntry>, held: multiset<postEntry>, e: postEntry) {
    (e in all || e == Sentinel)
    && forall p :: held[p] == if p > e then all[p] else 0
  }

  lemma ProperBelowSentinel(p: postEntry)
    requires Proper(p)
    ensures p < Sentinel
  {
    EntryOrder(p, Sentinel);
    PackUnpack(AllOnes, 0);
  }

  /** The first entry. */
  method First(h: PostHeap, ghost all: multiset<postEntry>, ghost numName: nat) returns (e: postEntry)
    requires h.Valid() && h.Contents() == all && GoodEntries(all, numName)
    modifies h
    ensures h.Valid() && AtEntry(all, h.Contents(), e) && forall p :: p in all ==> e <= p
  {
    hide Held, Proper;
    e := h.Next();
    assert forall p :: p in all ==> all[p] == 1;
  }

  /** The entry after `e0`. */
  method Following(h: PostHeap, ghost all: multiset<postEntry>, ghost numName: nat, ghost e0: postEntry)
    returns (e: postEntry)
    requires h.Valid() && GoodEntries(all, numName) && AtEntry(all, h.Contents(), e0) && e0 in all
    modifies h
    ensures h.Valid() && AtEntry(all, h.Contents(), e)
    ensures e0 < e && forall p :: p in all && p > e0 ==> e <= p
  {
    hide Held;
    ghost var held := h.Contents();
    e := h.Next();
    if held == multiset{} {
      assert forall p :: held[p] == 0;
      ProperBelowSentinel(e0);
      forall p | p > e
        ensures all[p] == 0
      {
      }
    } else {
      assert held[e] > 0;
      forall p
        ensures h.Contents()[p] == if p > e then all[p] else 0
      {
        if p in held {
          assert e <= p && all[p] == 1;
        }
      }
    }
  }

  // ---------------------------------------------------------------- one posting list

  /** `ids` are the files of the entries with this trigram that come before `e`. */
  ghost predicate IdsBefore(all: multiset<postEntry>, trigram: nat, e: postEntry, ids: seq<uint32>) {
    Increasing(ids)
    && forall f: nat :: f in ids <==> f < NoId && MakePostEntry(trigram, f) in all && MakePostEntry(trigram, f) < e
  }

  lemma IdsStep(all: multiset<postEntry>, numName: nat, e: postEntry, e': postEntry, ids: seq<uint32>)
    requires GoodEntries(all, numName) && e in all && IdsBefore(all, Trigram(e), e, ids)
    requires e < e' && forall p :: p in all && p > e ==> e' <= p
    ensures IdsBefore(all, Trigram(e), e', ids + [FileId(e)])
  {
    var t := Trigram(e);
    assert MakePostEntry(t, FileId(e)) == e;
    assert Proper(e);
    forall k | 0 <= k < |ids|
      ensures ids[k] < FileId(e)
    {
      assert ids[k] in ids;
      PackUnpack(t, ids[k]);
      EntryOrder(MakePostEntry(t, ids[k]), e);
    }
    forall f: nat
      ensures f in ids + [FileId(e)] <==> f < NoId && MakePostEntry(t, f) in all && MakePostEntry(t, f) < e'
    {
      if f < NoId {
        PackUnpack(t, f);
        EntryOrder(MakePostEntry(t, f), e);
      }
    }
  }

  /** The inner loop: the entries of one trigram become the deltas of its list. */
  method OneList(h: PostHeap, ghost all: multiset<postEntry>, ghost numName: nat, e0: postEntry)
    returns (e: postEntry, deltas: Str, nfile: nat, ghost ids: seq<uint32>)
    requires h.Valid() && GoodEntries(all, numName) && AtEntry(all, h.Contents(), e0)
    requires forall p :: p in all && p < e0 ==> Trigram(p) < Trigram(e0)
    modifies h
    ensures h.Valid() && AtEntry(all, h.Contents(), e) && e0 <= e
    ensures e != Sentinel ==> Trigram(e0) < Trigram(e)
    ensures deltas == Deltas(NoId, ids) && nfile == |ids|
    ensures IdsBefore(all, Trigram(e0), e, ids)
    ensures forall p :: p in all && p < e ==> p < e0 || Trigram(p) == Trigram(e0)
  {
    hide Held, Deltas, WriteUvarint, IdsBefore, Proper, Increasing;
    var trigram := Trigram(e0);
    e := e0;
    deltas, nfile, ids := [], 0, [];
    var fileid: uint32 := NoId;
    assert IdsBefore(all, trigram, e, ids) by {
      NoIdsBefore(all, e0);
    }
    assert deltas == Deltas(NoId, ids) by {
      NoDeltas();
    }
    while Trigram(e) == trigram && trigram != AllOnes
      invariant h.Valid() && AtEntry(all, h.Contents(), e) && e0 <= e
      invariant fileid == LastId(NoId, ids) && deltas == Deltas(NoId, ids) && nfile == |ids|
      invariant IdsBefore(all, trigram, e, ids)
      invariant forall p :: p in all && p < e ==> p < e0 || Trigram(p) == trigram
      invariant Trigram(e) >= trigram
      decreases Sentinel - e
    {
      assert e in all;
      FileIdBound(all, numName, e);
      DeltasAppend(NoId, ids, FileId(e));
      deltas := deltas + WriteUvarint(Delta(fileid, FileId(e)));
      ghost var was := e;
      fileid := FileId(e);
      nfile := nfile + 1;
      e := Following(h, all, numName, was);
      IdsStep(all, numName, was, e, ids);
      ids := ids + [fileid];
      EntryOrder(was, e);
      BelowSentinel(all, numName, was, e);
    }
    SentinelLast(all, numName, e0, e);
  }

  lemma NoDeltas()
    ensures Deltas(NoId, []) == []
  {
  }

  lemma NoIdsBefore(all: multiset<postEntry>, e: postEntry)
    requires forall p :: p in all && p < e ==> Trigram(p) < Trigram(e)
    ensures IdsBefore(all, Trigram(e), e, [])
  {
    forall f: nat | f < NoId && MakePostEntry(Trigram(e), f) in all && MakePostEntry(Trigram(e), f) < e
      ensures false
    {
      PackUnpack(Trigram(e), f);
    }
  }

  lemma FileIdBound(all: multiset<postEntry>, numName: nat, e: postEntry)
    requires GoodEntries(all, numName) && e in all
    ensures FileId(e) < NoId && FileId(e) < numName && Trigram(e) < AllOnes
  {
    assert Proper(e);
  }

  lemma BelowSentinel(all: multiset<postEntry>, numName: nat, was: postEntry, e: postEntry)
    requires GoodEntries(all, numName) && was in all && was < e && (e in all || e == Sentinel)
    ensures 0 <= Sentinel - e < Sentinel - was
  {
    assert Proper(was);
    ProperBelowSentinel(was);
    if e in all {
      assert Proper(e);
      ProperBelowSentinel(e);
    }
  }

  lemma SentinelLast(all: multiset<postEntry>, numName: nat, e0: postEntry, e: postEntry)
    requires GoodEntries(all, numName) && (e0 in all || e0 == Sentinel) && (e in all || e == Sentinel) && e0 <= e
    requires Trigram(e) >= Trigram(e0) && (Trigram(e) != Trigram(e0) || Trigram(e0) == AllOnes)
    ensures e != Sentinel ==> Trigram(e0) < Trigram(e)
  {
    if e in all {
      assert Proper(e);
    }
  }

  // ---------------------------------------------------------------- all posting lists

  /** The lists so far hold exactly the entries whose trigram is below `t`. */
  ghost predicate ListedBelow(all: multiset<postEntry>, ps: seq<Posting>, t: nat) {
    (forall p :: p in ps ==> p.trigram < t)
    && forall u: nat, f: nat :: f in Lookup(ps, u) <==> f < NoId && u < t && MakePostEntry(u, f) in all
  }

  /** Adding the list of trigram `t`, when the next entry is `e`. */
  lemma ListStep(all: multiset<postEntry>, numName: nat, ps: seq<Posting>, t: nat, e: postEntry, ids: seq<uint32>)
    requires GoodEntries(all, numName) && ValidPostings(ps, numName) && ListedBelow(all, ps, t) && t <= AllOnes
    requires IdsBefore(all, t, e, ids) && t < Trigram(e)
    requires forall p :: p in all && Trigram(p) < Trigram(e) ==> Trigram(p) <= t
    ensures var ps' := ps + [Posting(t, ids)];
            ValidPostings(ps', numName) && ListedBelow(all, ps', Trigram(e))
  {
    var ps' := ps + [Posting(t, ids)];
    forall id | id in ids
      ensures id < numName
    {
      assert Proper(MakePostEntry(t, id));
      PackUnpack(t, id);
    }
    IncreasingShort(ids, numName);
    forall u: nat, f: nat
      ensures f in Lookup(ps', u) <==> f < NoId && u < Trigram(e) && MakePostEntry(u, f) in all
    {
      assert ps'[..|ps|] == ps;
      if f < NoId {
        PackUnpack(u, f);
        EntryOrder(MakePostEntry(u, f), e);
      }
    }
  }

  /** mergePost: all entries of the heap become posting lists and their index, closed by the empty list
      of the sentinel trigram. */
  method MergePost(h: PostHeap, ghost all: multiset<postEntry>, ghost numName: nat)
    returns (out: Str, index: Str, npost: nat, ghost ps: seq<Posting>)
    requires h.Valid() && h.Contents() == all && GoodEntries(all, numName)
    modifies h
    ensures out == PostingData(ps) && index == EntryData(ps) && npost == |ps|
    ensures ValidPostings(ps, numName)
    ensures forall u: nat, f: nat :: f in Lookup(ps, u) <==> f < NoId && MakePostEntry(u, f) in all
    ensures ps != [] && ps[|ps| - 1] == Posting(AllOnes, [])
  {
    hide Held, PostingData, EntryData, ListedBelow, IdsBefore, ValidPostings, AtEntry, GoodEntries, Increasing;
    var e := First(h, all, numName);
    out, index, npost, ps := [], [], 0, [];
    assert out == PostingData(ps) && index == EntryData(ps) && ValidPostings(ps, numName)
           && ListedBelow(all, ps, Trigram(e)) && Trigram(e) <= AllOnes by {
      NothingListed(all, numName, h.Contents(), e);
    }
    while true
      invariant h.Valid() && AtEntry(all, h.Contents(), e)
      invariant out == PostingData(ps) && index == EntryData(ps) && npost == |ps|
      invariant ValidPostings(ps, numName) && ListedBelow(all, ps, Trigram(e))
      invariant Trigram(e) <= AllOnes
      invariant forall p :: p in all && p < e ==> Trigram(p) < Trigram(e)
      decreases AllOnes - Trigram(e)
    {
      npost := npost + 1;
      var offset := |out|;
      var trigram := Trigram(e);
      out := out + Tri3(trigram);
      var e', deltas, nfile, ids := OneList(h, all, numName, e);
      out := out + deltas + [0];
      index := index + (Tri3(trigram) + U32(nfile) + U32(offset));
      ghost var p := Posting(trigram, ids);
      assert out == PostingData(ps + [p]) && index == EntryData(ps + [p]) by {
        PostingsAppend(ps, p);
        assert PostingData(ps) + Tri3(trigram) + deltas + [0] == PostingData(ps) + PostingBytes(p);
      }
      if trigram == AllOnes {
        assert p == Posting(AllOnes, []) && ValidPostings(ps + [p], numName)
          && forall u: nat, f: nat :: f in Lookup(ps + [p], u) <==> f < NoId && MakePostEntry(u, f) in all by {
          LastList(all, numName, ps, e, e', ids);
        }
        ps := ps + [p];
        break;
      }
      assert ValidPostings(ps + [p], numName) && ListedBelow(all, ps + [p], Trigram(e'))
             && trigram < Trigram(e') <= AllOnes && forall x :: x in all && x < e' ==> Trigram(x) < Trigram(e') by {
        NextList(all, numName, h.Contents(), ps, e, e', ids);
      }
      ps := ps + [p];
      e := e';
    }
  }

  lemma NothingListed(all: multiset<postEntry>, numName: nat, held: multiset<postEntry>, e: postEntry)
    requires GoodEntries(all, numName) && AtEntry(all, held, e) && forall p :: p in all ==> e <= p
    ensures PostingData([]) == [] && EntryData([]) == [] && ValidPostings([], numName)
    ensures ListedBelow(all, [], Trigram(e)) && Trigram(e) <= AllOnes
  {
    forall u: nat, f: nat | f < NoId && u < Trigram(e) && MakePostEntry(u, f) in all
      ensures false
    {
      PackUnpack(u, f);
      EntryOrder(MakePostEntry(u, f), e);
    }
    PackUnpack(AllOnes, 0);
    if e in all {
      assert Proper(e);
    }
  }

  lemma NextList(all: multiset<postEntry>, numName: nat, held: multiset<postEntry>, ps: seq<Posting>,
                 e: postEntry, e': postEntry, ids: seq<uint32>)
    requires GoodEntries(all, numName) && ValidPostings(ps, numName) && ListedBelow(all, ps, Trigram(e))
    requires AtEntry(all, held, e') && Trigram(e) < AllOnes && (e' != Sentinel ==> Trigram(e) < Trigram(e'))
    requires IdsBefore(all, Trigram(e), e', ids)
    requires forall p :: p in all && p < e ==> Trigram(p) < Trigram(e)
    requires forall p :: p in all && p < e' ==> p < e || Trigram(p) == Trigram(e)
    ensures var ps' := ps + [Posting(Trigram(e), ids)];
            ValidPostings(ps', numName) && ListedBelow(all, ps', Trigram(e'))
    ensures Trigram(e) < Trigram(e') <= AllOnes
    ensures forall p :: p in all && p < e' ==> Trigram(p) < Trigram(e')
  {
    PackUnpack(AllOnes, 0);
    if e' in all {
      assert Proper(e');
    }
    forall p | p in all && Trigram(p) < Trigram(e')
      ensures Trigram(p) <= Trigram(e)
    {
      EntryOrder(p, e');
    }
    ListStep(all, numName, ps, Trigram(e), e', ids);
  }

  lemma LastList(all: multiset<postEntry>, numName: nat, ps: seq<Posting>, e: postEntry, e': postEntry,
                 ids: seq<uint32>)
    requires GoodEntries(all, numName) && ValidPostings(ps, numName) && ListedBelow(all, ps, AllOnes)
    requires IdsBefore(all, AllOnes, e', ids)
    ensures ids == []
    ensures var ps' := ps + [Posting(AllOnes, ids)];
            ValidPostings(ps', numName)
            && forall u: nat, f: nat :: f in Lookup(ps', u) <==> f < NoId && MakePostEntry(u, f) in all
  {
    var ps' := ps + [Posting(AllOnes, ids)];
    assert ids != [] ==> ids[0] in ids;
    forall f: nat | f < NoId && MakePostEntry(AllOnes, f) in all
      ensures false
    {
      PackUnpack(AllOnes, f);
    }
    forall u: nat, f: nat
      ensures f in Lookup(ps', u) <==> f < NoId && MakePostEntry(u, f) in all
    {
      assert ps'[..|ps|] == ps;
      if f < NoId && MakePostEntry(u, f) in all {
        PackUnpack(u, f);
        assert Proper(MakePostEntry(u, f));
      }
    }
  }
}
