/** Merging two indexes (index/merge.go): the file written, and what a search of it finds. */
module Merge {
  import opened Bytes
  import opened Varints
  import opened Queries
  import opened IndexFormat
  import opened IndexReader
  import opened QueryEvaluation
  import opened TextScan
  import opened IndexWriters
  import opened MergeMaps
  import opened MergePostings

  // ---------------------------------------------------------------- the file

  lemma JoinedNone()
    ensures Joined([]) == []
  {
  }

  lemma SixParts(p: seq<Str>, k: nat)
    requires k + 6 <= |p|
    ensures Joined(p[..k + 6]) ==
            Joined(p[..k]) + (p[k] + p[k + 1] + p[k + 2] + p[k + 3] + p[k + 4]) + p[k + 5]
  {
    hide Joined;
    JoinedTake(p, k);
    JoinedTake(p, k + 1);
    JoinedTake(p, k + 2);
    JoinedTake(p, k + 3);
    JoinedTake(p, k + 4);
    JoinedTake(p, k + 5);
  }

  lemma TwelveParts(p: seq<Str>)
    requires |p| == 12
    ensures Joined(p) == p[0] + p[1] + p[2] + p[3] + p[4] + p[5] + (p[6] + p[7] + p[8] + p[9] + p[10]) + p[11]
  {
    hide Joined;
    JoinedNone();
    SixParts(p, 0);
    SixParts(p, 6);
    assert p[..12] == p && p[..0] == [];
  }

  /** The five offsets of the trailer, each the length of the file up to its section. */
  function Offsets(front: Str, paths: Str, names: Str, posts: Str, nameIndex: Str): Str {
    U32(|front|) + U32(|front + paths|) + U32(|front + paths + names|) + U32(|front + paths + names + posts|)
    + U32(|front + paths + names + posts + nameIndex|)
  }

  /** The sections one after the other, their offsets, and the trailer. */
  lemma FileInOrder(s: Sections)
    ensures FileBytes(s) == Magic + s.paths + s.names + s.posts + s.nameIndex + s.postIndex
                            + Offsets(Magic, s.paths, s.names, s.posts, s.nameIndex) + TrailerMagic
  {
    hide U32, Joined;
    TwelveParts(FileParts(s));
  }

  // ---------------------------------------------------------------- Merge

  /** What a merge of `v1` and the newer `v2` must hold. */
  ghost predicate MergeOf(v: View, order: seq<Origin>, v1: View, v2: View) {
    && ValidView(v)
    && Represented(v.paths, v1.paths + v2.paths)
    && (SortedPaths(v1.paths) ==> MergedPaths(v.paths, v1.paths + v2.paths))
    && v.names == MergedNames(order, v1.names, v2.names) && StrictNames(v.names)
    && Chosen(order, v2.paths, v1.names, |v1.names|, |v2.names|)
    && forall u: nat, n: nat :: n in Lookup(v.postings, u) <==> FromOrigin(order, v1.postings, v2.postings, u, n)
  }

  lemma NamesClean(order: seq<Origin>, v1: View, v2: View)
    requires ValidView(v1) && ValidView(v2)
    ensures forall n :: n in MergedNames(order, v1.names, v2.names) ==> 0 !in n
  {
    forall n | n in MergedNames(order, v1.names, v2.names)
      ensures 0 !in n
    {
      var k :| 0 <= k < |order| && MergedNames(order, v1.names, v2.names)[k] == n;
      assert n == [] || n in v1.names || n in v2.names;
    }
  }

  lemma MergeIs(v: View, order: seq<Origin>, v1: View, v2: View, map1: seq<IdRange>, map2: seq<IdRange>)
    requires ValidView(v1) && ValidView(v2) && |order| < NoId
    requires Merged(Progress(order, map1, map2), v1.names, v2.names, |v1.names|, |v2.names|)
    requires Chosen(order, v2.paths, v1.names, |v1.names|, |v2.names|) && SortedPaths(v2.paths)
    requires v.names == MergedNames(order, v1.names, v2.names) && ValidPostings(v.postings, |order|)
    requires Represented(v.paths, v1.paths + v2.paths)
    requires SortedPaths(v1.paths) && SortedPaths(v2.paths) ==> MergedPaths(v.paths, v1.paths + v2.paths)
    requires forall u: nat, n: nat :: n in Lookup(v.postings, u) <==> FromOrigin(order, v1.postings, v2.postings, u, n)
    ensures MergeOf(v, order, v1, v2)
  {
    hide Chosen, MergedPaths, Lookup, FromOrigin, ValidPostings, SortedPaths, MapFor;
    NamesClean(order, v1, v2);
    forall p | p in v.paths
      ensures p != [] && 0 !in p
    {
      assert p in v1.paths + v2.paths;
      assert p in v1.paths || p in v2.paths;
    }
  }

  /** Merge, on the contents of the two source files. `None` is the panic of the source, which happens
      exactly when some name of the newer index lies within none of its paths. */
  method MergeFiles(src1: Str, src2: Str, ghost v1: View, ghost v2: View)
    returns (dst: Option<Str>, ghost v: View, ghost order: seq<Origin>)
    requires Open(src1).Some? && Represents(Open(src1).value, v1)
    requires Open(src2).Some? && Represents(Open(src2).value, v2)
    requires Mergeable(v1, v2)
    ensures dst.Some? <==> Covered(v2.paths, v2.names)
    ensures dst.Some? ==> MergeOf(v, order, v1, v2)
    ensures dst.Some? && |dst.value| < TwoTo32 ==> Open(dst.value).Some? && Represents(Open(dst.value).value, v)
  {
    hide *;
    var ix1, ix2 := Open(src1).value, Open(src2).value;
    ViewsValid(ix1, ix2, v1, v2);
    MergeableParts(v1, v2);
    var paths1 := Paths(ix1, v1);
    var paths2 := Paths(ix2, v2);
    var ok, map1, map2, numName;
    ok, map1, map2, numName, order := DocMaps(ix1, ix2, paths2, v1, v2);
    v := v1;
    if !ok {
      return None, v, order;
    }
    MergedParts(order, map1, map2, v1, v2);
    var out := Magic;
    var merged, pathData := PathList(paths1, paths2);
    var pathOffset := |out|;
    out := out + (pathData + [0]);
    var nameOffset := |out|;
    var nameData, nameIndex := NameList(ix1, ix2, map1, map2, numName, v1, v2, order);
    out := out + nameData;
    var postOffset := |out|;
    nameIndex := nameIndex + U32(postOffset);
    var postIndex;
    ghost var ps;
    out, postIndex, ps := MergeAllLists(ix1, ix2, map1, map2, out, v1, v2, order);
    var nameIndexOffset := |out|;
    out := out + nameIndex;
    var postIndexOffset := |out|;
    out := out + postIndex;
    out := out + (U32(pathOffset) + U32(nameOffset) + U32(postOffset) + U32(nameIndexOffset) + U32(postIndexOffset));
    out := out + TrailerMagic;
    v := View(merged, MergedNames(order, v1.names, v2.names), ps);
    MergeIs(v, order, v1, v2, map1, map2);
    MergedFile(v, order, v1, v2, postOffset, pathData + [0], nameData, PostingData(ps), nameIndex, postIndex, out);
    return Some(out), v, order;
  }

  lemma MergeableParts(v1: View, v2: View)
    requires Mergeable(v1, v2) && ValidView(v1) && ValidView(v2)
    ensures StrictNames(v1.names) && StrictNames(v2.names) && SortedPaths(v2.paths)
    ensures forall p :: p in v1.paths + v2.paths ==> 0 !in p
  {
  }

  lemma MergedParts(order: seq<Origin>, map1: seq<IdRange>, map2: seq<IdRange>, v1: View, v2: View)
    requires Merged(Progress(order, map1, map2), v1.names, v2.names, |v1.names|, |v2.names|) && Mergeable(v1, v2)
    ensures StrictOrder(order, v1.names, v2.names) && MapFor(map1, order, false) && MapFor(map2, order, true)
    ensures |order| < NoId
  {
  }

  /** The file that Merge writes. Unlike the one of Flush it has no empty name at the end, no list for the
      all-ones trigram, and a last name offset counted from the start of the file. */
  function MergedSections(v: View, last: nat): Sections {
    Sections(Terminated(v.paths) + [0], Terminated(v.names), PostingData(v.postings),
             NameOffsets(v.names) + U32(last), EntryData(v.postings))
  }

  lemma MergedFile(v: View, order: seq<Origin>, v1: View, v2: View, last: nat, paths: Str, names: Str, posts: Str,
                   nameIndex: Str, postIndex: Str, out: Str)
    requires MergeOf(v, order, v1, v2)
    requires paths == Terminated(v.paths) + [0] && names == Terminated(v.names) && posts == PostingData(v.postings)
    requires nameIndex == NameOffsets(v.names) + U32(last) && postIndex == EntryData(v.postings)
    requires out == Magic + paths + names + posts + nameIndex + postIndex
                    + (U32(|Magic|) + U32(|Magic + paths|) + U32(|Magic + paths + names|) + U32(|Magic + paths + names + posts|)
                       + U32(|Magic + paths + names + posts + nameIndex|)) + TrailerMagic
    ensures out == FileBytes(MergedSections(v, last))
    ensures |out| < TwoTo32 ==> Open(out).Some? && Represents(Open(out).value, v)
  {
    hide FileBytes, Terminated, PostingData, EntryData, NameOffsets, U32, MergedPaths, Chosen, ValidPostings, OccursAt;
    FileInOrder(MergedSections(v, last));
    if |out| < TwoTo32 {
      DataLengths(v.names, v.postings);
      OpenFile(MergedSections(v, last), |v.names|, |v.postings|);
      SectionFront(out, Open(out).value.nameIndex, NameOffsets(v.names), U32(last));
    }
  }

  // ---------------------------------------------------------------- what a search of the merged index finds

  /** A merged file has the trigrams that its origin has. */
  lemma MergedTrigrams(v: View, order: seq<Origin>, v1: View, v2: View, n: nat)
    requires MergeOf(v, order, v1, v2) && n < |order|
    ensures IdTrigrams(v.postings, n) ==
            IdTrigrams(if order[n].newer then v2.postings else v1.postings, order[n].id)
  {
    hide Lookup, ValidView, Represented, MergedPaths, Chosen;
    var from := if order[n].newer then v2.postings else v1.postings;
    forall t: Str | |t| == 3
      ensures n in Lookup(v.postings, TriNum(t)) <==> order[n].id in Lookup(from, TriNum(t))
    {
      assert n in Lookup(v.postings, TriNum(t)) <==> FromOrigin(order, v1.postings, v2.postings, TriNum(t), n);
    }
  }

  /** The name is selected in one of the inputs: in the newer one, or in the older one and not replaced. */
  ghost predicate SelectedInInputs(q: Query, v1: View, v2: View, name: Str) {
    || (exists i: nat :: i < |v2.names| && v2.names[i] == name && Selected(q, None, v2, i))
    || (!Within(v2.paths, name) && exists i: nat :: i < |v1.names| && v1.names[i] == name && Selected(q, None, v1, i))
  }

  /** Any query of the merged index selects the names that it selects in the newer index, and those that it
      selects in the older one outside the newer one's paths. */
  lemma MergedSelects(q: Query, v: View, order: seq<Origin>, v1: View, v2: View, name: Str)
    requires MergeOf(v, order, v1, v2)
    ensures (exists n: nat :: n < |v.names| && v.names[n] == name && Selected(q, None, v, n))
            <==> SelectedInInputs(q, v1, v2, name)
  {
    hide Sat, Lookup, ValidView, Represented, MergedPaths;
    if n: nat :| n < |v.names| && v.names[n] == name && Selected(q, None, v, n) {
      MergedTrigrams(v, order, v1, v2, n);
      OriginIsChosen(v, order, v1, v2, n);
      var o := order[n];
      assert Selected(q, None, if o.newer then v2 else v1, o.id);
    }
    if i: nat :| i < |v2.names| && v2.names[i] == name && Selected(q, None, v2, i) {
      ChosenSelected(q, v, order, v1, v2, Origin(true, i));
    }
    if i: nat :| !Within(v2.paths, name) && i < |v1.names| && v1.names[i] == name && Selected(q, None, v1, i) {
      ChosenSelected(q, v, order, v1, v2, Origin(false, i));
    }
  }

  lemma OriginIsChosen(v: View, order: seq<Origin>, v1: View, v2: View, n: nat)
    requires MergeOf(v, order, v1, v2) && n < |order|
    ensures var o := order[n];
            v.names[n] == OriginName(o, v1.names, v2.names)
            && if o.newer then o.id < |v2.names| else o.id < |v1.names| && !Within(v2.paths, v1.names[o.id])
  {
    var o := order[n];
    assert o in order && o == Origin(o.newer, o.id);
  }

  lemma ChosenSelected(q: Query, v: View, order: seq<Origin>, v1: View, v2: View, o: Origin)
    requires MergeOf(v, order, v1, v2) && o in order && o.id < |if o.newer then v2.names else v1.names|
    requires Selected(q, None, if o.newer then v2 else v1, o.id)
    ensures exists n: nat :: n < |v.names| && v.names[n] == OriginName(o, v1.names, v2.names) && Selected(q, None, v, n)
  {
    hide Sat, Lookup, ValidView, Represented, MergedPaths, Chosen;
    var n :| 0 <= n < |order| && order[n] == o;
    MergedTrigrams(v, order, v1, v2, n);
    assert Selected(q, None, v, n);
  }

  /** The texts of the merged files. */
  function MergedDocs(order: seq<Origin>, docs1: seq<Str>, docs2: seq<Str>): (docs: seq<Str>)
    ensures |docs| == |order| && forall n :: 0 <= n < |order| ==> docs[n] == OriginName(order[n], docs1, docs2)
  {
    MergedNames(order, docs1, docs2)
  }

  /** Merging is indexing again: if the inputs index their files, the result indexes the files that remain. */
  lemma MergeIndexes(v: View, order: seq<Origin>, v1: View, v2: View, docs1: seq<Str>, docs2: seq<Str>)
    requires MergeOf(v, order, v1, v2) && |docs1| == |v1.names| && |docs2| == |v2.names|
    requires Indexes(v1.postings, docs1) && Indexes(v2.postings, docs2)
    ensures Indexes(v.postings, MergedDocs(order, docs1, docs2))
  {
    hide Lookup, ValidView, Represented, MergedPaths, TrigramNums;
    var docs := MergedDocs(order, docs1, docs2);
    forall t: nat, f: nat
      ensures f in Lookup(v.postings, t) <==> f < |docs| && t in TrigramNums(docs[f])
    {
      assert f in Lookup(v.postings, t) <==> FromOrigin(order, v1.postings, v2.postings, t, f);
      if f < |order| {
        OriginIsChosen(v, order, v1, v2, f);
      }
    }
  }

  /** The result of a merge can be merged again: its names are in strict order, and each starts with one of its
      paths if that was so before. */
  lemma MergeCovered(v: View, order: seq<Origin>, v1: View, v2: View)
    requires MergeOf(v, order, v1, v2) && Covered(v1.paths, v1.names) && Covered(v2.paths, v2.names)
    requires GoodPaths(v1.paths) && GoodPaths(v2.paths)
    ensures StrictNames(v.names) && GoodPaths(v.paths) && Covered(v.paths, v.names)
    ensures SortedPaths(v1.paths) ==> StrictNames(v.paths) && forall p, q :: p in v.paths && q in v.paths && p <= q ==> p == q
  {
    hide ValidView, Chosen, Lookup, Spans;
    assert GoodPaths(v.paths) by {
      forall i | 0 <= i < |v.paths|
        ensures GoodPath(v.paths[i])
      {
        assert v.paths[i] in v1.paths + v2.paths;
      }
    }
    forall name | name in v.names
      ensures Within(v.paths, name)
    {
      var n: nat :| n < |order| && v.names[n] == name;
      OriginIsChosen(v, order, v1, v2, n);
      var from := if order[n].newer then v2 else v1;
      assert name in from.names;
      WithinIsUnder(from.paths, name);
      var p :| p in from.paths && p <= name;
      assert p in v1.paths + v2.paths;
      var q :| q in v.paths && q <= p;
      assert q <= name;
      WithinIsUnder(v.paths, name);
    }
    if SortedPaths(v1.paths) {
      forall p, q | p in v.paths && q in v.paths && p <= q
        ensures p == q
      {
        assert Shortest(q, v1.paths + v2.paths) && Shortest(p, v1.paths + v2.paths);
      }
    }
  }
}
