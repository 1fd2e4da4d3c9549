/** The chain of claims end to end: files, index, regular expression, query, candidate files. */
module EndToEnd {
  import opened Bytes
  import opened Varints
  import opened PostEntries
  import opened RegexpSyntax
  import opened RegexpAnalysis
  import opened RegexpSoundness
  import opened RegexpTheorems
  import opened RegexpEmptyOrs
  import opened Queries
  import opened IndexFormat
  import opened IndexReader
  import opened Postings
  import opened QueryEvaluation
  import opened TextScan
  import opened IndexWriters
  import opened MergeMaps
  import opened Merge
  import ShardIndex
  import ShardQueries

  /** In an index of `docs`, what the lists say about a file is its trigram set. */
  lemma IdTrigramsAre(ps: seq<Posting>, docs: seq<Str>, id: nat)
    requires Indexes(ps, docs) && id < |docs|
    ensures IdTrigrams(ps, id) == TrigramsOf(docs[id])
  {
    forall t: Str
      ensures t in IdTrigrams(ps, id) <==> t in TrigramsOf(docs[id])
    {
      if |t| == 3 {
        TrigramNumsAre(docs[id], t);
      }
    }
  }

  /** `text` contains a word that `re` matches. */
  ghost predicate Matches(re: Regexp, orbit: Orbit, text: Str)
    requires Parsed(re)
  {
    exists at: nat, w: Str :: w in LangOf(re, orbit) && OccursAt(text, at, w)
  }

  lemma MatchSatisfiesQuery(re: Regexp, orbit: Orbit, text: Str)
    requires Parsed(re) && Matches(re, orbit, text)
    ensures Sat(RegexpQuery(re, orbit), TrigramsOf(text))
  {
    hide RegexpQuery, LangOf, TrigramsOf;
    var at: nat, w: Str :| w in LangOf(re, orbit) && OccursAt(text, at, w);
    RegexpQueryConservative(re, orbit, text, at, w);
  }

  /** The candidates for `re`: exactly the files whose trigrams satisfy its query, and so at least every
      file that contains a match. */
  method Candidates(ix: Index, re: Regexp, orbit: Orbit, ghost v: View, ghost docs: seq<Str>)
    returns (ids: seq<uint32>)
    requires Represents(ix, v) && Parsed(re)
    requires |docs| == |v.names| && Indexes(v.postings, docs)
    ensures Increasing(ids)
    ensures forall id: nat :: id in ids <==> id < |docs| && Sat(RegexpQuery(re, orbit), TrigramsOf(docs[id]))
    ensures forall id: nat :: id < |docs| && Matches(re, orbit, docs[id]) ==> id in ids
  {
    hide RegexpQuery, LangOf, Represents, Indexes, Matches, TrigramsOf, Sat;
    var q := RegexpQuery(re, orbit);
    RegexpQueryWellFormed(re, orbit);
    WellFormedEvaluable(q);
    var list := PostingQuery(ix, q, Nil, v);
    ids := Elems(list);
    forall id: nat
      ensures id in ids <==> id < |docs| && Sat(q, TrigramsOf(docs[id]))
    {
      if id < |docs| {
        IdTrigramsAre(v.postings, docs, id);
      }
    }
    forall id: nat | id < |docs| && Matches(re, orbit, docs[id])
      ensures id in ids
    {
      MatchSatisfiesQuery(re, orbit, docs[id]);
    }
  }

  datatype SourceFile = SourceFile(name: Str, text: Str)

  /** The accepted files, in the order they were added. */
  function AcceptedFiles(files: seq<SourceFile>): seq<SourceFile> {
    if files == [] then []
    else
      var a := AcceptedFiles(files[..|files| - 1]);
      var f := files[|files| - 1];
      if Accepted(f.text) then a + [f] else a
  }

  lemma {:induction false} AcceptedElements(files: seq<SourceFile>)
    ensures forall f :: f in AcceptedFiles(files) <==> f in files && Accepted(f.text)
    ensures |AcceptedFiles(files)| <= |files|
  {
    if files != [] {
      AcceptedElements(files[..|files| - 1]);
      assert files == files[..|files| - 1] + [files[|files| - 1]];
    }
  }

  ghost predicate Holds(names: seq<Str>, docs: seq<Str>, fs: seq<SourceFile>) {
    |names| == |docs| == |fs| && forall i :: 0 <= i < |fs| ==> names[i] == fs[i].name && docs[i] == fs[i].text
  }

  /** Adds files one after the other. */
  method AddAll(ix: IndexWriter, files: seq<SourceFile>)
    requires ix.Valid() && ix.names == [] && ix.docs == [] && ix.npost > 0 && |files| < NoId - 1
    requires forall f :: f in files ==> 0 !in f.name
    modifies ix, ix.trigram, ix.trigram.sparse
    ensures ix.Valid() && ix.paths == old(ix.paths) && Holds(ix.names, ix.docs, AcceptedFiles(files))
  {
    hide IndexWriter.Valid, Accepted;
    assert ix.numName == 0 by {
      EmptyWriter(ix);
    }
    assert files[..0] == [];
    for k := 0 to |files|
      invariant ix.Valid() && ix.paths == old(ix.paths) && Holds(ix.names, ix.docs, AcceptedFiles(files[..k]))
      invariant ix.trigram.sparse == old(ix.trigram.sparse)
    {
      assert files[k] in files && files[..k + 1][..k] == files[..k];
      AcceptedElements(files[..k]);
      WriterSizes(ix);
      var r := ix.Add(files[k].name, files[k].text);
    }
    assert files[..|files|] == files;
  }

  lemma EmptyWriter(ix: IndexWriter)
    requires ix.Valid() && ix.names == []
    ensures ix.numName == 0
  {
  }

  lemma WriterSizes(ix: IndexWriter)
    requires ix.Valid()
    ensures ix.numName == |ix.names|
  {
  }

  /** `file` is an index of some accepted files: their names, and for each trigram the ones that contain it. */
  ghost predicate IsIndexOf(file: Str, paths: seq<Str>, fs: seq<SourceFile>) {
    exists names, docs, ps: seq<Posting> :: Holds(names, docs, fs) && Written(file, paths, names, docs, ps)
  }

  ghost predicate Written(file: Str, paths: seq<Str>, names: seq<Str>, docs: seq<Str>, ps: seq<Posting>) {
    file == FileBytes(WrittenSections(paths, names, ps)) && ValidPostings(ps, |names|) && Indexes(ps, docs)
  }

  /** The accepted file's trigrams satisfy the query of `re`. */
  ghost predicate Passes(re: Regexp, orbit: Orbit, f: SourceFile)
    requires Parsed(re)
  {
    Accepted(f.text) && Sat(RegexpQuery(re, orbit), TrigramsOf(f.text))
  }

  /** cindex followed by csearch: index the files, open the index, evaluate the query of `re`. When the index
      stays under 4 GB, the result names exactly the accepted files whose trigrams satisfy the query, and
      with them every accepted file that contains a match. */
  method IndexAndSearch(paths: seq<Str>, files: seq<SourceFile>, bufferSize: nat, re: Regexp, orbit: Orbit)
    returns (file: Str, found: Option<seq<Str>>)
    requires bufferSize > 0 && |files| < NoId - 1 && Parsed(re)
    requires forall p :: p in paths ==> p != [] && 0 !in p
    requires forall f :: f in files ==> 0 !in f.name
    ensures IsIndexOf(file, paths, AcceptedFiles(files))
    ensures found.None? <==> |file| >= TwoTo32
    ensures found.Some? ==> forall n :: n in found.value <==> exists f :: f in files && f.name == n && Passes(re, orbit, f)
    ensures found.Some? ==>
              forall f :: f in files && Accepted(f.text) && Matches(re, orbit, f.text) ==> f.name in found.value
  {
    hide *;
    var w := new IndexWriter(bufferSize);
    w.AddPaths(paths);
    AddAll(w, files);
    ghost var fs, names, docs := AcceptedFiles(files), w.names, w.docs;
    AcceptedElements(files);
    WriterNames(w);
    ghost var ps;
    file, ps := w.Flush();
    assert paths == w.paths;
    FileIs(file, paths, names, docs, ps, fs);
    if |file| >= TwoTo32 {
      return file, None;
    }
    ghost var v := View(paths, names, ps);
    ViewOk(v);
    WrittenRepresents(paths, names, ps);
    var ix := Open(file);
    HoldsCount(names, docs, fs);
    var ids := Candidates(ix.value, re, orbit, v, docs);
    var result := NamesOf(ix.value, ids, v);
    FoundExactly(re, orbit, files, fs, names, docs, ids, result);
    found := Some(result);
  }

  lemma FileIs(file: Str, paths: seq<Str>, names: seq<Str>, docs: seq<Str>, ps: seq<Posting>, fs: seq<SourceFile>)
    requires Holds(names, docs, fs) && file == FileBytes(WrittenSections(paths, names, ps))
    requires ValidPostings(ps, |names|) && Indexes(ps, docs)
    ensures IsIndexOf(file, paths, fs)
  {
    hide Holds, WrittenSections, FileBytes, ValidPostings, Indexes;
    assert Written(file, paths, names, docs, ps);
  }

  lemma ViewOk(v: View)
    requires (forall p :: p in v.paths ==> p != [] && 0 !in p) && ValidNames(v.names) && |v.names| < NoId
    requires ValidPostings(v.postings, |v.names|)
    ensures ValidView(v)
  {
  }

  lemma HoldsCount(names: seq<Str>, docs: seq<Str>, fs: seq<SourceFile>)
    requires Holds(names, docs, fs)
    ensures |docs| == |names|
  {
  }

  /** From ids to names. */
  lemma FoundExactly(re: Regexp, orbit: Orbit, files: seq<SourceFile>, fs: seq<SourceFile>, names: seq<Str>,
                     docs: seq<Str>, ids: seq<uint32>, result: seq<Str>)
    requires Parsed(re) && Holds(names, docs, fs) && forall f :: f in fs <==> f in files && Accepted(f.text)
    requires forall id: nat :: id in ids <==> id < |docs| && Sat(RegexpQuery(re, orbit), TrigramsOf(docs[id]))
    requires forall id: nat :: id < |docs| && Matches(re, orbit, docs[id]) ==> id in ids
    requires |result| == |ids| && forall k :: 0 <= k < |ids| ==> ids[k] < |names| && result[k] == names[ids[k]]
    requires forall id :: id in ids ==> id < |names| && names[id] in result
    ensures forall n :: n in result <==> exists f :: f in files && f.name == n && Passes(re, orbit, f)
    ensures forall f :: f in files && Accepted(f.text) && Matches(re, orbit, f.text) ==> f.name in result
  {
    hide RegexpQuery, LangOf, Sat, TrigramsOf, Accepted, Matches;
    forall f | f in files && Accepted(f.text)
      ensures Matches(re, orbit, f.text) || Passes(re, orbit, f) ==> f.name in result
    {
      var i :| 0 <= i < |fs| && fs[i] == f;
      assert names[i] == f.name && docs[i] == f.text;
    }
    forall n | n in result
      ensures exists f :: f in files && f.name == n && Passes(re, orbit, f)
    {
      var k :| 0 <= k < |ids| && result[k] == n;
      assert ids[k] in ids && fs[ids[k]] in fs;
      assert Passes(re, orbit, fs[ids[k]]);
    }
  }

  ghost predicate ValidNames(names: seq<Str>) {
    forall n :: n in names ==> 0 !in n
  }

  lemma WriterNames(w: IndexWriter)
    requires w.Valid()
    ensures ValidNames(w.names) && |w.names| < NoId
  {
  }

  /** The names of the candidates. */
  method NamesOf(ix: Index, ids: seq<uint32>, ghost v: View) returns (names: seq<Str>)
    requires Represents(ix, v) && forall id: nat :: id in ids ==> id < |v.names|
    ensures |names| == |ids| && forall k :: 0 <= k < |ids| ==> ids[k] < |v.names| && names[k] == v.names[ids[k]]
    ensures forall id :: id in ids ==> v.names[id] in names
  {
    hide Represents;
    names := [];
    for k := 0 to |ids|
      invariant |names| == k
      invariant forall h :: 0 <= h < k ==> ids[h] < |v.names| && names[h] == v.names[ids[h]]
    {
      assert ids[k] in ids;
      var name := Name(ix, ids[k], v);
      names := names + [name];
    }
    forall id | id in ids
      ensures v.names[id] in names
    {
      var k :| 0 <= k < |ids| && ids[k] == id;
      assert names[k] == v.names[id];
    }
  }

  // ---------------------------------------------------------------- searching a merged index

  /** File `i` of an index passes the query of `re`. */
  ghost predicate Hit(re: Regexp, orbit: Orbit, names: seq<Str>, docs: seq<Str>, name: Str, i: nat)
    requires Parsed(re)
  {
    i < |names| && i < |docs| && names[i] == name && Sat(RegexpQuery(re, orbit), TrigramsOf(docs[i]))
  }

  ghost predicate HitIn(re: Regexp, orbit: Orbit, names: seq<Str>, docs: seq<Str>, name: Str)
    requires Parsed(re)
  {
    exists i: nat :: Hit(re, orbit, names, docs, name, i)
  }

  /** The name is to be found after merging: in the newer index, or in the older one outside the newer one's paths. */
  ghost predicate HitInInputs(re: Regexp, orbit: Orbit, v1: View, v2: View, docs1: seq<Str>, docs2: seq<Str>, name: Str)
    requires Parsed(re)
  {
    HitIn(re, orbit, v2.names, docs2, name)
    || (!Within(v2.paths, name) && HitIn(re, orbit, v1.names, docs1, name))
  }

  lemma MergedHits(re: Regexp, orbit: Orbit, v: View, order: seq<Origin>, v1: View, v2: View, docs1: seq<Str>,
                   docs2: seq<Str>, name: Str)
    requires Parsed(re) && MergeOf(v, order, v1, v2) && |docs1| == |v1.names| && |docs2| == |v2.names|
    ensures HitIn(re, orbit, v.names, MergedDocs(order, docs1, docs2), name)
            <==> HitInInputs(re, orbit, v1, v2, docs1, docs2, name)
  {
    hide Hit, MergeOf, Within;
    var docs := MergedDocs(order, docs1, docs2);
    if i: nat :| Hit(re, orbit, v.names, docs, name, i) {
      OriginHit(re, orbit, v, order, v1, v2, docs1, docs2, name, i);
    }
    HitIsThere(re, orbit, name);
    if h: nat :| Hit(re, orbit, v2.names, docs2, name, h) {
      PlaceOf(re, orbit, v, order, v1, v2, docs1, docs2, Origin(true, h));
    }
    if !Within(v2.paths, name) {
      if h: nat :| Hit(re, orbit, v1.names, docs1, name, h) {
        PlaceOf(re, orbit, v, order, v1, v2, docs1, docs2, Origin(false, h));
      }
    }
  }

  lemma HitIsThere(re: Regexp, orbit: Orbit, name: Str)
    requires Parsed(re)
    ensures forall names, docs, i: nat :: Hit(re, orbit, names, docs, name, i) ==> i < |names| && names[i] == name
  {
  }

  lemma OriginHit(re: Regexp, orbit: Orbit, v: View, order: seq<Origin>, v1: View, v2: View, docs1: seq<Str>,
                  docs2: seq<Str>, name: Str, i: nat)
    requires Parsed(re) && MergeOf(v, order, v1, v2) && |docs1| == |v1.names| && |docs2| == |v2.names|
    requires Hit(re, orbit, v.names, MergedDocs(order, docs1, docs2), name, i)
    ensures HitInInputs(re, orbit, v1, v2, docs1, docs2, name)
  {
    OriginIsChosen(v, order, v1, v2, i);
    hide RegexpQuery, Sat, TrigramsOf, Within, MergeOf;
    var o := order[i];
    if o.newer {
      assert Hit(re, orbit, v2.names, docs2, name, o.id);
    } else {
      assert Hit(re, orbit, v1.names, docs1, name, o.id);
    }
  }

  lemma PlaceOf(re: Regexp, orbit: Orbit, v: View, order: seq<Origin>, v1: View, v2: View, docs1: seq<Str>,
                docs2: seq<Str>, o: Origin)
    requires Parsed(re) && MergeOf(v, order, v1, v2) && |docs1| == |v1.names| && |docs2| == |v2.names|
    requires o.id < |if o.newer then v2.names else v1.names|
    requires !o.newer ==> !Within(v2.paths, v1.names[o.id])
    requires var names, docs := if o.newer then v2.names else v1.names, if o.newer then docs2 else docs1;
             Hit(re, orbit, names, docs, names[o.id], o.id)
    ensures HitIn(re, orbit, v.names, MergedDocs(order, docs1, docs2), if o.newer then v2.names[o.id] else v1.names[o.id])
  {
    hide RegexpQuery, Sat, TrigramsOf, Within, ValidView;
    assert o in order;
    var n :| 0 <= n < |order| && order[n] == o;
    var name := if o.newer then v2.names[o.id] else v1.names[o.id];
    assert Hit(re, orbit, v.names, MergedDocs(order, docs1, docs2), name, n);
  }

  /** Merging two indexes and searching the result: the names found are those of the files that the query selects in
      the newer index, and in the older one outside the newer one's paths; no file with a match is missing. */
  method MergeAndSearch(src1: Str, src2: Str, re: Regexp, orbit: Orbit, ghost v1: View, ghost v2: View,
                        ghost docs1: seq<Str>, ghost docs2: seq<Str>)
    returns (dst: Option<Str>, found: Option<seq<Str>>, ghost v: View, ghost docs: seq<Str>)
    requires Open(src1).Some? && Represents(Open(src1).value, v1) && |docs1| == |v1.names| && Indexes(v1.postings, docs1)
    requires Open(src2).Some? && Represents(Open(src2).value, v2) && |docs2| == |v2.names| && Indexes(v2.postings, docs2)
    requires Mergeable(v1, v2) && Parsed(re)
    ensures dst.Some? <==> Covered(v2.paths, v2.names)
    ensures found.Some? <==> dst.Some? && |dst.value| < TwoTo32
    ensures found.Some? ==> forall n :: n in found.value <==> HitInInputs(re, orbit, v1, v2, docs1, docs2, n)
    ensures found.Some? ==> forall i: nat :: i < |docs2| && Matches(re, orbit, docs2[i]) ==> v2.names[i] in found.value
    ensures found.Some? ==> forall i: nat :: i < |docs1| && Matches(re, orbit, docs1[i]) && !Within(v2.paths, v1.names[i])
                                             ==> v1.names[i] in found.value
    ensures found.Some? ==> Open(dst.value).Some? && Represents(Open(dst.value).value, v)
                            && |docs| == |v.names| && Indexes(v.postings, docs)
  {
    hide *;
    ghost var order;
    dst, v, order := MergeFiles(src1, src2, v1, v2);
    if dst.None? || |dst.value| >= TwoTo32 {
      return dst, None, v, [];
    }
    docs := MergedDocs(order, docs1, docs2);
    MergeIndexes(v, order, v1, v2, docs1, docs2);
    MergedCount(v, order, v1, v2);
    var ix := Open(dst.value).value;
    var ids := Candidates(ix, re, orbit, v, docs);
    var names := NamesOf(ix, ids, v);
    forall n
      ensures n in names <==> HitInInputs(re, orbit, v1, v2, docs1, docs2, n)
    {
      NamesAreHits(re, orbit, v.names, docs, ids, names, n);
      MergedHits(re, orbit, v, order, v1, v2, docs1, docs2, n);
    }
    forall i: nat | i < |docs2| && Matches(re, orbit, docs2[i])
      ensures v2.names[i] in names
    {
      MatchHit(re, orbit, v2.names, docs2, i);
      HitWanted(re, orbit, v1, v2, docs1, docs2, v2.names[i]);
    }
    forall i: nat | i < |docs1| && Matches(re, orbit, docs1[i]) && !Within(v2.paths, v1.names[i])
      ensures v1.names[i] in names
    {
      MatchHit(re, orbit, v1.names, docs1, i);
      HitWanted(re, orbit, v1, v2, docs1, docs2, v1.names[i]);
    }
    found := Some(names);
  }

  lemma MatchHit(re: Regexp, orbit: Orbit, names: seq<Str>, docs: seq<Str>, i: nat)
    requires Parsed(re) && i < |names| == |docs| && Matches(re, orbit, docs[i])
    ensures HitIn(re, orbit, names, docs, names[i])
  {
    hide RegexpQuery, Sat, TrigramsOf, Matches;
    MatchSatisfiesQuery(re, orbit, docs[i]);
    assert Hit(re, orbit, names, docs, names[i], i);
  }

  lemma HitWanted(re: Regexp, orbit: Orbit, v1: View, v2: View, docs1: seq<Str>, docs2: seq<Str>, name: Str)
    requires Parsed(re)
    requires HitIn(re, orbit, v2.names, docs2, name) || (!Within(v2.paths, name) && HitIn(re, orbit, v1.names, docs1, name))
    ensures HitInInputs(re, orbit, v1, v2, docs1, docs2, name)
  {
  }

  lemma MergedCount(v: View, order: seq<Origin>, v1: View, v2: View)
    requires MergeOf(v, order, v1, v2)
    ensures |v.names| == |order|
  {
  }

  lemma NamesAreHits(re: Regexp, orbit: Orbit, vnames: seq<Str>, docs: seq<Str>, ids: seq<uint32>, names: seq<Str>, n: Str)
    requires Parsed(re) && |docs| == |vnames|
    requires forall id: nat :: id in ids <==> id < |docs| && Sat(RegexpQuery(re, orbit), TrigramsOf(docs[id]))
    requires |names| == |ids| && forall k :: 0 <= k < |ids| ==> ids[k] < |vnames| && names[k] == vnames[ids[k]]
    requires forall id :: id in ids ==> id < |vnames| && vnames[id] in names
    ensures n in names <==> HitIn(re, orbit, vnames, docs, n)
  {
    hide RegexpQuery, Sat, TrigramsOf;
    if n in names {
      var k :| 0 <= k < |names| && names[k] == n;
      assert ids[k] in ids && Hit(re, orbit, vnames, docs, n, ids[k]);
    }
    if i: nat :| Hit(re, orbit, vnames, docs, n, i) {
      assert i in ids;
    }
  }

  // ---------------------------------------------------------------- the second index

  lemma DocTrigramsAre(pl: ShardIndex.PostingLists, texts: seq<Str>, d: nat)
    requires ShardIndex.ValidLists(pl)
    requires forall t: nat, e: nat :: ShardIndex.Listed(pl, t, e) <==> e < |texts| && t in TrigramNums(texts[e])
    ensures ShardQueries.DocTrigrams(pl, d) == if d < |texts| then TrigramsOf(texts[d]) else iset{}
  {
    hide ShardIndex.ValidLists, ShardIndex.Listed, TrigramNums, TrigramsOf;
    forall t: Str
      ensures t in ShardQueries.DocTrigrams(pl, d) <==> d < |texts| && t in TrigramsOf(texts[d])
    {
      if |t| == 3 && d < |texts| {
        TrigramNumsAre(texts[d], t);
      }
      if d < |texts| && t in TrigramsOf(texts[d]) {
        OnlyTrigrams(texts[d], t);
      }
    }
  }

  lemma OnlyTrigrams(text: Str, t: Str)
    requires t in TrigramsOf(text)
    ensures |t| == 3
  {
  }

  /** Evaluation without a filter does stop, on an ordinary regexp. */
  lemma ShardStops(orbit: Orbit)
    ensures Parsed(AabOrBaaTwice) && ShardQueries.Panics(RegexpQuery(AabOrBaaTwice, orbit))
  {
    hide RegexpQuery;
    EmptyOrsArise(orbit);
    var q := RegexpQuery(AabOrBaaTwice, orbit);
    var e := Query(QOr, [], []);
    assert ShardQueries.GivesNil(e) && ShardQueries.Panics(q.sub[0]);
  }

  /** The first step of a search on the server: build a shard of the texts, and evaluate the query of `re` without a
      filter. Unless evaluation stops on a nil bitmap or answers with one, which the shape of the query alone decides,
      the documents are exactly those whose trigrams satisfy the query, each one with a match among them. */
  method ShardCandidates(texts: seq<Str>, re: Regexp, orbit: Orbit) returns (panic: bool, found: Option<set<nat>>)
    requires Parsed(re)
    ensures panic <==> ShardQueries.Panics(RegexpQuery(re, orbit))
    ensures !panic ==> (found.None? <==> RegexpQuery(re, orbit) == AllQuery || ShardQueries.Hollow(RegexpQuery(re, orbit)))
    ensures found.Some? ==> forall d: nat :: d in found.value <==>
              d < |texts| && Sat(RegexpQuery(re, orbit), TrigramsOf(texts[d]))
    ensures found.Some? ==> forall d: nat :: d < |texts| && Matches(re, orbit, texts[d]) ==> d in found.value
  {
    hide RegexpQuery, LangOf, Matches, TrigramsOf, TrigramNums, Sat, WellFormed, ShardIndex.ValidLists, ShardIndex.Listed;
    hide ShardQueries.Panics, ShardQueries.Hollow, ShardQueries.GivesNil, ShardQueries.Found, ShardQueries.DocTrigrams;
    var q := RegexpQuery(re, orbit);
    RegexpQueryWellFormed(re, orbit);
    WellFormedEvaluable(q);
    var pl := ShardIndex.BuildShard(texts);
    var docs;
    panic, docs := ShardQueries.PostingQuery(pl, q, null);
    ShardQueries.WellFormedNil(q);
    if panic || docs == null {
      return panic, None;
    }
    found := Some(docs.docs);
    forall d: nat
      ensures d in found.value <==> d < |texts| && Sat(q, TrigramsOf(texts[d]))
    {
      DocTrigramsAre(pl, texts, d);
      ShardQueries.WellFormedFound(q, ShardQueries.DocTrigrams(pl, d));
      if d >= |texts| {
        ShardQueries.NothingFound(q);
      }
    }
    forall d: nat | d < |texts| && Matches(re, orbit, texts[d])
      ensures d in found.value
    {
      MatchSatisfiesQuery(re, orbit, texts[d]);
    }
  }
}
