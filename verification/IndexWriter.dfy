/** Building an index (index/write.go, IndexWriter). */
module IndexWriters {
  import opened Bytes
  import opened Varints
  import opened PostEntries
  import opened PostHeaps
  import opened IndexFormat
  import opened IndexReader
  import opened SparseSets
  import opened TextScan
  import opened PostMerge

  // ---------------------------------------------------------------- the entries of a set of files

  /** File `FileId(p)` contains the trigram of `p`. */
  ghost predicate IsEntry(docs: seq<Str>, p: postEntry) {
    FileId(p) < |docs| && Trigram(p) in TrigramNums(docs[FileId(p)])
  }

  /** `all` has each entry of the files once, those of the next file with a trigram in `ts` once, and
      nothing else. */
  ghost predicate RecordsUpTo(docs: seq<Str>, ts: seq<nat>, all: multiset<postEntry>) {
    forall p :: all[p] == if IsEntry(docs, p) || (FileId(p) == |docs| && Trigram(p) in ts) then 1 else 0
  }

  ghost predicate Records(docs: seq<Str>, all: multiset<postEntry>) {
    RecordsUpTo(docs, [], all)
  }

  /** No entry twice, and no entry with the sentinel's trigram. */
  ghost predicate Simple(all: multiset<postEntry>) {
    forall p :: all[p] <= 1 && (p in all ==> Trigram(p) < AllOnes)
  }

  lemma RecordsSimple(docs: seq<Str>, all: multiset<postEntry>)
    requires Records(docs, all) && forall d :: d in docs ==> Accepted(d)
    ensures Simple(all)
  {
    forall p | p in all
      ensures Trigram(p) < AllOnes
    {
      assert IsEntry(docs, p);
      assert docs[FileId(p)] in docs;
      NoSentinel(docs[FileId(p)], Trigram(p));
    }
  }

  ghost function RunsBag(runs: seq<seq<postEntry>>): multiset<postEntry> {
    if runs == [] then multiset{} else RunsBag(runs[..|runs| - 1]) + multiset(runs[|runs| - 1])
  }

  predicate InFileOrder(post: seq<postEntry>) {
    forall i, j :: 0 <= i < j < |post| ==> FileId(post[i]) <= FileId(post[j])
  }

  /** An entry that occurs at most once occurs at one place. */
  lemma CountedOnce(post: seq<postEntry>, i: nat, j: nat)
    requires i < j < |post| && multiset(post)[post[j]] <= 1
    ensures post[i] != post[j]
  {
    var s, t := post[..j], post[j..];
    assert post == s + t;
    assert t[0] == post[j] && multiset(t)[post[j]] >= 1;
    assert s[i] == post[i] && post[i] in multiset(s);
  }

  /** The buffer sorts into a strictly increasing run of the same entries. */
  lemma SortedRun(post: seq<postEntry>, others: multiset<postEntry>)
    requires InFileOrder(post) && Simple(others + multiset(post))
    ensures Increasing(RadixSorted(post)) && multiset(RadixSorted(post)) == multiset(post)
  {
    var all := others + multiset(post);
    forall p | p in post
      ensures Trigram(p) < 0x100_0000
    {
      assert p in all;
    }
    forall i, j | 0 <= i < j < |post|
      ensures FileId(post[i]) <= FileId(post[j]) && post[i] != post[j]
    {
      assert all[post[j]] <= 1;
      CountedOnce(post, i, j);
    }
    RadixSortedCorrect(post);
  }

  /** One more entry of the file being added. */
  lemma PushEntry(docs: seq<Str>, ts: seq<nat>, k: nat, all: multiset<postEntry>)
    requires Distinct(ts) && k < |ts| && RecordsUpTo(docs, ts[..k], all) && Simple(all)
    requires ts[k] < AllOnes && |docs| < NoId
    ensures var p := MakePostEntry(ts[k], |docs|);
            RecordsUpTo(docs, ts[..k + 1], all + multiset{p}) && Simple(all + multiset{p})
  {
    var e := MakePostEntry(ts[k], |docs|);
    PackUnpack(ts[k], |docs|);
    assert ts[..k + 1] == ts[..k] + [ts[k]];
    forall p
      ensures (all + multiset{e})[p] ==
              if IsEntry(docs, p) || (FileId(p) == |docs| && Trigram(p) in ts[..k + 1]) then 1 else 0
    {
      EntryOrder(p, e);
      if p == e {
        assert ts[k] !in ts[..k];
      }
    }
    assert forall p :: p in all + multiset{e} ==> p in all || p == e;
  }

  /** With all the trigrams of its text pushed, the file is recorded. */
  lemma FileRecorded(docs: seq<Str>, text: Str, ts: seq<nat>, all: multiset<postEntry>)
    requires RecordsUpTo(docs, ts, all) && Members(ts) == TrigramNums(text)
    ensures Records(docs + [text], all)
  {
    forall p
      ensures all[p] == if IsEntry(docs + [text], p) then 1 else 0
    {
      assert Trigram(p) in ts <==> Trigram(p) in Members(ts);
    }
  }

  lemma {:induction false} MembersCount(s: seq<nat>)
    requires Distinct(s)
    ensures |Members(s)| == |s|
  {
    if s != [] {
      var t := s[..|s| - 1];
      MembersCount(t);
      assert s == t + [s[|s| - 1]];
      assert Members(s) == Members(t) + {s[|s| - 1]};
    }
  }

  // ---------------------------------------------------------------- the writer

  /** What Add did with a file. */
  datatype Outcome = Indexed(fileid: nat) | Skipped | Fatal

  class IndexWriter {
    const npost: nat                     // how many entries the buffer holds
    const trigram: Set                   // trigrams of the current file
    var paths: seq<Str>
    var nameData: Str
    var nameIndex: Str
    var numName: nat
    var post: seq<postEntry>             // the buffer of entries
    var postFile: seq<seq<postEntry>>    // flushed runs
    ghost var names: seq<Str>
    ghost var docs: seq<Str>             // the texts of the accepted files

    ghost predicate Valid()
      reads this, trigram, trigram.sparse
    {
      && trigram.Valid() && trigram.sparse.Length == 0x100_0000
      && numName == |names| == |docs| < NoId
      && nameData == Terminated(names) && nameIndex == NameOffsets(names)
      && (forall n :: n in names ==> 0 !in n)
      && (forall d :: d in docs ==> Accepted(d))
      && Buffered() && Records(docs, AllEntries())
    }

    /** The buffer is in file order, the runs are sorted, and no entry is there twice. */
    ghost predicate Buffered()
      reads this`post, this`postFile
    {
      && |post| <= npost
      && InFileOrder(post)
      && (forall r :: r in postFile ==> Increasing(r))
      && Simple(AllEntries())
    }

    ghost function AllEntries(): multiset<postEntry>
      reads this`post, this`postFile
    {
      RunsBag(postFile) + multiset(post)
    }

    /** Create. */
    constructor (bufferSize: nat)
      requires bufferSize > 0
      ensures Valid() && names == [] && docs == [] && paths == [] && npost == bufferSize
      ensures fresh(trigram) && fresh(trigram.sparse)
    {
      npost := bufferSize;
      trigram := new Set(0x100_0000);
      paths, nameData, nameIndex, numName := [], [], [], 0;
      post, postFile := [], [];
      names, docs := [], [];
    }

    method AddPaths(ps: seq<Str>)
      requires Valid()
      modifies this`paths
      ensures Valid() && paths == old(paths) + ps
    {
      paths := paths + ps;
    }

    /** flushPost: sorts the buffer into a new run. The source fails on an empty buffer. */
    method FlushPost()
      requires Buffered() && |post| > 0
      modifies this`post, this`postFile
      ensures Buffered() && post == [] && AllEntries() == old(AllEntries())
    {
      var run := SortBuffer();
      assert (postFile + [run])[..|postFile|] == postFile;
      postFile := postFile + [run];
      post := [];
    }

    /** The buffer, sorted by sortPost. */
    method SortBuffer() returns (run: seq<postEntry>)
      requires Buffered()
      ensures Increasing(run) && multiset(run) == multiset(post)
    {
      var entries := post;
      var buffer := new postEntry[|entries|](i requires 0 <= i < |entries| => entries[i]);
      assert buffer[..] == post;
      SortPost(buffer);
      run := buffer[..];
      SortedRun(post, RunsBag(postFile));
    }

    /** addName, for a name without NUL. */
    method AddName(name: Str) returns (fileid: nat)
      requires 0 !in name && nameData == Terminated(names) && nameIndex == NameOffsets(names) && numName == |names|
      modifies this`nameData, this`nameIndex, this`numName, this`names
      ensures fileid == old(numName) && numName == fileid + 1 && names == old(names) + [name]
      ensures nameData == Terminated(names) && nameIndex == NameOffsets(names)
    {
      NamesAppend(names, name);
      nameIndex := nameIndex + U32(|nameData|);
      nameData := nameData + (name + [0]);
      fileid := numName;
      numName := numName + 1;
      names := names + [name];
    }

    /** Add: a file is indexed exactly when its text is accepted; a NUL in its name stops the program. */
    method Add(name: Str, text: Str) returns (r: Outcome)
      requires Valid() && numName < NoId - 1 && npost > 0
      modifies this, trigram, trigram.sparse
      ensures Valid() && paths == old(paths) && trigram.sparse == old(trigram.sparse)
      ensures r == if !Accepted(text) then Skipped else if 0 in name then Fatal else Indexed(old(numName))
      ensures r.Indexed? ==> names == old(names) + [name] && docs == old(docs) + [text]
      ensures !r.Indexed? ==> names == old(names) && docs == old(docs)
    {
      hide Buffered, Records, Scannable, Terminated, NameOffsets, IndexWriter.AllEntries;
      var ok := TextScan.Scan(trigram, text);
      if !ok {
        return Skipped;
      }
      assert |trigram.dense| == |TrigramNums(text)| by {
        trigram.ValidDistinct();
        MembersCount(trigram.dense);
      }
      if |trigram.dense| > MaxTextTrigrams {
        return Skipped;
      }
      if 0 in name {
        return Fatal;
      }
      var fileid := AddName(name);
      PostTrigrams(fileid, text);
      r := Indexed(fileid);
    }

    /** The last loop of Add: an entry for each trigram, flushing whenever the buffer is full. */
    method PostTrigrams(fileid: nat, ghost text: Str)
      requires Buffered() && Records(docs, AllEntries()) && fileid == |docs| < NoId && npost > 0
      requires trigram.Valid() && Members(trigram.dense) == TrigramNums(text) && Scannable(text)
      modifies this`post, this`postFile, this`docs
      ensures Buffered() && Records(docs, AllEntries()) && docs == old(docs) + [text]
    {
      hide Buffered, Records, RecordsUpTo, Scannable, Distinct;
      trigram.ValidDistinct();
      var dense := trigram.dense;
      assert RecordsUpTo(docs, dense[..0], AllEntries()) && forall p :: p in post ==> FileId(p) <= fileid by {
        NothingPushed(docs, dense, AllEntries(), RunsBag(postFile), post);
      }
      for k := 0 to |dense|
        invariant Buffered() && docs == old(docs) && RecordsUpTo(docs, dense[..k], AllEntries())
        invariant forall p :: p in post ==> FileId(p) <= fileid
      {
        PostOne(fileid, dense, k, text);
      }
      assert dense[..|dense|] == dense;
      FileRecorded(docs, text, dense, AllEntries());
      docs := docs + [text];
    }

    /** The heap that mergePost reads: every flushed run, and the buffer sorted. */
    method Heap() returns (h: PostHeap)
      requires Buffered()
      ensures h.Valid() && h.Contents() == AllEntries() && fresh(h)
    {
      hide RecordsUpTo, Simple, InFileOrder, PostHeap.Valid, Increasing, Ordered;
      h := new PostHeap();
      for k := 0 to |postFile|
        invariant fresh(h) && h.Valid() && h.Contents() == RunsBag(postFile[..k])
      {
        assert postFile[k] in postFile;
        IncreasingOrdered(postFile[k]);
        assert postFile[..k + 1][..k] == postFile[..k];
        h.AddMem(postFile[k]);
      }
      assert postFile[..|postFile|] == postFile;
      var run := SortBuffer();
      IncreasingOrdered(run);
      h.AddMem(run);
    }

    /** Flush: the file that records the paths, the names and, for each trigram, the files that contain it.
        The source stops with an error when the file would pass 4 GB. */
    method Flush() returns (file: Str, ghost ps: seq<Posting>)
      requires Valid()
      modifies this`nameData, this`nameIndex, this`numName, this`names
      ensures file == FileBytes(WrittenSections(old(paths), old(names), ps))
      ensures ValidPostings(ps, |old(names)|) && Indexes(ps, old(docs))
    {
      hide Records, GoodEntries, Indexes, Lookup, Terminated, NameOffsets, PostingData, EntryData, TrigramNums,
        Held, PostHeap.Valid, Increasing, FileBytes;
      ghost var all, ns, ds := AllEntries(), names, docs;
      RecordsGood(ds, all);
      var h := Heap();
      var posts, index, n;
      posts, index, n, ps := MergePost(h, all, |ds|);
      ListsIndex(ds, all, ps);
      var _ := AddName([]);
      var pathData := WritePaths();
      assert nameData == Terminated(ns + [[]]) && nameIndex == NameOffsets(ns + [[]]);
      file := FileBytes(Sections(pathData + [0], nameData, posts, nameIndex, index));
    }

    /** The loop of Flush that writes the paths. */
    method WritePaths() returns (pathData: Str)
      ensures pathData == Terminated(paths)
    {
      pathData := [];
      assert paths[..0] == [];
      for k := 0 to |paths|
        invariant pathData == Terminated(paths[..k])
      {
        assert paths[..k + 1] == paths[..k] + [paths[k]];
        NamesAppend(paths[..k], paths[k]);
        pathData := pathData + (paths[k] + [0]);
      }
      assert paths[..|paths|] == paths;
    }

    /** The body of that loop. */
    method PostOne(fileid: nat, dense: seq<nat>, k: nat, ghost text: Str)
      requires Buffered() && fileid == |docs| < NoId && npost > 0
      requires k < |dense| && Distinct(dense) && Members(dense) == TrigramNums(text) && Scannable(text)
      requires RecordsUpTo(docs, dense[..k], AllEntries()) && forall p :: p in post ==> FileId(p) <= fileid
      modifies this`post, this`postFile
      ensures Buffered() && RecordsUpTo(docs, dense[..k + 1], AllEntries())
      ensures forall p :: p in post ==> FileId(p) <= fileid
    {
      hide RecordsUpTo, Scannable, Distinct, Simple, InFileOrder;
      if |post| >= npost {
        FlushPost();
      }
      assert dense[k] in Members(dense);
      NoSentinel(text, dense[k]);
      PackUnpack(dense[k], fileid);
      var p := MakePostEntry(dense[k], fileid);
      assert RecordsUpTo(docs, dense[..k + 1], AllEntries() + multiset{p}) && Simple(AllEntries() + multiset{p}) by {
        PushEntry(docs, dense, k, AllEntries());
      }
      assert InFileOrder(post + [p]) by {
        PushInOrder(post, p);
      }
      assert RunsBag(postFile) + multiset(post + [p]) == AllEntries() + multiset{p};
      post := post + [p];
    }
  }

  lemma {:induction false} IncreasingOrdered(s: seq<postEntry>)
    requires Increasing(s)
    ensures Ordered(s)
  {
  }

  /** The entries recorded for a set of accepted files are good input for mergePost. */
  lemma RecordsGood(docs: seq<Str>, all: multiset<postEntry>)
    requires Records(docs, all) && |docs| < NoId && forall d :: d in docs ==> Accepted(d)
    ensures GoodEntries(all, |docs|)
  {
    RecordsSimple(docs, all);
    forall p | p in all
      ensures Proper(p) && all[p] == 1 && FileId(p) < |docs|
    {
      assert IsEntry(docs, p);
    }
  }

  /** What an index of `docs` must say: each list holds exactly the files whose text has the trigram. */
  ghost predicate Indexes(ps: seq<Posting>, docs: seq<Str>) {
    forall t: nat, f: nat :: f in Lookup(ps, t) <==> f < |docs| && t in TrigramNums(docs[f])
  }

  lemma ListsIndex(docs: seq<Str>, all: multiset<postEntry>, ps: seq<Posting>)
    requires Records(docs, all) && |docs| < NoId
    requires forall t: nat, f: nat :: f in Lookup(ps, t) <==> f < NoId && MakePostEntry(t, f) in all
    ensures Indexes(ps, docs)
  {
    forall t: nat, f: nat
      ensures f in Lookup(ps, t) <==> f < |docs| && t in TrigramNums(docs[f])
    {
      if f < NoId {
        PackUnpack(t, f);
        assert MakePostEntry(t, f) in all <==> IsEntry(docs, MakePostEntry(t, f));
      }
    }
  }

  /** The sections that Flush writes. */
  function WrittenSections(paths: seq<Str>, names: seq<Str>, ps: seq<Posting>): Sections {
    Sections(Terminated(paths) + [0], Terminated(names + [[]]), PostingData(ps),
             NameOffsets(names + [[]]), EntryData(ps))
  }

  lemma DataLengths(names: seq<Str>, ps: seq<Posting>)
    ensures |NameOffsets(names)| == 4 * |names| && |EntryData(ps)| == 11 * |ps|
  {
    JoinedWidth(OffsetParts(names), 4);
    JoinedWidth(EntryParts(ps), 11);
  }

  /** Opening a flushed file finds its paths, names and lists. */
  lemma WrittenRepresents(paths: seq<Str>, names: seq<Str>, ps: seq<Posting>)
    requires ValidView(View(paths, names, ps))
    ensures var file := FileBytes(WrittenSections(paths, names, ps));
            |file| < TwoTo32 ==> Open(file).Some? && Represents(Open(file).value, View(paths, names, ps))
  {
    var s := WrittenSections(paths, names, ps);
    var file := FileBytes(s);
    if |file| < TwoTo32 {
      DataLengths(names + [[]], ps);
      OpenFile(s, |names|, |ps|);
      var ix := Open(file).value;
      SectionFront(file, ix.nameData, Terminated(names), [] + [0]);
      SectionFront(file, ix.nameIndex, NameOffsets(names), U32(|Terminated(names)|));
      NamesAppend(names, []);
    }
  }

  lemma SectionFront(file: Str, at: nat, front: Str, tail: Str)
    ensures OccursAt(file, at, front + tail) ==> OccursAt(file, at, front)
  {
    if OccursAt(file, at, front + tail) {
      OccursAtEnd([], front, tail);
      assert [] + (front + tail) == front + tail;
      OccursWithin(file, at, front + tail, 0, front);
    }
  }

  lemma NothingPushed(docs: seq<Str>, dense: seq<nat>, all: multiset<postEntry>, runs: multiset<postEntry>,
                      post: seq<postEntry>)
    requires Records(docs, all) && all == runs + multiset(post)
    ensures RecordsUpTo(docs, dense[..0], all) && forall p :: p in post ==> FileId(p) <= |docs|
  {
    assert dense[..0] == [];
    forall p | p in post
      ensures FileId(p) <= |docs|
    {
      assert p in all;
    }
  }

  lemma PushInOrder(post: seq<postEntry>, p: postEntry)
    requires InFileOrder(post) && forall q :: q in post ==> FileId(q) <= FileId(p)
    ensures InFileOrder(post + [p])
  {
    forall i | 0 <= i < |post|
      ensures FileId(post[i]) <= FileId(p)
    {
      assert post[i] in post;
    }
  }
}
