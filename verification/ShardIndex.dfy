/** Building the second index (index2/write.go): a packed table of trigrams over bitmaps of documents.
    Roaring bitmaps are finite sets here, and the serialised shard is its table and its lists. */
module ShardIndex {
  import opened Bytes
  import opened PostEntries
  import opened IndexFormat
  import opened SparseSets
  import opened TextScan

  // ---------------------------------------------------------------- bitmaps

  class Bitmap {
    var docs: set<nat>

    constructor (docs: set<nat>)
      ensures this.docs == docs
    {
      this.docs := docs;
    }

    method Add(doc: nat)
      modifies this
      ensures docs == old(docs) + {doc}
    {
      docs := docs + {doc};
    }

    method And(other: Bitmap)
      modifies this
      ensures docs == old(docs) * old(other.docs)
    {
      docs := docs * other.docs;
    }

    method Or(other: Bitmap)
      modifies this
      ensures docs == old(docs) + old(other.docs)
    {
      docs := docs + other.docs;
    }

    method AndNot(other: Bitmap)
      modifies this
      ensures docs == old(docs) - old(other.docs)
    {
      docs := docs - other.docs;
    }

    method Xor(other: Bitmap)
      modifies this
      ensures docs == (old(docs) - old(other.docs)) + (old(other.docs) - old(docs))
    {
      docs := (docs - other.docs) + (other.docs - docs);
    }

    predicate IsEmpty()
      reads this
    {
      docs == {}
    }
  }

  // ---------------------------------------------------------------- the flushed lists

  /** The trigrams, three bytes each, and for each of them its documents. */
  datatype PostingLists = PostingLists(trigrams: Str, lists: seq<set<nat>>, maxDocId: nat)

  function TableAt(pl: PostingLists, k: nat): nat
    requires 3 * k + 3 <= |pl.trigrams|
  {
    TriNum(pl.trigrams[3 * k..])
  }

  /** One list for each trigram, in strict trigram order. */
  ghost predicate ValidLists(pl: PostingLists) {
    |pl.trigrams| == 3 * |pl.lists|
    && forall i, j :: 0 <= i < j < |pl.lists| ==> TableAt(pl, i) < TableAt(pl, j)
  }

  /** Document `d` is listed under trigram `t`. */
  ghost predicate Listed(pl: PostingLists, t: nat, d: nat)
    requires ValidLists(pl)
  {
    exists k :: 0 <= k < |pl.lists| && TableAt(pl, k) == t && d in pl.lists[k]
  }

  lemma ListedAt(pl: PostingLists, k: nat, d: nat)
    requires ValidLists(pl) && k < |pl.lists|
    ensures Listed(pl, TableAt(pl, k), d) <==> d in pl.lists[k]
  {
    if Listed(pl, TableAt(pl, k), d) {
      var j :| 0 <= j < |pl.lists| && TableAt(pl, j) == TableAt(pl, k) && d in pl.lists[j];
    }
  }

  // ---------------------------------------------------------------- addTrigrams

  /** Shifting the next byte into the token, as computeTrigrams does. */
  lemma TokenStep(text: Str, i: nat)
    requires i < |text|
    ensures Window(text, i) % 0x1_0000 * 256 + text[i] == Window(text, i + 1) < 0x100_0000
    ensures i >= 2 ==> Window(text, i + 1) == NumAt(text, i - 2)
  {
    hide NumAt, Window;
    WindowStep(text, i);
    WindowIs(text, i);
    WindowIs(text, i + 1);
    LowBytes(Window(text, i));
  }

  lemma LowBytes(a: nat)
    requires a < 0x100_0000
    ensures a % 0x1_0000 * 256 == a * 256 % 0x100_0000
  {
    var h, l := a / 0x1_0000, a % 0x1_0000;
    var x := l * 256;
    assert a * 256 == h * 0x100_0000 + x && 0 <= x < 0x100_0000;
  }

  class ShardWriter {
    const trigram: Set                       // trigrams of the current file
    var sparseTrigrams: array?<nat>
    var denseTrigrams: seq<nat>
    var lists: seq<Bitmap>
    var docCount: nat

    ghost predicate Valid()
      reads this, lists, trigram, trigram.sparse
      reads if sparseTrigrams == null then {} else {sparseTrigrams}
    {
      && trigram.Valid() && trigram.sparse.Length == 0x100_0000
      && Dense()
      && trigram.sparse != sparseTrigrams
    }

    /** The sparse array finds each dense trigram's number; each has a bitmap of its own. */
    ghost predicate Dense()
      reads this`sparseTrigrams, this`denseTrigrams, this`lists
      reads if sparseTrigrams == null then {} else {sparseTrigrams}
    {
      && |lists| == |denseTrigrams|
      && (forall i, j :: 0 <= i < j < |lists| ==> lists[i] != lists[j])
      && (if sparseTrigrams == null then denseTrigrams == []
          else sparseTrigrams.Length == 0x100_0000
               && forall k :: 0 <= k < |denseTrigrams| ==> denseTrigrams[k] < 0x100_0000 && sparseTrigrams[denseTrigrams[k]] == k)
    }

    /** Document `d` has been added with trigram `t`. */
    ghost predicate Has(t: nat, d: nat)
      requires |lists| == |denseTrigrams|
      reads this`denseTrigrams, this`lists, lists
    {
      exists k :: 0 <= k < |denseTrigrams| && denseTrigrams[k] == t && d in lists[k].docs
    }

    constructor ()
      ensures Valid() && denseTrigrams == [] && lists == [] && docCount == 0 && sparseTrigrams == null
      ensures fresh(trigram) && fresh(trigram.sparse)
    {
      trigram := new Set(0x100_0000);
      sparseTrigrams := null;
      denseTrigrams, lists, docCount := [], [], 0;
    }

    /** The number of a trigram, which is given the next one if it has none. */
    method Number(t: nat) returns (idx: nat)
      requires Dense() && sparseTrigrams != null && t < 0x100_0000
      modifies this`denseTrigrams, this`lists, sparseTrigrams
      ensures Dense() && sparseTrigrams == old(sparseTrigrams)
      ensures idx < |denseTrigrams| && denseTrigrams[idx] == t
      ensures old(denseTrigrams) <= denseTrigrams && old(lists) <= lists
      ensures forall k :: |old(lists)| <= k < |lists| ==> fresh(lists[k]) && lists[k].docs == {}
    {
      idx := sparseTrigrams[t];
      var n := |denseTrigrams|;
      if n <= idx || denseTrigrams[idx] != t {
        idx := n;
        denseTrigrams := denseTrigrams + [t];
        var list := new Bitmap({});
        lists := lists + [list];
        sparseTrigrams[t] := idx;
      }
    }

    /** The body of addTrigrams' loop. */
    method AddTrigram(t: nat, doc: nat)
      requires Dense() && sparseTrigrams != null && t < 0x100_0000
      modifies this`denseTrigrams, this`lists, sparseTrigrams, lists
      ensures Dense() && sparseTrigrams == old(sparseTrigrams)
      ensures old(lists) <= lists && forall k :: |old(lists)| <= k < |lists| ==> fresh(lists[k])
      ensures forall u, d :: Has(u, d) <==> old(Has(u, d)) || (u == t && d == doc)
    {
      var idx := Number(t);
      assert forall u, d :: Has(u, d) <==> old(Has(u, d));
      label numbered:
      lists[idx].Add(doc);
      forall u, d
        ensures Has(u, d) <==> old@numbered(Has(u, d)) || (u == t && d == doc)
      {
        if k :| 0 <= k < |denseTrigrams| && denseTrigrams[k] == u && d in old@numbered(lists[k].docs) {
          assert d in lists[k].docs;
        }
        if u == t && d == doc {
          assert d in lists[idx].docs;
        }
      }
    }

    /** addTrigrams: `doc` joins the documents of each trigram of the current file, and of no other. */
    method AddTrigrams(doc: nat)
      requires Valid()
      modifies this`sparseTrigrams, this`denseTrigrams, this`lists, lists
      modifies if sparseTrigrams == null then {} else {sparseTrigrams}
      ensures Valid() && sparseTrigrams != null && (fresh(sparseTrigrams) || sparseTrigrams == old(sparseTrigrams))
      ensures old(lists) <= lists && forall k :: |old(lists)| <= k < |lists| ==> fresh(lists[k])
      ensures forall t, d :: Has(t, d) <==> old(Has(t, d)) || (d == doc && t in trigram.dense)
    {
      if sparseTrigrams == null {
        sparseTrigrams := new nat[0x100_0000];
      }
      var dense := trigram.dense;
      for k := 0 to |dense|
        invariant trigram.Valid() && trigram.dense == dense && Dense() && sparseTrigrams != null
        invariant trigram.sparse != sparseTrigrams && (fresh(sparseTrigrams) || sparseTrigrams == old(sparseTrigrams))
        invariant old(lists) <= lists && forall j :: |old(lists)| <= j < |lists| ==> fresh(lists[j])
        invariant forall t, d :: Has(t, d) <==> old(Has(t, d)) || (d == doc && t in dense[..k])
      {
        assert dense[..k + 1] == dense[..k] + [dense[k]];
        AddTrigram(dense[k], doc);
      }
      assert dense[..|dense|] == dense;
    }

    /** computeTrigrams, for a text that it lets through: its trigrams as the window slides over the bytes. */
    method ComputeTrigrams(text: Str)
      requires Valid()
      modifies trigram, trigram.sparse
      ensures Valid() && trigram.sparse == old(trigram.sparse) && Members(trigram.dense) == TrigramNums(text)
    {
      hide Window, TrigramNums, NumAt, Dense, Set.Valid;
      NothingYet(text);
      trigram.Reset();
      var tok: nat := 0;
      assert text[..0] == [];
      for i := 0 to |text|
        invariant trigram.Valid() && trigram.sparse == old(trigram.sparse) && Dense()
        invariant tok == Window(text, i) && Members(trigram.dense) == TrigramNums(text[..i])
      {
        TokenStep(text, i);
        NumsStep(text, i);
        tok := tok % 0x1_0000 * 256 + text[i];
        if i + 1 >= 3 {
          trigram.Add(tok);
        }
      }
      assert text[..|text|] == text;
    }

    /** Add: the text becomes the next document, under each of its trigrams. */
    method Add(text: Str)
      requires Valid()
      modifies this`sparseTrigrams, this`denseTrigrams, this`lists, this`docCount, lists, trigram, trigram.sparse
      modifies if sparseTrigrams == null then {} else {sparseTrigrams}
      ensures Valid() && docCount == old(docCount) + 1 && trigram.sparse == old(trigram.sparse)
      ensures sparseTrigrams != null && (fresh(sparseTrigrams) || sparseTrigrams == old(sparseTrigrams))
      ensures old(lists) <= lists && forall k :: |old(lists)| <= k < |lists| ==> fresh(lists[k])
      ensures forall t, d :: Has(t, d) <==> old(Has(t, d)) || (d == old(docCount) && t in TrigramNums(text))
    {
      hide TrigramNums;
      ComputeTrigrams(text);
      assert forall t, d :: Has(t, d) <==> old(Has(t, d));
      assert forall t :: t in trigram.dense <==> t in TrigramNums(text) by {
        assert forall t :: t in trigram.dense <==> t in Members(trigram.dense);
      }
      var id := docCount;
      docCount := docCount + 1;
      AddTrigrams(id);
    }

    /** flushPostingLists: the table in trigram order, each trigram written as four bytes over the front of the one
        behind it, and the lists in the same order. */
    method FlushPostingLists() returns (pl: PostingLists)
      requires Dense()
      ensures ValidLists(pl) && pl.maxDocId == docCount
      ensures forall t, d :: Listed(pl, t, d) <==> Has(t, d)
    {
      hide BigEndian, Increasing, TableFrom, TableAt;
      var n := |denseTrigrams|;
      KeysSmall();
      var trigramIdx: seq<nat> := seq(n, i requires 0 <= i < n => i);
      AllOf(trigramIdx, n);
      assert Order(SortByKey(trigramIdx, denseTrigrams)) by {
        SortedOrder(trigramIdx);
      }
      trigramIdx := SortByKey(trigramIdx, denseTrigrams);
      var tgms := new byte[1 + 3 * n];
      var docs := new set<nat>[n];
      var tgmsPos := tgms.Length - 4;
      var idx := n;
      assert TableFrom(tgms[..], idx, denseTrigrams, trigramIdx) by {
        NoTable(tgms[..], denseTrigrams, trigramIdx);
      }
      while idx > 0
        invariant 0 <= idx <= n && tgmsPos == 3 * idx - 3
        invariant TableFrom(tgms[..], idx, denseTrigrams, trigramIdx)
        invariant forall k :: idx <= k < n ==> docs[k] == lists[trigramIdx[k]].docs
      {
        idx := idx - 1;
        PutUint32(tgms, tgmsPos, denseTrigrams[trigramIdx[idx]], idx, denseTrigrams, trigramIdx);
        tgmsPos := tgmsPos - 3;
        docs[idx] := lists[trigramIdx[idx]].docs;
      }
      pl := PostingLists(tgms[1..], docs[..], docCount);
      TableIs(pl, tgms[..], trigramIdx);
    }

    /** The order the source sorts into: every dense trigram once, by its number. */
    ghost predicate Order(order: seq<nat>)
      reads this`denseTrigrams
    {
      |order| == |denseTrigrams|
      && (forall j :: 0 <= j < |order| ==> order[j] < |denseTrigrams|)
      && (forall k :: 0 <= k < |denseTrigrams| ==> k in order)
      && forall i, j :: 0 <= i < j < |order| ==> denseTrigrams[order[i]] < denseTrigrams[order[j]]
    }

    lemma SortedOrder(all: seq<nat>)
      requires Dense() && |all| == |denseTrigrams| && Distinct(all)
      requires forall y: nat :: y in all <==> y < |denseTrigrams|
      ensures Order(SortByKey(all, denseTrigrams))
    {
      KeysSmall();
      hide ShardWriter.Dense;
      SortIsOrder(all, denseTrigrams);
    }

    lemma KeysSmall()
      requires Dense()
      ensures forall k :: 0 <= k < |denseTrigrams| ==> denseTrigrams[k] < 0x100_0000
      ensures forall i, j :: 0 <= i < j < |denseTrigrams| ==> denseTrigrams[i] != denseTrigrams[j]
    {
    }

    lemma TableIs(pl: PostingLists, t: seq<byte>, order: seq<nat>)
      requires Dense() && Order(order) && TableFrom(t, 0, denseTrigrams, order)
      requires pl.trigrams == t[1..] && |pl.lists| == |order|
      requires forall k :: 0 <= k < |order| ==> pl.lists[k] == lists[order[k]].docs
      ensures ValidLists(pl) && forall t, d :: Listed(pl, t, d) <==> Has(t, d)
    {
      KeysSmall();
      hide ShardWriter.Dense, TableFrom, TableAt;
      TableEntries(pl, t, denseTrigrams, order);
      forall t, d
        ensures Listed(pl, t, d) <==> Has(t, d)
      {
        if j :| 0 <= j < |denseTrigrams| && denseTrigrams[j] == t && d in lists[j].docs {
          assert j in order;
          var k :| 0 <= k < |order| && order[k] == j;
          assert TableAt(pl, k) == t && d in pl.lists[k];
        }
      }
    }
  }

  /** Adding any texts one after the other and flushing: each document is listed under exactly its trigrams. */
  method BuildShard(texts: seq<Str>) returns (pl: PostingLists)
    ensures ValidLists(pl) && pl.maxDocId == |texts|
    ensures forall t: nat, d: nat :: Listed(pl, t, d) <==> d < |texts| && t in TrigramNums(texts[d])
  {
    hide TrigramNums, Listed, ValidLists;
    var w := new ShardWriter();
    assert forall t: nat, d: nat :: !w.Has(t, d);
    for k := 0 to |texts|
      invariant fresh(w) && fresh(w.trigram) && fresh(w.trigram.sparse) && w.Valid() && w.docCount == k
      invariant w.sparseTrigrams != null ==> fresh(w.sparseTrigrams)
      invariant forall j :: 0 <= j < |w.lists| ==> fresh(w.lists[j])
      invariant forall t: nat, d: nat :: w.Has(t, d) <==> d < k && t in TrigramNums(texts[d])
    {
      w.Add(texts[k]);
    }
    pl := w.FlushPostingLists();
  }

  /** The table reads back as the trigrams in their order. */
  lemma TableEntries(pl: PostingLists, t: seq<byte>, dense: seq<nat>, order: seq<nat>)
    requires TableFrom(t, 0, dense, order) && pl.trigrams == t[1..]
    requires forall k :: 0 <= k < |dense| ==> dense[k] < 0x100_0000
    ensures |pl.trigrams| == 3 * |order|
    ensures forall k :: 0 <= k < |order| ==> order[k] < |dense| && TableAt(pl, k) == dense[order[k]]
  {
    hide TriNum, BigEndian;
    forall k | 0 <= k < |order|
      ensures order[k] < |dense| && TableAt(pl, k) == dense[order[k]]
    {
      assert t[3 * k + 1..3 * k + 4] == Tri3(dense[order[k]]);
      ReadEntry(pl.trigrams[3 * k..], dense[order[k]]);
    }
  }

  lemma ReadEntry(b: Str, t: nat)
    requires t <= AllOnes && |b| >= 3 && b[..3] == Tri3(t)
    ensures TriNum(b) == t
  {
    TriRoundTrip(t);
    assert Tri3(t)[..3] == Tri3(t);
  }

  // ---------------------------------------------------------------- the packed table

  lemma {:induction false} BigEndianTail(x: nat, n: nat)
    requires n > 0
    ensures BigEndian(x, n)[1..] == BigEndian(x, n - 1)
  {
    if n > 1 {
      BigEndianTail(x / 256, n - 1);
      assert BigEndian(x, n)[1..] == BigEndian(x / 256, n - 1)[1..] + [x % 256];
    }
  }

  /** binary.BigEndian.PutUint32 for trigram `idx`: its low three bytes are its entry, and the high one falls on the
      last byte of the entry in front, which is written later. */
  method PutUint32(tgms: array<byte>, pos: nat, v: nat, ghost idx: nat, ghost dense: seq<nat>, ghost order: seq<nat>)
    requires idx < |order| && pos == 3 * idx && order[idx] < |dense| && v == dense[order[idx]]
    requires TableFrom(tgms[..], idx + 1, dense, order)
    modifies tgms
    ensures TableFrom(tgms[..], idx, dense, order)
  {
    var b := U32(v);
    ghost var was := tgms[..];
    assert tgms.Length == 1 + 3 * |order|;
    tgms[pos], tgms[pos + 1], tgms[pos + 2], tgms[pos + 3] := b[0], b[1], b[2], b[3];
    TableGrows(was, tgms[..], idx, dense, order);
  }

  /** The trigrams of the order from `idx` on are in their places, behind one spare byte at the front. */
  ghost predicate TableFrom(t: seq<byte>, idx: nat, dense: seq<nat>, order: seq<nat>) {
    |t| == 1 + 3 * |order|
    && forall k :: idx <= k < |order| ==> order[k] < |dense| && t[3 * k + 1..3 * k + 4] == Tri3(dense[order[k]])
  }

  lemma NoTable(t: seq<byte>, dense: seq<nat>, order: seq<nat>)
    requires |t| == 1 + 3 * |order|
    ensures TableFrom(t, |order|, dense, order)
  {
  }

  lemma TableGrows(was: seq<byte>, t: seq<byte>, idx: nat, dense: seq<nat>, order: seq<nat>)
    requires TableFrom(was, idx + 1, dense, order) && |t| == |was| && idx < |order| && order[idx] < |dense|
    requires t[3 * idx..3 * idx + 4] == U32(dense[order[idx]])
    requires forall j :: 0 <= j < |t| && !(3 * idx <= j < 3 * idx + 4) ==> t[j] == was[j]
    ensures TableFrom(t, idx, dense, order)
  {
    hide BigEndian;
    BigEndianTail(dense[order[idx]], 4);
    assert t[3 * idx + 1..3 * idx + 4] == t[3 * idx..3 * idx + 4][1..];
    forall k | idx < k < |order|
      ensures order[k] < |dense| && t[3 * k + 1..3 * k + 4] == Tri3(dense[order[k]])
    {
      assert t[3 * k + 1..3 * k + 4] == was[3 * k + 1..3 * k + 4];
    }
  }

  // ---------------------------------------------------------------- sort.Slice by a key

  function InsertByKey(x: nat, s: seq<nat>, key: seq<nat>): (r: seq<nat>)
    requires x < |key| && forall y :: y in s ==> y < |key|
    ensures |r| == |s| + 1 && forall y :: y in r <==> y == x || y in s
  {
    if s == [] then [x]
    else
      assert s[0] in s && forall y :: y in s[1..] ==> y in s;
      if key[x] <= key[s[0]] then [x] + s else [s[0]] + InsertByKey(x, s[1..], key)
  }

  function SortByKey(s: seq<nat>, key: seq<nat>): (r: seq<nat>)
    requires forall y :: y in s ==> y < |key|
    ensures |r| == |s| && forall y :: y in r <==> y in s
  {
    if s == [] then []
    else
      assert s[0] in s && forall y :: y in s[1..] ==> y in s;
      InsertByKey(s[0], SortByKey(s[1..], key), key)
  }

  ghost predicate ByKey(s: seq<nat>, key: seq<nat>) {
    (forall j :: 0 <= j < |s| ==> s[j] < |key|) && forall i, j :: 0 <= i < j < |s| ==> key[s[i]] <= key[s[j]]
  }

  lemma ByKeyCons(h: nat, t: seq<nat>, key: seq<nat>)
    requires h < |key| && ByKey(t, key) && Distinct(t) && h !in t
    requires t != [] ==> key[h] <= key[t[0]]
    ensures ByKey([h] + t, key) && Distinct([h] + t)
  {
    forall j | 0 <= j < |t|
      ensures key[h] <= key[t[j]] && h != t[j]
    {
      assert j > 0 ==> key[t[0]] <= key[t[j]];
      assert t[j] in t;
    }
  }

  lemma {:induction false} InsertByKeySorts(x: nat, s: seq<nat>, key: seq<nat>)
    requires x < |key| && x !in s && ByKey(s, key) && Distinct(s)
    ensures ByKey(InsertByKey(x, s, key), key) && Distinct(InsertByKey(x, s, key))
    ensures InsertByKey(x, s, key)[0] == x || (s != [] && InsertByKey(x, s, key)[0] == s[0])
  {
    if s == [] || key[x] <= key[s[0]] {
      ByKeyCons(x, s, key);
    } else {
      var h, t := s[0], s[1..];
      assert forall y :: y in t ==> y in s;
      assert t != [] ==> key[h] <= key[t[0]] && t[0] == s[1];
      assert h !in t;
      InsertByKeySorts(x, t, key);
      ByKeyCons(h, InsertByKey(x, t, key), key);
    }
  }

  lemma {:induction false} SortByKeySorts(s: seq<nat>, key: seq<nat>)
    requires Distinct(s) && forall y :: y in s ==> y < |key|
    ensures ByKey(SortByKey(s, key), key) && Distinct(SortByKey(s, key))
  {
    if s != [] {
      assert s[0] in s && forall y :: y in s[1..] ==> y in s;
      SortByKeySorts(s[1..], key);
      assert s[0] !in s[1..];
      InsertByKeySorts(s[0], SortByKey(s[1..], key), key);
    }
  }

  lemma SortIsOrder(all: seq<nat>, key: seq<nat>)
    requires |all| == |key| && Distinct(all) && forall y: nat :: y in all <==> y < |key|
    requires forall i, j :: 0 <= i < j < |key| ==> key[i] != key[j]
    ensures var r := SortByKey(all, key);
            |r| == |key| && (forall j :: 0 <= j < |r| ==> r[j] < |key|) && (forall k :: 0 <= k < |key| ==> k in r)
            && forall i, j :: 0 <= i < j < |r| ==> key[r[i]] < key[r[j]]
  {
    var r := SortByKey(all, key);
    SortByKeySorts(all, key);
    hide SortByKey;
    forall i, j | 0 <= i < j < |r|
      ensures key[r[i]] < key[r[j]]
    {
      assert key[r[i]] <= key[r[j]] && r[i] != r[j];
    }
  }

  lemma AllOf(s: seq<nat>, n: nat)
    requires |s| == n && forall i :: 0 <= i < n ==> s[i] == i
    ensures Distinct(s) && forall y: nat :: y in s <==> y < n
  {
    forall y: nat | y < n
      ensures y in s
    {
      assert s[y] == y;
    }
  }
}
