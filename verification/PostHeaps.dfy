/** The k-way merge of sorted runs (index/write.go, postChunk and postHeap). */
module PostHeaps {
  import opened PostEntries

  /** What is left of a run: its next entry and the entries after it. */
  datatype Chunk = Chunk(e: postEntry, m: seq<postEntry>) {
    function Entries(): seq<postEntry> {
      [e] + m
    }

    ghost function Bag(): multiset<postEntry> {
      multiset(Entries())
    }
  }

  /** What `next` returns once every run is used up: the trigram of all ones. */
  const Sentinel: postEntry := MakePostEntry(0xFF_FFFF, 0)

  predicate Ordered(s: seq<postEntry>) {
    forall i, j :: 0 <= i < j < |s| ==> s[i] <= s[j]
  }

  /** All entries held by some chunks. */
  ghost function Held(ch: seq<Chunk>): multiset<postEntry> {
    if ch == [] then multiset{}
    else Held(ch[..|ch| - 1]) + ch[|ch| - 1].Bag()
  }

  lemma AddBoth(a: multiset<postEntry>, b: multiset<postEntry>, c: multiset<postEntry>, d: multiset<postEntry>,
                e: multiset<postEntry>)
    requires a + b == c + d
    ensures (a + e) + b == (c + e) + d
  {
    assert (a + e) + b == (a + b) + e && (c + e) + d == (c + d) + e;
  }

  lemma {:induction false} HeldUpdate(ch: seq<Chunk>, i: nat, c: Chunk)
    requires i < |ch|
    ensures Held(ch[i := c]) + ch[i].Bag() == Held(ch) + c.Bag()
  {
    hide Chunk.Bag;
    var n := |ch| - 1;
    var ch' := ch[i := c];
    var last := ch[n].Bag();
    if i < n {
      var t := ch[..n];
      HeldUpdate(t, i, c);
      assert ch'[..n] == t[i := c] && ch'[n] == ch[n];
      assert Held(ch') == Held(t[i := c]) + last;
      AddBoth(Held(t[i := c]), t[i].Bag(), Held(t), c.Bag(), last);
    } else {
      assert ch'[..n] == ch[..n];
      assert Held(ch') == Held(ch[..n]) + c.Bag();
      assert Held(ch) == Held(ch[..n]) + last;
    }
  }

  lemma Cancel(a: multiset<postEntry>, b: multiset<postEntry>, c: multiset<postEntry>, x: multiset<postEntry>,
               y: multiset<postEntry>)
    requires b + x == a + y && c + y == b + x
    ensures c == a
  {
    assert c + y == a + y;
    assert c == (c + y) - y && a == (a + y) - y;
  }

  lemma HeldSwap(ch: seq<Chunk>, i: nat, j: nat)
    requires i < |ch| && j < |ch|
    ensures Held(ch[i := ch[j]][j := ch[i]]) == Held(ch)
  {
    var mid := ch[i := ch[j]];
    HeldUpdate(ch, i, ch[j]);
    HeldUpdate(mid, j, ch[i]);
    Cancel(Held(ch), Held(mid), Held(mid[j := ch[i]]), ch[i].Bag(), ch[j].Bag());
  }

  lemma {:induction false} HeldMember(ch: seq<Chunk>, i: nat)
    requires i < |ch|
    ensures ch[i].Bag() <= Held(ch)
  {
    if i < |ch| - 1 {
      HeldMember(ch[..|ch| - 1], i);
    }
  }

  lemma {:induction false} HeldFrom(ch: seq<Chunk>, x: postEntry) returns (i: nat)
    requires x in Held(ch)
    ensures i < |ch| && x in ch[i].Entries()
  {
    if x in ch[|ch| - 1].Entries() {
      i := |ch| - 1;
    } else {
      i := HeldFrom(ch[..|ch| - 1], x);
    }
  }

  ghost predicate RunsOrdered(ch: seq<Chunk>) {
    forall c :: c in ch ==> Ordered(c.Entries())
  }

  function Swap(ch: seq<Chunk>, i: nat, j: nat): seq<Chunk>
    requires i < |ch| && j < |ch|
  {
    ch[i := ch[j]][j := ch[i]]
  }

  lemma SwapKeeps(ch: seq<Chunk>, i: nat, j: nat)
    requires i < |ch| && j < |ch|
    ensures Held(Swap(ch, i, j)) == Held(ch) && |Swap(ch, i, j)| == |ch|
    ensures RunsOrdered(ch) ==> RunsOrdered(Swap(ch, i, j))
  {
    HeldSwap(ch, i, j);
    forall c | c in Swap(ch, i, j)
      ensures c in ch
    {
    }
  }

  lemma HeldLast(ch: seq<Chunk>, n: nat)
    requires |ch| == n + 1
    ensures Held(ch) == Held(ch[..n]) + ch[n].Bag()
  {
  }

  /** Dropping the root and putting the last chunk in its place. */
  lemma HeldDropRoot(ch: seq<Chunk>)
    requires |ch| > 0
    ensures var n := |ch| - 1; Held(ch[0 := ch[n]][..n]) == Held(ch) - ch[0].Bag()
  {
    var n := |ch| - 1;
    var ch' := ch[0 := ch[n]];
    HeldUpdate(ch, 0, ch[n]);
    HeldLast(ch', n);
    assert ch'[n] == ch[n];
    DropBoth(Held(ch'[..n]), ch[n].Bag(), ch[0].Bag(), Held(ch));
  }

  lemma DropBoth(rest: multiset<postEntry>, last: multiset<postEntry>, root: multiset<postEntry>,
                 all: multiset<postEntry>)
    requires (rest + last) + root == all + last
    ensures rest == all - root
  {
    assert (rest + last) + root == (rest + root) + last;
    assert rest + root == ((rest + root) + last) - last && all == (all + last) - last;
    assert rest == (rest + root) - root;
  }

  function Parent(j: nat): nat
    requires j > 0
  {
    (j - 1) / 2
  }

  /** Heap order, except between `hole` and its children. */
  ghost predicate HeapBelow(ch: seq<Chunk>, hole: int) {
    forall j :: 1 <= j < |ch| && Parent(j) != hole ==> ch[Parent(j)].e <= ch[j].e
  }

  /** Heap order, except between `hole` and its parent. */
  ghost predicate HeapAbove(ch: seq<Chunk>, hole: int) {
    forall j :: 1 <= j < |ch| && j != hole ==> ch[Parent(j)].e <= ch[j].e
  }

  /** The children of `hole` are not below its parent. */
  ghost predicate Bridged(ch: seq<Chunk>, hole: nat) {
    forall j :: 1 <= j < |ch| && Parent(j) == hole && hole > 0 ==> ch[Parent(hole)].e <= ch[j].e
  }

  lemma {:induction false} RootLeast(ch: seq<Chunk>, j: nat)
    requires HeapBelow(ch, -1) && j < |ch|
    ensures ch[0].e <= ch[j].e
  {
    if j > 0 {
      RootLeast(ch, Parent(j));
    }
  }

  class PostHeap {
    var ch: seq<Chunk>

    ghost predicate Valid()
      reads this
    {
      HeapBelow(ch, -1) && RunsOrdered(ch)
    }

    ghost function Contents(): multiset<postEntry>
      reads this
    {
      Held(ch)
    }

    constructor ()
      ensures Valid() && Contents() == multiset{}
    {
      ch := [];
    }

    method SiftDown(i0: nat)
      requires i0 < |ch| && HeapBelow(ch, i0) && Bridged(ch, i0) && RunsOrdered(ch)
      modifies this
      ensures Valid() && |ch| == old(|ch|) && Contents() == old(Contents())
    {
      hide Held, HeapBelow, Bridged, RunsOrdered, Swap;
      var i := i0;
      while true
        invariant |ch| == old(|ch|) && i < |ch| && HeapBelow(ch, i) && Bridged(ch, i)
        invariant RunsOrdered(ch) && Held(ch) == old(Held(ch))
        decreases |ch| - i
      {
        var j1 := 2 * i + 1;
        if j1 >= |ch| {
          SettledDown(ch, i);
          break;
        }
        var j := j1;
        var j2 := j1 + 1;
        if j2 < |ch| && ch[j1].e >= ch[j2].e {
          j := j2;
        }
        if ch[i].e < ch[j].e {
          SettledDown(ch, i);
          break;
        }
        SwapDown(ch, i, j);
        SwapKeeps(ch, i, j);
        ch := Swap(ch, i, j);
        i := j;
      }
    }

    method SiftUp(j0: nat)
      requires j0 < |ch| && HeapAbove(ch, j0) && Bridged(ch, j0) && RunsOrdered(ch)
      modifies this
      ensures Valid() && |ch| == old(|ch|) && Contents() == old(Contents())
    {
      var j := j0;
      while true
        invariant |ch| == old(|ch|) && 0 <= j < |ch| && HeapAbove(ch, j) && Bridged(ch, j)
        invariant RunsOrdered(ch) && Held(ch) == old(Held(ch))
        decreases j
      {
        var i := if j == 0 then 0 else Parent(j);
        if i == j || ch[i].e < ch[j].e {
          SettledUp(ch, j);
          break;
        }
        SwapUp(ch, j);
        SwapKeeps(ch, i, j);
        ch := Swap(ch, i, j);
        j := i;
      }
    }

    method Push(c: Chunk)
      requires Valid() && Ordered(c.Entries())
      modifies this
      ensures Valid() && Contents() == old(Contents()) + c.Bag()
    {
      hide *;
      Parts();
      var n := |ch|;
      PushKeeps(ch, c);
      ch := ch + [c];
      Parts();
      if |ch| >= 2 {
        SiftUp(n);
      }
    }

    method Pop()
      requires Valid() && |ch| > 0
      modifies this
      ensures Valid() && Contents() == old(Contents()) - old(ch[0]).Bag()
    {
      var n := |ch| - 1;
      HeldDropRoot(ch);
      DropRootOrder(ch);
      ch := ch[0 := ch[n]];
      ch := ch[..n];
      if n > 1 {
        SiftDown(0);
      }
    }

    /** addMem and add: a run joins the heap unless it is empty. */
    method AddMem(x: seq<postEntry>)
      requires Valid() && Ordered(x)
      modifies this
      ensures Valid() && Contents() == old(Contents()) + multiset(x)
    {
      if |x| > 0 {
        var c := Chunk(x[0], x[1..]);
        assert c.Entries() == x;
        Push(c);
      }
    }

    /** next: takes out the least entry, or returns the sentinel when nothing is left. */
    method Next() returns (e: postEntry)
      requires Valid()
      modifies this
      ensures Valid()
      ensures old(Contents()) == multiset{} ==> e == Sentinel && Contents() == multiset{}
      ensures old(Contents()) != multiset{} ==>
                e in old(Contents()) && Contents() == old(Contents()) - multiset{e}
                && forall x :: x in old(Contents()) ==> e <= x
    {
      hide *;
      Parts();
      if |ch| == 0 {
        return Sentinel;
      }
      var c := ch[0];
      e := c.e;
      LeastIsLeast(ch);
      if |c.m| == 0 {
        SingleEntry(c);
        Pop();
      } else {
        var c' := Chunk(c.m[0], c.m[1..]);
        RestOf(c, c');
        Advance(ch, c');
        ch := ch[0 := c'];
        Parts();
        SiftDown(0);
      }
    }

    lemma Parts()
      ensures Valid() <==> HeapBelow(ch, -1) && RunsOrdered(ch)
      ensures Contents() == Held(ch) && Bridged(ch, 0)
      ensures ch == [] ==> Held(ch) == multiset{}
    {
    }
  }

  /** A run put behind the others: the heap order may only fail between it and its parent. */
  lemma PushKeeps(ch: seq<Chunk>, c: Chunk)
    requires HeapBelow(ch, -1) && RunsOrdered(ch) && Ordered(c.Entries())
    ensures var ch' := ch + [c];
            HeapAbove(ch', |ch|) && Bridged(ch', |ch|) && RunsOrdered(ch') && Held(ch') == Held(ch) + c.Bag()
            && (|ch'| < 2 ==> HeapBelow(ch', -1))
  {
    assert (ch + [c])[..|ch|] == ch;
  }

  lemma SingleEntry(c: Chunk)
    requires c.m == []
    ensures c.Bag() == multiset{c.e}
  {
  }

  lemma RestOf(c: Chunk, c': Chunk)
    requires c.m != [] && c'.e == c.m[0] && c'.m == c.m[1..]
    ensures c.m == c'.Entries()
  {
  }

  lemma SettledDown(ch: seq<Chunk>, i: nat)
    requires i < |ch| && HeapBelow(ch, i)
    requires 2 * i + 1 < |ch| ==> ch[i].e <= ch[2 * i + 1].e
    requires 2 * i + 2 < |ch| ==> ch[i].e <= ch[2 * i + 2].e
    ensures HeapBelow(ch, -1)
  {
  }

  lemma SettledUp(ch: seq<Chunk>, j: nat)
    requires j < |ch| && HeapAbove(ch, j) && (j > 0 ==> ch[Parent(j)].e <= ch[j].e)
    ensures HeapBelow(ch, -1)
  {
  }

  lemma DropRootOrder(ch: seq<Chunk>)
    requires |ch| > 0 && HeapBelow(ch, -1) && RunsOrdered(ch)
    ensures var n := |ch| - 1;
            var ch' := ch[0 := ch[n]][..n];
            HeapBelow(ch', 0) && RunsOrdered(ch') && (n == 1 ==> HeapBelow(ch', -1))
  {
    var n := |ch| - 1;
    forall c | c in ch[0 := ch[n]][..n]
      ensures c in ch
    {
    }
  }

  lemma SwapDown(ch: seq<Chunk>, i: nat, j: nat)
    requires i < |ch| && HeapBelow(ch, i) && Bridged(ch, i)
    requires (j == 2 * i + 1 || j == 2 * i + 2) && j < |ch| && ch[j].e <= ch[i].e
    requires 2 * i + 1 < |ch| ==> ch[j].e <= ch[2 * i + 1].e
    requires 2 * i + 2 < |ch| ==> ch[j].e <= ch[2 * i + 2].e
    ensures var ch' := Swap(ch, i, j);
            HeapBelow(ch', j) && Bridged(ch', j)
  {
  }

  lemma SwapUp(ch: seq<Chunk>, j: nat)
    requires 0 < j < |ch| && HeapAbove(ch, j) && Bridged(ch, j) && ch[j].e <= ch[Parent(j)].e
    ensures var i := Parent(j);
            var ch' := Swap(ch, i, j);
            HeapAbove(ch', i) && Bridged(ch', i)
  {
  }

  /** The root's entry is the least of all. */
  lemma LeastIsLeast(ch: seq<Chunk>)
    requires |ch| > 0 && HeapBelow(ch, -1) && RunsOrdered(ch)
    ensures ch[0].e in Held(ch)
    ensures forall x :: x in Held(ch) ==> ch[0].e <= x
  {
    hide Held, HeapBelow;
    RootHeld(ch);
    forall x | x in Held(ch)
      ensures ch[0].e <= x
    {
      var i := HeldFrom(ch, x);
      RootLeast(ch, i);
      assert ch[i] in ch;
      RunLeast(ch[i], x);
    }
  }

  lemma RootHeld(ch: seq<Chunk>)
    requires |ch| > 0
    ensures ch[0].e in Held(ch)
  {
    hide Held;
    HeldMember(ch, 0);
    assert ch[0].Entries()[0] == ch[0].e;
    assert ch[0].e in ch[0].Bag();
  }

  lemma RunLeast(c: Chunk, x: postEntry)
    requires Ordered(c.Entries()) && x in c.Entries()
    ensures c.e <= x
  {
    var s := c.Entries();
    var k :| 0 <= k < |s| && s[k] == x;
    assert s[0] == c.e;
  }

  /** Moving the root's run forward by one. */
  lemma Advance(ch: seq<Chunk>, c': Chunk)
    requires |ch| > 0 && HeapBelow(ch, -1) && RunsOrdered(ch)
    requires ch[0].m == c'.Entries()
    ensures Held(ch[0 := c']) == Held(ch) - multiset{ch[0].e}
    ensures HeapBelow(ch[0 := c'], 0) && RunsOrdered(ch[0 := c'])
  {
    HeldUpdate(ch, 0, c');
    assert ch[0].Entries() == [ch[0].e] + c'.Entries();
    assert ch[0].Bag() == multiset{ch[0].e} + c'.Bag();
    TakeOne(Held(ch[0 := c']), Held(ch), ch[0].e, c'.Bag(), ch[0].Bag());
    AdvanceOrder(ch, c');
  }

  lemma AdvanceOrder(ch: seq<Chunk>, c': Chunk)
    requires |ch| > 0 && HeapBelow(ch, -1) && RunsOrdered(ch)
    requires ch[0].m == c'.Entries()
    ensures HeapBelow(ch[0 := c'], 0) && RunsOrdered(ch[0 := c'])
  {
    var s, t := ch[0].Entries(), c'.Entries();
    assert ch[0] in ch && Ordered(s);
    assert forall i :: 0 <= i < |t| ==> t[i] == s[i + 1];
    assert Ordered(t);
    forall c | c in ch[0 := c']
      ensures c == c' || c in ch
    {
    }
  }

  lemma TakeOne(after: multiset<postEntry>, before: multiset<postEntry>, e: postEntry, rest: multiset<postEntry>,
                whole: multiset<postEntry>)
    requires after + whole == before + rest && whole == multiset{e} + rest
    ensures after == before - multiset{e}
  {
    assert after + whole == (after + multiset{e}) + rest;
    assert after + multiset{e} == ((after + multiset{e}) + rest) - rest;
    assert before == (before + rest) - rest;
  }

  lemma {:induction false} HeldNothing(ch: seq<Chunk>)
    ensures Held(ch) == multiset{} <==> ch == []
  {
    if ch != [] {
      HeldMember(ch, 0);
      assert ch[0].Entries()[0] == ch[0].e;
      assert ch[0].e in ch[0].Bag();
    }
  }

  lemma DrainStep(all: multiset<postEntry>, s: seq<postEntry>, held: multiset<postEntry>, e: postEntry)
    requires Ordered(s) && multiset(s) + held == all && e in held
    requires (forall x :: x in held ==> e <= x) && forall x, y :: x in s && y in held ==> x <= y
    ensures Ordered(s + [e]) && multiset(s + [e]) + (held - multiset{e}) == all
    ensures forall x, y :: x in s + [e] && y in held - multiset{e} ==> x <= y
  {
    assert held == (held - multiset{e}) + multiset{e};
    forall i | 0 <= i < |s|
      ensures s[i] <= e
    {
      assert s[i] in s;
    }
    forall x, y | x in s + [e] && y in held - multiset{e}
      ensures x <= y
    {
      assert y in held;
    }
  }

  /** Calling next until the heap is empty, and once more: all entries of all runs in order, then the sentinel. */
  method Drain(h: PostHeap) returns (s: seq<postEntry>, last: postEntry)
    requires h.Valid()
    modifies h
    ensures h.Valid() && Ordered(s) && multiset(s) == old(h.Contents()) && last == Sentinel
  {
    hide Held, Ordered, PostHeap.Valid;
    ghost var all := h.Contents();
    s := [];
    assert Ordered(s) by {
      NothingOrdered();
    }
    HeldNothing(h.ch);
    while |h.ch| > 0
      invariant h.Valid() && Ordered(s) && multiset(s) + h.Contents() == all
      invariant forall x, y :: x in s && y in h.Contents() ==> x <= y
      invariant h.Contents() == multiset{} <==> h.ch == []
      decreases |h.Contents()|
    {
      ghost var held := h.Contents();
      var e := h.Next();
      DrainStep(all, s, held, e);
      s := s + [e];
      HeldNothing(h.ch);
    }
    last := h.Next();
  }

  lemma NothingOrdered()
    ensures Ordered([])
  {
  }
}
