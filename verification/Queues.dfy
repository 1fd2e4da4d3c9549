/** Filling the queues of instructions (regexp/match.go, addq, stepEmpty and stepByte). */
module Queues {
  import opened SparseSets
  import opened Programs

  // ---------------------------------------------------------------- filling queues

  /** The queue has grown from `was`: what is new is reached from `id`, and leads nowhere outside the queue. */
  ghost predicate Grown(p: Prog, flags: set<Assertion>, id: nat, was: set<nat>, q: set<nat>) {
    && was <= q
    && (forall j :: j in q && j !in was ==> j < |p.inst| && Reaches(p, flags, id, j))
    && forall i, j :: i in q && i !in was && i < |p.inst| && j in EmptySucc(p.inst[i], flags) ==> j in q
  }

  ghost predicate Room(p: Prog, q: Set)
    reads q, q.sparse
  {
    q.Valid() && q.sparse.Length == |p.inst|
  }

  lemma Spare(p: Prog, q: Set)
    requires Room(p, q)
    ensures |q.dense| <= |p.inst|
  {
    q.ValidDistinct();
  }

  /** After one successor: what is still open is `id` itself. */
  ghost predicate Growing(p: Prog, flags: set<Assertion>, id: nat, was: set<nat>, q: set<nat>) {
    && was + {id} <= q
    && (forall j :: j in q && j !in was ==> j < |p.inst| && Reaches(p, flags, id, j))
    && forall i, j :: i in q && i !in was && i != id && i < |p.inst| && j in EmptySucc(p.inst[i], flags) ==> j in q
  }

  lemma GrowStart(p: Prog, flags: set<Assertion>, id: nat, was: set<nat>)
    requires id < |p.inst|
    ensures Growing(p, flags, id, was, was + {id})
  {
    ReachesItself(p, flags, id);
  }

  lemma GrowStep(p: Prog, flags: set<Assertion>, id: nat, was: set<nat>, q: set<nat>, next: nat, q': set<nat>)
    requires Growing(p, flags, id, was, q) && id < |p.inst| && next in EmptySucc(p.inst[id], flags)
    requires Grown(p, flags, next, q, q')
    ensures Growing(p, flags, id, was, q')
  {
    forall j | j in q' && j !in was
      ensures j < |p.inst| && Reaches(p, flags, id, j)
    {
      if j !in q {
        StepReaches(p, flags, id, next, j);
      }
    }
  }

  lemma GrowEnd(p: Prog, flags: set<Assertion>, id: nat, was: set<nat>, q: set<nat>)
    requires Growing(p, flags, id, was, q) && id < |p.inst| && EmptySucc(p.inst[id], flags) <= q
    ensures Grown(p, flags, id, was, q) && id in q
  {
  }

  /** addq: depth-first expansion. */
  method AddQ(p: Prog, q: Set, id: nat, flags: set<Assertion>)
    requires ValidProg(p) && id < |p.inst| && Room(p, q)
    modifies q, q.sparse
    ensures Room(p, q) && q.sparse == old(q.sparse)
    ensures Grown(p, flags, id, Members(old(q.dense)), Members(q.dense)) && id in Members(q.dense)
    ensures |q.dense| >= old(|q.dense|)
    decreases |p.inst| - |q.dense|, 0
  {
    hide Growing, Grown, ValidProg, Set.Valid;
    ghost var was := Members(q.dense);
    if q.Has(id) {
      NothingGrown(p, flags, id, was);
      return;
    }
    q.Add(id);
    Spare(p, q);
    GrowStart(p, flags, id, was);
    assert Members(q.dense) == was + {id};
    assert ValidInst(p.inst[id], |p.inst|) by {
      InstAt(p, id);
    }
    match p.inst[id] {
      case Capture(out) => Expand(p, q, id, out, flags, was);
      case Nop(out) => Expand(p, q, id, out, flags, was);
      case Alt(out, arg) =>
        Expand(p, q, id, out, flags, was);
        Expand(p, q, id, arg, flags, was);
      case AltMatch(out, arg) =>
        Expand(p, q, id, out, flags, was);
        Expand(p, q, id, arg, flags, was);
      case EmptyWidth(need, out) =>
        if need <= flags {
          Expand(p, q, id, out, flags, was);
        }
      case _ =>
    }
    GrowEnd(p, flags, id, was, Members(q.dense));
  }

  lemma InstAt(p: Prog, id: nat)
    requires ValidProg(p) && id < |p.inst|
    ensures ValidInst(p.inst[id], |p.inst|)
  {
  }

  lemma NothingGrown(p: Prog, flags: set<Assertion>, id: nat, was: set<nat>)
    ensures Grown(p, flags, id, was, was)
  {
  }

  /** One recursive call of addq, for one successor of `id`. */
  method Expand(p: Prog, q: Set, id: nat, next: nat, flags: set<Assertion>, ghost was: set<nat>)
    requires ValidProg(p) && id < |p.inst| && next < |p.inst| && Room(p, q) && next in EmptySucc(p.inst[id], flags)
    requires Growing(p, flags, id, was, Members(q.dense)) && |q.dense| <= |p.inst|
    modifies q, q.sparse
    ensures Room(p, q) && q.sparse == old(q.sparse)
    ensures Growing(p, flags, id, was, Members(q.dense)) && next in Members(q.dense)
    ensures Members(old(q.dense)) <= Members(q.dense)
    ensures |q.dense| >= old(|q.dense|) && |q.dense| <= |p.inst|
    decreases |p.inst| - |q.dense|, 1
  {
    hide Growing, ValidProg, Set.Valid, EmptySucc;
    ghost var before := Members(q.dense);
    AddQ(p, q, next, flags);
    GrowStep(p, flags, id, was, before, next, Members(q.dense));
    Spare(p, q);
  }

  /** The queue is what empty steps reach from `from`: how addq grows it, one instruction at a time. */
  ghost predicate Spread(p: Prog, flags: set<Assertion>, from: set<nat>, q: set<nat>) {
    from <= q && ClosedUnder(p, q, flags) && forall j :: j in q ==> j < |p.inst| && ReachedFrom(p, from, flags, j)
  }

  lemma SpreadNothing(p: Prog, flags: set<Assertion>)
    ensures Spread(p, flags, {}, {})
  {
  }

  lemma SpreadStep(p: Prog, flags: set<Assertion>, from: set<nat>, q: set<nat>, id: nat, q': set<nat>)
    requires Spread(p, flags, from, q) && Grown(p, flags, id, q, q') && id in q'
    ensures Spread(p, flags, from + {id}, q')
  {
    hide Reaches, EmptySucc, ReachedFrom, ClosedUnder;
    SpreadReach(p, flags, from, q, id, q');
    SpreadClosed(p, flags, q, id, q');
  }

  lemma SpreadReach(p: Prog, flags: set<Assertion>, from: set<nat>, q: set<nat>, id: nat, q': set<nat>)
    requires forall j :: j in q ==> j < |p.inst| && ReachedFrom(p, from, flags, j)
    requires forall j :: j in q' && j !in q ==> j < |p.inst| && Reaches(p, flags, id, j)
    ensures forall j :: j in q' ==> j < |p.inst| && ReachedFrom(p, from + {id}, flags, j)
  {
    hide Reaches;
    var more := from + {id};
    forall j | j in q'
      ensures j < |p.inst| && ReachedFrom(p, more, flags, j)
    {
      if j in q {
        var i :| i in from && Reaches(p, flags, i, j);
        assert i in more;
      } else {
        assert id in more;
      }
    }
  }

  lemma SpreadClosed(p: Prog, flags: set<Assertion>, q: set<nat>, id: nat, q': set<nat>)
    requires ClosedUnder(p, q, flags) && Grown(p, flags, id, q, q')
    ensures ClosedUnder(p, q', flags)
  {
    hide Reaches, EmptySucc;
    forall i, j | i in q' && i < |p.inst| && j in EmptySucc(p.inst[i], flags)
      ensures j in q'
    {
      assert i in q ==> j in q;
    }
  }

  lemma SpreadIs(p: Prog, flags: set<Assertion>, from: set<nat>, q: set<nat>)
    requires Spread(p, flags, from, q)
    ensures q == Closure(p, from, flags)
  {
    hide Reaches, ClosedUnder;
    ClosureIs(p, from, flags, q);
  }

  /** addq on an empty queue. */
  method AddFirst(p: Prog, q: Set, id: nat, flags: set<Assertion>)
    requires ValidProg(p) && id < |p.inst| && Room(p, q)
    modifies q, q.sparse
    ensures Room(p, q) && q.sparse == old(q.sparse)
    ensures Spread(p, flags, {id}, Members(q.dense))
  {
    hide Grown, ValidProg, Set.Valid, Spread;
    q.Reset();
    SpreadNothing(p, flags);
    assert Members(q.dense) == {};
    AddQ(p, q, id, flags);
    SpreadStep(p, flags, {}, {}, id, Members(q.dense));
    assert {} + {id} == {id};
  }

  /** stepEmpty: expands the instructions of `runq` under other tests. */
  method StepEmpty(p: Prog, runq: Set, nextq: Set, flags: set<Assertion>)
    requires ValidProg(p) && runq != nextq && runq.sparse != nextq.sparse && Room(p, runq) && Room(p, nextq)
    modifies nextq, nextq.sparse
    ensures Room(p, nextq) && nextq.sparse == old(nextq.sparse)
    ensures Members(nextq.dense) == Closure(p, Members(runq.dense), flags)
  {
    hide Grown, ValidProg, Spread, Closure;
    nextq.Reset();
    SpreadNothing(p, flags);
    var dense := runq.dense;
    assert Members(dense[..0]) == {} == Members(nextq.dense);
    for k := 0 to |dense|
      invariant Room(p, nextq) && nextq.sparse == old(nextq.sparse)
      invariant Spread(p, flags, Members(dense[..k]), Members(nextq.dense))
    {
      ghost var before := Members(nextq.dense);
      AddQ(p, nextq, dense[k], flags);
      SpreadStep(p, flags, Members(dense[..k]), before, dense[k], Members(nextq.dense));
      assert Members(dense[..k + 1]) == Members(dense[..k]) + {dense[k]};
    }
    assert dense[..|dense|] == dense;
    SpreadIs(p, flags, Members(dense), Members(nextq.dense));
  }

  /** The first `k` instructions of the queue. */
  ghost function Stepped(p: Prog, dense: seq<nat>, k: nat, c: int): set<nat>
    requires k <= |dense|
  {
    {p.start} + StepSet(p, Members(dense[..k]), c)
  }

  lemma SteppedMore(p: Prog, dense: seq<nat>, k: nat, c: int)
    requires k < |dense| && dense[k] < |p.inst|
    ensures Stepped(p, dense, k + 1, c) ==
            if AcceptsByte(p.inst[dense[k]], c) then Stepped(p, dense, k, c) + {p.inst[dense[k]].out}
            else Stepped(p, dense, k, c)
  {
    assert Members(dense[..k + 1]) == Members(dense[..k]) + {dense[k]};
    var i := dense[k];
    forall j
      ensures j in StepSet(p, Members(dense[..k + 1]), c) <==>
              j in StepSet(p, Members(dense[..k]), c) || (AcceptsByte(p.inst[i], c) && j == p.inst[i].out)
    {
      if AcceptsByte(p.inst[i], c) && j == p.inst[i].out {
        assert i in Members(dense[..k + 1]);
      }
    }
  }

  /** stepByte: consumes `c` and expands; tells whether a match ends in front of `c`. */
  method StepByte(p: Prog, runq: Set, nextq: Set, c: int, flags: set<Assertion>) returns (matched: bool)
    requires ValidProg(p) && runq != nextq && runq.sparse != nextq.sparse && Room(p, runq) && Room(p, nextq)
    modifies nextq, nextq.sparse
    ensures Room(p, nextq) && nextq.sparse == old(nextq.sparse)
    ensures matched == HasMatch(p, Members(runq.dense))
    ensures Members(nextq.dense) == Closure(p, {p.start} + StepSet(p, Members(runq.dense), c), flags)
  {
    hide Grown, ValidProg, Spread, Closure, StepSet, Stepped, HasMatch;
    StartExists(p);
    AddFirst(p, nextq, p.start, flags);
    matched := false;
    var dense := runq.dense;
    NothingStepped(p, dense, c);
    for k := 0 to |dense|
      invariant Room(p, nextq) && nextq.sparse == old(nextq.sparse)
      invariant Spread(p, flags, Stepped(p, dense, k, c), Members(nextq.dense))
      invariant matched == HasMatch(p, Members(dense[..k]))
    {
      var id := dense[k];
      InstAt(p, id);
      SteppedMore(p, dense, k, c);
      MatchMore(p, dense, k);
      var i := p.inst[id];
      if i.Match? {
        matched := true;
      } else if i.ByteRange? && c != EndOfText {
        var ch := if i.fold && 'a' as int <= c <= 'z' as int then c + ('A' as int - 'a' as int) else c;
        if i.lo <= ch <= i.hi {
          ghost var before := Members(nextq.dense);
          AddQ(p, nextq, i.out, flags);
          SpreadStep(p, flags, Stepped(p, dense, k, c), before, i.out, Members(nextq.dense));
        }
      }
    }
    assert dense[..|dense|] == dense;
    SpreadIs(p, flags, Stepped(p, dense, |dense|, c), Members(nextq.dense));
    SteppedAll(p, dense, c);
  }

  lemma StartExists(p: Prog)
    requires ValidProg(p)
    ensures p.start < |p.inst|
  {
  }

  lemma NothingStepped(p: Prog, dense: seq<nat>, c: int)
    ensures Stepped(p, dense, 0, c) == {p.start} && !HasMatch(p, Members(dense[..0]))
  {
  }

  lemma SteppedAll(p: Prog, dense: seq<nat>, c: int)
    ensures Stepped(p, dense, |dense|, c) == {p.start} + StepSet(p, Members(dense), c)
  {
    assert dense[..|dense|] == dense;
  }

  lemma MatchMore(p: Prog, dense: seq<nat>, k: nat)
    requires k < |dense| && dense[k] < |p.inst|
    ensures HasMatch(p, Members(dense[..k + 1])) <==> HasMatch(p, Members(dense[..k])) || p.inst[dense[k]].Match?
  {
    assert Members(dense[..k + 1]) == Members(dense[..k]) + {dense[k]};
  }
}
