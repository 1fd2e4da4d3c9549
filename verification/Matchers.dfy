/** The lazy DFA (regexp/match.go, matcher): states made on demand and kept under the string that names them. */
module Matchers {
  import opened Bytes
  import opened Varints
  import opened IndexFormat
  import opened SparseSets
  import opened Programs
  import opened StateCodes
  import opened Queues

  /** A state of the DFA, with the NFA state that its string names. */
  class DState {
    var next: seq<DState?>
    const enc: Str
    var matchNL: bool
    var matchEOT: bool
    ghost const z: State

    constructor (enc: Str, ghost z: State)
      ensures this.enc == enc && this.z == z && Unfilled()
    {
      next := seq(256, i => null);
      this.enc := enc;
      matchNL, matchEOT := false, false;
      this.z := z;
    }

    ghost predicate Unfilled()
      reads this`next
    {
      |next| == 256 && forall c :: 0 <= c < 256 ==> next[c] == null
    }

    /** Whether this is dmatch: a match has been seen, and only a newline leads away. */
    ghost predicate OnlyWaits()
      reads this
    {
      |next| == 256 && matchNL && matchEOT && forall c :: 0 <= c < 256 ==> next[c] == if c == NewLine then null else this
    }
  }

  /** dmatch, as the package's init makes it. */
  method NewDMatch() returns (d: DState)
    ensures fresh(d) && d.OnlyWaits()
  {
    d := new DState([0, 0], State({}, false, false, false));
    d.matchNL, d.matchEOT := true, true;
    for i := 0 to 256
      invariant fresh(d) && d.matchNL && d.matchEOT && |d.next| == 256
      invariant forall c :: 0 <= c < i ==> d.next[c] == if c == NewLine then null else d
      invariant forall c :: i <= c < 256 ==> d.next[c] == null
    {
      if i != NewLine {
        d.next := d.next[i := d];
      }
    }
  }

  // ---------------------------------------------------------------- all states of a program

  /** The numbers below `n`. */
  function Ids(n: nat): (s: set<nat>)
    ensures forall i: nat :: i in s <==> i < n
  {
    if n == 0 then {} else Ids(n - 1) + {n - 1}
  }

  ghost predicate ValidState(p: Prog, z: State) {
    z.q <= Ids(|p.inst|)
  }

  /** There are finitely many states. */
  ghost function AllStates(p: Prog): set<State> {
    set q: set<nat>, a: bool, b: bool, c: bool | q <= Ids(|p.inst|) :: State(q, a, b, c)
  }

  ghost function Known(states: set<DState>): set<State> {
    set d | d in states :: d.z
  }

  ghost function Unknown(p: Prog, states: set<DState>): nat {
    |AllStates(p) - Known(states)|
  }

  lemma FewerUnknown(p: Prog, states: set<DState>, d: DState)
    requires ValidState(p, d.z) && d.z !in Known(states)
    ensures Unknown(p, states + {d}) < Unknown(p, states)
  {
    var a, k := AllStates(p), Known(states);
    assert d.z == State(d.z.q, d.z.beginLine, d.z.beginText, d.z.word);
    assert d.z in a - k;
    assert Known(states + {d}) == k + {d.z};
    assert a - (k + {d.z}) == (a - k) - {d.z};
  }

  lemma NoMoreUnknown(p: Prog, states: set<DState>, more: set<DState>)
    requires states <= more
    ensures Unknown(p, more) <= Unknown(p, states)
  {
    var a := AllStates(p);
    assert a - Known(more) <= a - Known(states);
    Smaller(a - Known(more), a - Known(states));
  }

  lemma Smaller(s: set<State>, t: set<State>)
    requires s <= t
    ensures |s| <= |t|
  {
    assert t == s + (t - s);
  }

  lemma ClosureValid(p: Prog, s: set<nat>, flags: set<Assertion>)
    ensures Closure(p, s, flags) <= Ids(|p.inst|)
  {
  }

  // ---------------------------------------------------------------- the matcher

  class Matcher {
    const prog: Prog
    const dmatch: DState                 // a match has been seen, the end of the line has not
    const z1: NState                     // two temporary states
    const z2: NState
    var dstate: map<Str, DState>
    var start: DState
    var startLine: DState
    ghost var states: set<DState>        // the values of dstate

    ghost predicate Scratch()
      reads z1, z2, z1.q, z2.q, z1.q.sparse, z2.q.sparse
    {
      && ValidProg(prog) && z1 != z2 && z1.q != z2.q && z1.q.sparse != z2.q.sparse
      && z1.Valid() && z2.Valid() && Room(prog, z1.q) && Room(prog, z2.q)
    }

    /** The cache: each state is found under its own string, which names it. */
    ghost predicate Cached()
      reads this`dstate, this`states
    {
      && (forall k :: k in dstate ==> dstate[k] in states && dstate[k].enc == k)
      && (forall d :: d in states ==> d.enc in dstate && dstate[d.enc] == d && Encodes(d.enc, d.z) && ValidState(prog, d.z))
      && dmatch !in states
    }

    /** `e` stands for where `c` leads from `z`. */
    ghost predicate IsNext(z: State, c: int, e: DState)
      reads this`states
    {
      match NextState(prog, z, c)
      case None => e == dmatch
      case Some(y) => e in states && e.z == y
    }

    /** Every entry of the table that is filled says where its byte leads; a newline leads to the next line. */
    ghost predicate Filled(d: DState)
      reads this`states, this`startLine, d
    {
      |d.next| == 256 && forall c :: 0 <= c < 256 && d.next[c] != null ==> Follows(d.z, c, d.next[c])
    }

    ghost predicate Follows(z: State, c: int, e: DState)
      reads this`states, this`startLine
    {
      if c == NewLine then NextState(prog, z, c).Some? && e == startLine else IsNext(z, c, e)
    }

    /** Whether a match ends at a newline, or at the end of the text. */
    ghost predicate Decided(d: DState)
      reads d
    {
      d.matchNL == NextState(prog, d.z, NewLine).None? && d.matchEOT == NextState(prog, d.z, EndOfText).None?
    }

    /** The cache and its states, of which those being made may be undecided. */
    ghost predicate States(pending: set<DState>)
      reads this`dstate, this`states, this`startLine, states
    {
      Cached() && (forall d :: d in states ==> Filled(d)) && forall d :: d in states && d !in pending ==> Decided(d)
    }

    /** The state shared by all matchers. */
    ghost predicate Waiting()
      reads dmatch
    {
      dmatch.OnlyWaits()
    }

    ghost predicate Valid()
      reads this`dstate, this`states, this`start, this`startLine, states, dmatch
      reads z1, z2, z1.q, z2.q, z1.q.sparse, z2.q.sparse
    {
      && Scratch() && States({}) && Waiting()
      && start in states && start.z == StartState(prog, true)
      && startLine in states && startLine.z == StartState(prog, false)
    }

    /** An empty cache. */
    constructor (prog: Prog, dmatch: DState)
      requires ValidProg(prog) && |prog.inst| < NoId
      requires dmatch.OnlyWaits()
      ensures this.prog == prog && this.dmatch == dmatch && states == {} && Scratch() && States({}) && Waiting()
      ensures fresh(z1) && fresh(z2) && fresh(z1.q) && fresh(z2.q) && fresh(z1.q.sparse) && fresh(z2.q.sparse)
    {
      this.prog, this.dmatch := prog, dmatch;
      z1 := new NState(|prog.inst|);
      z2 := new NState(|prog.inst|);
      dstate, states := map[], {};
      start, startLine := dmatch, dmatch;
      new;
      hide ValidProg, Set.Valid;
    }

    /** init: the states at the start of the text and at the start of a line. */
    method Init()
      requires Scratch() && States({}) && Waiting() && states == {}
      modifies this`dstate, this`states, this`start, this`startLine, z1, z2, z1.q, z2.q, z1.q.sparse, z2.q.sparse
      ensures Valid() && z1.q.sparse == old(z1.q.sparse) && z2.q.sparse == old(z2.q.sparse) && fresh(states)
    {
      hide *;
      StartAt(true);
      start := Cache(z1, StartState(prog, true), {});
      StartAt(false);
      var line := Cache(z1, StartState(prog, false), {});
      SetStartLine(line);
      Ready();
    }

    /** A queue with the first instruction expanded, and the flags of a start. */
    method StartAt(first: bool)
      requires Scratch()
      modifies z1, z1.q, z1.q.sparse
      ensures Scratch() && z1.q.sparse == old(z1.q.sparse)
      ensures z1.Holds(StartState(prog, first)) && ValidState(prog, StartState(prog, first))
    {
      hide Closure, Set.Valid, ValidProg, Spread;
      var flags := if first then {BeginLine, BeginText} else {BeginLine};
      StartExists(prog);
      AddFirst(prog, z1.q, prog.start, flags);
      SpreadIs(prog, flags, {prog.start}, Members(z1.q.dense));
      ClosureValid(prog, {prog.start}, flags);
      z1.flag := if first then FlagBOL + FlagBOT else FlagBOL;
    }

    /** startLine may be set while no table has an entry for it. */
    method SetStartLine(d: DState)
      requires States({}) && forall x :: x in states ==> x.Unfilled()
      modifies this`startLine
      ensures States({}) && startLine == d
    {
      hide NextState, Encodes, ValidState;
      startLine := d;
    }

    lemma Ready()
      requires Scratch() && States({}) && Waiting() && start in states && start.z == StartState(prog, true)
      requires startLine in states && startLine.z == StartState(prog, false)
      ensures Valid()
    {
    }

    lemma Parts()
      requires Valid()
      ensures Scratch() && States({}) && Waiting() && start in states && start.z == StartState(prog, true)
      ensures startLine in states && startLine.z == StartState(prog, false)
    {
    }

    // -------------------------------------------------------------- computeNext and cache

    /** The tests in effect before `c`. */
    method TestsBefore(f: uint32, c: int, ghost z: State) returns (flag: set<Assertion>)
      requires f == FlagBits(z)
      ensures flag == StateFlags(z, c)
    {
      hide HasBit;
      flag := {};
      if HasBit(f, FlagBOL) {
        flag := flag + {BeginLine};
      }
      if HasBit(f, FlagBOT) {
        flag := flag + {BeginText};
      }
      if HasBit(f, FlagWord) {
        flag := flag + if !IsWordByte(c) then {WordBoundary} else {NoWordBoundary};
      } else {
        flag := flag + if IsWordByte(c) then {WordBoundary} else {NoWordBoundary};
      }
      if c == NewLine {
        flag := flag + {EndLine};
      }
      if c == EndOfText {
        flag := flag + {EndLine, EndText};
      }
    }

    /** The tests that hold behind `c`, and the flags that record them. */
    method TestsAfter(c: int, ghost q: set<nat>) returns (flag: set<Assertion>, f: uint32)
      ensures flag == FlagsAfter(c) && f == FlagBits(State(q, c == NewLine, false, IsWordByte(c)))
    {
      hide HasBit, IsWordByte;
      flag, f := {}, 0;
      if c == NewLine {
        flag := flag + {BeginLine};
        f := f + FlagBOL;
      }
      if IsWordByte(c) {
        f := f + FlagWord;
      }
    }

    /** computeNext up to its last step: the scratch state that `c` leads to, unless a match ends in front of `c`. */
    method Advance(enc: Str, c: int, ghost z: State) returns (matched: bool, next: NState)
      requires Scratch() && Encodes(enc, z) && ValidState(prog, z)
      modifies z1, z2, z1.q, z2.q, z1.q.sparse, z2.q.sparse
      ensures Scratch() && z1.q.sparse == old(z1.q.sparse) && z2.q.sparse == old(z2.q.sparse)
      ensures matched == NextState(prog, z, c).None?
      ensures !matched ==> (next == z1 || next == z2) && next.Holds(NextState(prog, z, c).value)
                           && ValidState(prog, NextState(prog, z, c).value)
    {
      hide Encodes, HasMatch, Closure, StepSet, Set.Valid, ValidProg, StateFlags, FlagsAfter, FlagBits, IsWordByte;
      var this_ := z1;
      next := z2;
      this_.Dec(enc, z);
      var flag := TestsBefore(this_.flag, c, z);
      StepEmpty(prog, this_.q, next.q, flag);
      this_, next := next, this_;
      ghost var run := Members(this_.q.dense);
      var f;
      flag, f := TestsAfter(c, Closure(prog, {prog.start} + StepSet(prog, run, c), FlagsAfter(c)));
      next.flag := f;
      matched := StepByte(prog, this_.q, next.q, c, flag);
      if !matched {
        ClosureValid(prog, {prog.start} + StepSet(prog, run, c), flag);
      }
    }

    method ComputeNext(d: DState, c: int, ghost pending: set<DState>) returns (e: DState)
      requires Scratch() && States(pending) && d in states
      modifies this`dstate, this`states, z1, z2, z1.q, z2.q, z1.q.sparse, z2.q.sparse
      ensures Scratch() && z1.q.sparse == old(z1.q.sparse) && z2.q.sparse == old(z2.q.sparse)
      ensures States(pending) && old(states) <= states && fresh(states - old(states))
      ensures forall x :: x in states - old(states) ==> x.Unfilled()
      ensures IsNext(d.z, c, e)
      decreases Unknown(prog, states), 1
    {
      hide *;
      CachedState(d, pending);
      var matched, next := Advance(d.enc, c, d.z);
      if matched {
        e := dmatch;
      } else {
        e := Cache(next, NextState(prog, d.z, c).value, pending);
      }
      NextIs(d.z, c, matched, e);
    }

    lemma CachedState(d: DState, pending: set<DState>)
      requires States(pending) && d in states
      ensures Encodes(d.enc, d.z) && ValidState(prog, d.z) && d != dmatch && Filled(d) && (d !in pending ==> Decided(d))
    {
    }

    lemma NextIs(z: State, c: int, matched: bool, e: DState)
      requires matched == NextState(prog, z, c).None?
      requires if matched then e == dmatch else e in states && e.z == NextState(prog, z, c).value
      ensures IsNext(z, c, e)
    {
    }

    /** cache: the state for `s`, made if it is not there yet. Each miss adds a state, of which there are finitely
        many, so the recursion through computeNext ends. */
    method Cache(z: NState, ghost s: State, ghost pending: set<DState>) returns (d: DState)
      requires Scratch() && States(pending) && (z == z1 || z == z2) && z.Holds(s) && ValidState(prog, s)
      modifies this`dstate, this`states, z1, z2, z1.q, z2.q, z1.q.sparse, z2.q.sparse
      ensures Scratch() && z1.q.sparse == old(z1.q.sparse) && z2.q.sparse == old(z2.q.sparse)
      ensures States(pending) && old(states) <= states && fresh(states - old(states))
      ensures forall x :: x in states - old(states) ==> x.Unfilled()
      ensures d in states && d.z == s
      decreases Unknown(prog, states), 0
    {
      hide *;
      var enc := z.Enc(s);
      if enc in dstate {
        d := dstate[enc];
        FoundState(enc, s, pending);
        return;
      }
      d := AddState(enc, s, pending);
      ghost var made := states;
      var e := ComputeNext(d, NewLine, pending + {d});
      NoMoreUnknown(prog, made, states);
      MatchIs(d.z, NewLine, e, pending + {d});
      SetNewLine(d, e == dmatch, pending + {d});
      e := ComputeNext(d, EndOfText, pending + {d});
      MatchIs(d.z, EndOfText, e, pending + {d});
      SetEndOfText(d, e == dmatch, pending);
    }

    lemma FoundState(enc: Str, s: State, pending: set<DState>)
      requires States(pending) && enc in dstate && Encodes(enc, s)
      ensures dstate[enc] in states && dstate[enc].z == s
    {
      hide Encodes;
      EncodesOne(enc, dstate[enc].z, s);
    }

    /** A miss: a new state, whose string was not there. */
    method AddState(enc: Str, ghost s: State, ghost pending: set<DState>) returns (d: DState)
      requires States(pending) && enc !in dstate && Encodes(enc, s) && ValidState(prog, s)
      modifies this`dstate, this`states
      ensures fresh(d) && states == old(states) + {d} && States(pending + {d}) && d.Unfilled() && d.z == s
      ensures Unknown(prog, states) < old(Unknown(prog, states))
    {
      hide Encodes, NextState, Unknown, ValidState;
      assert s !in Known(states) by {
        if s in Known(states) {
          var x :| x in states && x.z == s;
          StateHasOneCode(enc, x.enc, s);
        }
      }
      d := new DState(enc, s);
      FewerUnknown(prog, states, d);
      dstate := dstate[enc := d];
      states := states + {d};
    }

    lemma MatchIs(z: State, c: int, e: DState, pending: set<DState>)
      requires States(pending) && IsNext(z, c, e)
      ensures e == dmatch <==> NextState(prog, z, c).None?
    {
    }

    method SetNewLine(d: DState, matched: bool, ghost pending: set<DState>)
      requires States(pending) && d in states && d in pending && matched == NextState(prog, d.z, NewLine).None?
      modifies d`matchNL
      ensures States(pending) && d.matchNL == NextState(prog, d.z, NewLine).None?
    {
      hide NextState, Encodes, ValidState;
      d.matchNL := matched;
    }

    method SetEndOfText(d: DState, matched: bool, ghost pending: set<DState>)
      requires States(pending + {d}) && d in states && matched == NextState(prog, d.z, EndOfText).None?
      requires d.matchNL == NextState(prog, d.z, NewLine).None?
      modifies d`matchEOT
      ensures States(pending)
    {
      hide NextState, Encodes, ValidState;
      d.matchEOT := matched;
    }

    // -------------------------------------------------------------- match

    /** `d` stands for `z`, or for a match seen before. */
    ghost predicate StandsFor(d: DState, z: Option<State>)
      reads this`states
    {
      match z
      case None => d == dmatch
      case Some(y) => d in states && d.z == y
    }

    /** One byte of match: fills the table entry if need be. A newline stops the search if a match ends there, and
        otherwise starts the next line. */
    method Step(d: DState, c: byte, ghost z: Option<State>) returns (d1: DState, stop: bool)
      requires Valid() && StandsFor(d, z)
      modifies this`dstate, this`states, z1, z2, z1.q, z2.q, z1.q.sparse, z2.q.sparse, states
      ensures Valid() && z1.q.sparse == old(z1.q.sparse) && z2.q.sparse == old(z2.q.sparse)
      ensures old(states) <= states && fresh(states - old(states))
      ensures c != NewLine ==> !stop && StandsFor(d1, if z.None? then None else NextState(prog, z.value, c))
      ensures c == NewLine ==> stop == (z.None? || NextState(prog, z.value, c).None?) && (!stop ==> d1 == startLine)
    {
      hide *;
      Parts();
      Entry(d, c, z);
      d1, stop := d, false;
      if d.next[c] == null {
        if c == NewLine {
          if d.matchNL {
            stop := true;
            return;
          }
          d1 := startLine;
          LineFollows(d, z.value);
        } else {
          d1 := ComputeNext(d, c, {});
          Ready();
          ByteFollows(d, c, d1);
        }
        Fill(d, c, d1);
      } else {
        d1 := d.next[c];
      }
    }

    /** What the table entry for `c` says, filled or not. */
    lemma Entry(d: DState, c: byte, z: Option<State>)
      requires Valid() && StandsFor(d, z)
      ensures |d.next| == 256
      ensures d.next[c] != null ==> if c == NewLine then d.next[c] == startLine && z.Some? && NextState(prog, z.value, c).Some?
                                    else StandsFor(d.next[c], if z.None? then None else NextState(prog, z.value, c))
      ensures d.next[c] == null && c == NewLine ==> d.matchNL == (z.None? || NextState(prog, z.value, c).None?)
      ensures d.next[c] == null && (c == NewLine ==> !d.matchNL) ==> z.Some? && d in states && d.z == z.value
    {
      hide NextState, Scratch, Cached;
    }

    lemma LineFollows(d: DState, z: State)
      requires NextState(prog, z, NewLine).Some? && d.z == z
      ensures Follows(d.z, NewLine, startLine)
    {
    }

    lemma ByteFollows(d: DState, c: byte, e: DState)
      requires IsNext(d.z, c, e) && c != NewLine
      ensures Follows(d.z, c, e) && StandsFor(e, NextState(prog, d.z, c))
    {
    }

    method Fill(d: DState, c: byte, e: DState)
      requires Valid() && d in states && |d.next| == 256 && Follows(d.z, c, e)
      modifies d`next
      ensures Valid() && d.next == old(d.next)[c := e]
    {
      hide NextState, Encodes, ValidState, Scratch, Follows;
      d.next := d.next[c := e];
    }

    lemma Program()
      requires Valid()
      ensures ValidProg(prog)
    {
    }

    lemma AtStart(b: Str, beginText: bool, d: DState)
      requires Valid() && d == if beginText then start else startLine
      ensures StandsFor(d, Some(StartState(prog, beginText)))
      ensures Reading(prog, b, 0, beginText) == Some(StartState(prog, beginText))
    {
      assert b[0..0] == [];
    }

    lemma LineStands()
      requires Valid()
      ensures StandsFor(startLine, Some(StartState(prog, false)))
    {
    }

    lemma EndOf(d: DState, z: Option<State>)
      requires Valid() && StandsFor(d, z)
      ensures d.matchNL == (z.None? || NextState(prog, z.value, NewLine).None?)
      ensures d.matchEOT == (z.None? || NextState(prog, z.value, EndOfText).None?)
    {
      hide NextState, Scratch, Cached;
    }

    /** match: the least end of a line that has a match, or -1. A line ends at a newline or at the end of `b`, which
        counts as followed by a newline and, with `endText`, as the end of the text. */
    method Match(b: Str, beginText: bool, endText: bool) returns (end: int)
      requires Valid()
      modifies this`dstate, this`states, z1, z2, z1.q, z2.q, z1.q.sparse, z2.q.sparse, states
      ensures Valid() && z1.q.sparse == old(z1.q.sparse) && z2.q.sparse == old(z2.q.sparse)
      ensures old(states) <= states && fresh(states - old(states))
      ensures end == -1 ==> forall e: nat :: LineEnd(b, e) ==> !LineFound(prog, b, e, beginText, endText)
      ensures end != -1 ==> 0 <= end && LineEnd(b, end) && LineFound(prog, b, end, beginText, endText)
                            && forall e: nat :: e < end && LineEnd(b, e) ==> !LineFound(prog, b, e, beginText, endText)
    {
      hide *;
      var d := startLine;
      if beginText {
        d := start;
      }
      AtStart(b, beginText, d);
      Program();
      var i := 0;
      while i < |b|
        invariant 0 <= i <= |b| && Valid() && StandsFor(d, Reading(prog, b, i, beginText))
        invariant z1.q.sparse == old(z1.q.sparse) && z2.q.sparse == old(z2.q.sparse)
        invariant old(states) <= states && fresh(states - old(states))
        invariant forall e: nat :: e < i && LineEnd(b, e) ==> !LineFound(prog, b, e, beginText, endText)
      {
        ReadingStep(prog, b, i, beginText, endText);
        var stop;
        d, stop := Step(d, b[i], Reading(prog, b, i, beginText));
        if stop {
          return i;
        }
        LineStands();
        i := i + 1;
      }
      ReadingEnd(prog, b, beginText, endText);
      EndOf(d, Reading(prog, b, i, beginText));
      if d.matchNL || (endText && d.matchEOT) {
        return |b|;
      }
      return -1;
    }
  }

  // ---------------------------------------------------------------- lines of a text

  predicate LineEnd(b: Str, e: nat) {
    e <= |b| && (e == |b| || b[e] == NewLine)
  }

  /** Where the line with place `e` starts. */
  function LineStart(b: Str, e: nat): (s: nat)
    requires e <= |b|
    ensures s <= e
  {
    if e == 0 || b[e - 1] == NewLine then e else LineStart(b, e - 1)
  }

  function LineTo(b: Str, e: nat, beginText: bool, end: int): Line
    requires e <= |b|
  {
    Line(b[LineStart(b, e)..e], beginText && LineStart(b, e) == 0, end)
  }

  /** A line is what lies between two newlines, or between one and an end of the text. */
  lemma {:induction false} LineIs(b: Str, e: nat, beginText: bool, end: int)
    requires e <= |b|
    ensures var s := LineStart(b, e);
            LineTo(b, e, beginText, end) == Line(b[s..e], beginText && s == 0, end)
            && (s == 0 || b[s - 1] == '\n' as int) && forall i :: s <= i < e ==> b[i] != '\n' as int
    ensures LineEnd(b, e) <==> e == |b| || b[e] == '\n' as int
  {
    if e > 0 && b[e - 1] != NewLine {
      LineIs(b, e - 1, beginText, end);
    }
  }

  /** Some path matches in the line that ends at `e`. */
  ghost predicate LineFound(p: Prog, b: Str, e: nat, beginText: bool, endText: bool)
    requires e <= |b|
  {
    LineMatches(p, LineTo(b, e, beginText, NewLine))
    || (e == |b| && endText && LineMatches(p, LineTo(b, e, beginText, EndOfText)))
  }

  /** The state the DFA is in at place `i`. */
  ghost function Reading(p: Prog, b: Str, i: nat, beginText: bool): Option<State>
    requires i <= |b|
  {
    var l := LineTo(b, i, beginText, NewLine);
    After(p, StartState(p, l.first), l.text)
  }

  lemma {:induction false} LineValid(b: Str, e: nat, beginText: bool, end: int)
    requires e <= |b| && (end == NewLine || end == EndOfText)
    ensures LineTo(b, e, beginText, end).Valid()
  {
    if e > 0 && b[e - 1] != NewLine {
      LineValid(b, e - 1, beginText, end);
      var s := LineStart(b, e);
      assert b[s..e] == b[s..e - 1] + [b[e - 1]];
    }
  }

  /** Whether the state at `e` accepts a line end there. */
  lemma FoundIs(p: Prog, b: Str, e: nat, beginText: bool, end: int)
    requires ValidProg(p) && e <= |b| && (end == NewLine || end == EndOfText)
    ensures var z := Reading(p, b, e, beginText);
            LineMatches(p, LineTo(b, e, beginText, end)) <==> z.None? || NextState(p, z.value, end).None?
  {
    hide ValidProg, LineMatches, NextState, After, StartState, LineStart;
    LineValid(b, e, beginText, end);
    DfaIsNfa(p, LineTo(b, e, beginText, end));
  }

  /** One more byte: a newline decides about its line and starts the next, another byte takes a step. */
  lemma ReadingStep(p: Prog, b: Str, i: nat, beginText: bool, endText: bool)
    requires ValidProg(p) && i < |b|
    ensures var z := Reading(p, b, i, beginText);
            if b[i] == NewLine then
              LineEnd(b, i)
              && (LineFound(p, b, i, beginText, endText) <==> z.None? || NextState(p, z.value, NewLine).None?)
              && Reading(p, b, i + 1, beginText) == Some(StartState(p, false))
            else
              !LineEnd(b, i)
              && Reading(p, b, i + 1, beginText) == if z.None? then None else NextState(p, z.value, b[i])
  {
    hide ValidProg, LineMatches, NextState, StartState;
    if b[i] == NewLine {
      FoundIs(p, b, i, beginText, NewLine);
      assert LineStart(b, i + 1) == i + 1 && b[i + 1..i + 1] == [];
    } else {
      var s := LineStart(b, i);
      assert LineStart(b, i + 1) == s;
      assert b[s..i + 1][..i - s] == b[s..i] && b[s..i + 1][i - s] == b[i];
    }
  }

  lemma ReadingEnd(p: Prog, b: Str, beginText: bool, endText: bool)
    requires ValidProg(p)
    ensures var z := Reading(p, b, |b|, beginText);
            LineEnd(b, |b|) && (forall e: nat :: LineEnd(b, e) ==> e <= |b|)
            && (LineFound(p, b, |b|, beginText, endText) <==>
                z.None? || NextState(p, z.value, NewLine).None? || (endText && NextState(p, z.value, EndOfText).None?))
  {
    hide ValidProg, LineMatches, NextState, StartState, Reading;
    FoundIs(p, b, |b|, beginText, NewLine);
    FoundIs(p, b, |b|, beginText, EndOfText);
  }
}
