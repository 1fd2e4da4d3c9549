/** Compiling a program to bytes (regexp/utf.go, toByteProg): each rune instruction is replaced, and the program matches
    the lines that it matched before. */
module BytePrograms {
  import opened Bytes
  import opened Utf8
  import opened RuneRanges
  import opened Programs
  import opened RuneBuilders

  // ---------------------------------------------------------------- programs that still have rune instructions

  /** A rune instruction reads a word of its class at once. */
  ghost predicate RuneStep(p: Prog, l: Line, a: Config, b: Config) {
    a.pc < |p.inst| && p.inst[a.pc].RuneInst? && a.pos <= b.pos <= |l.text|
    && l.text[a.pos..b.pos] in ClassAdded(p.inst[a.pc].ranges) && b.pc == p.inst[a.pc].out
  }

  ghost predicate RuneMove(p: Prog, l: Line, a: Config, b: Config) {
    Move(p, l, a, b) || RuneStep(p, l, a, b)
  }

  ghost predicate IsRunePath(p: Prog, l: Line, path: seq<Config>) {
    path != [] && path[0].pc == p.start && path[0].pos <= |l.text|
    && forall k :: 0 <= k < |path| - 1 ==> RuneMove(p, l, path[k], path[k + 1])
  }

  ghost predicate RunePathTo(p: Prog, l: Line, c: Config) {
    exists path: seq<Config> :: IsRunePath(p, l, path) && path[|path| - 1] == c
  }

  ghost predicate MatchesAt(p: Prog, l: Line, c: Config) {
    RunePathTo(p, l, c) && c.pos <= |l.text| && c.pc < |p.inst| && p.inst[c.pc].Match?
  }

  /** Some path over bytes and runes ends with a match. */
  ghost predicate RuneMatches(p: Prog, l: Line) {
    exists c: Config :: MatchesAt(p, l, c)
  }

  lemma RunePathStarts(p: Prog, l: Line, k: nat)
    requires k <= |l.text|
    ensures RunePathTo(p, l, Config(k, p.start))
  {
    assert IsRunePath(p, l, [Config(k, p.start)]);
  }

  lemma RunePathGrows(p: Prog, l: Line, a: Config, b: Config)
    requires RunePathTo(p, l, a) && RuneMove(p, l, a, b)
    ensures RunePathTo(p, l, b)
  {
    hide RuneMove;
    var path :| IsRunePath(p, l, path) && path[|path| - 1] == a;
    var longer := path + [b];
    assert IsRunePath(p, l, longer);
    assert longer[|longer| - 1] == b;
  }

  predicate NoRunes(p: Prog) {
    forall i :: 0 <= i < |p.inst| ==> !p.inst[i].RuneInst?
  }

  /** Without rune instructions these are the paths over bytes. */
  lemma NoRunesSame(p: Prog, l: Line)
    requires NoRunes(p)
    ensures RuneMatches(p, l) <==> LineMatches(p, l)
  {
    hide Move;
    if RuneMatches(p, l) {
      var c :| MatchesAt(p, l, c);
      var path: seq<Config> :| IsRunePath(p, l, path) && path[|path| - 1] == c;
      assert IsPath(p, l, path);
    }
    if LineMatches(p, l) {
      var path: seq<Config> :| IsPath(p, l, path) && var e := path[|path| - 1];
        e.pc < |p.inst| && e.pos <= |l.text| && p.inst[e.pc].Match?;
      assert IsRunePath(p, l, path);
      assert MatchesAt(p, l, path[|path| - 1]);
    }
  }

  // ---------------------------------------------------------------- one instruction replaced

  /** `inst` is `p` with the rune instruction at `pc` compiled, as CompileClass leaves it. */
  ghost predicate Replaces(inst: seq<Inst>, p: seq<Inst>, pc: nat) {
    pc < |p| && p[pc].RuneInst? && p[pc].out < |p| && p[pc].out != pc
    && |p| <= |inst| && (forall x :: 0 <= x < |p| && x != pc ==> inst[x] == p[x])
    && Compiled(inst, |p|, pc, p[pc].out)
    && forall s: Str :: Leads(inst, p[pc].out, pc, s) <==> s in ClassAdded(p[pc].ranges)
  }

  /** Moves of instructions that stay are the same. */
  lemma MoveStays(p: Prog, q: Prog, l: Line, a: Config, b: Config)
    requires a.pc < |p.inst| && a.pc < |q.inst| && p.inst[a.pc] == q.inst[a.pc]
    ensures RuneMove(p, l, a, b) <==> RuneMove(q, l, a, b)
  {
    hide ClassAdded;
  }

  /** What leads to the exit over `s` is a path over `s`. */
  lemma {:induction false} LeadsPath(q: Prog, l: Line, out: nat, n: nat, x: nat, i: nat, s: Str)
    requires LeadsIn(q.inst, out, n, x, s) && i + |s| <= |l.text| && l.text[i..i + |s|] == s
    requires RunePathTo(q, l, Config(i, x))
    ensures RunePathTo(q, l, Config(i + |s|, out))
    decreases n
  {
    hide RunePathTo, Line.FlagsAt;
    if x != out {
      match q.inst[x]
      case Nop(o) =>
        RunePathGrows(q, l, Config(i, x), Config(i, o));
        LeadsPath(q, l, out, n - 1, o, i, s);
      case Alt(o, a) =>
        var y := if LeadsIn(q.inst, out, n - 1, o, s) then o else a;
        RunePathGrows(q, l, Config(i, x), Config(i, y));
        LeadsPath(q, l, out, n - 1, y, i, s);
      case ByteRange(_, _, _, o) =>
        assert l.text[i] == s[0] && l.text[i + 1..i + 1 + |s[1..]|] == s[1..];
        RunePathGrows(q, l, Config(i, x), Config(i + 1, o));
        LeadsPath(q, l, out, n - 1, o, i + 1, s[1..]);
    }
  }

  /** A path of the program with the rune instruction is a path of the one without. */
  lemma {:induction false} PathForth(p: Prog, q: Prog, pc: nat, l: Line, path: seq<Config>)
    requires Replaces(q.inst, p.inst, pc) && q.start == p.start && ValidProg(p) && IsRunePath(p, l, path)
    ensures RunePathTo(q, l, path[|path| - 1])
    decreases |path|
  {
    hide RunePathTo, RuneMove, Compiled, Leads, ClassAdded, ValidProg;
    var n := |path| - 1;
    if n == 0 {
      RunePathStarts(q, l, path[0].pos);
    } else {
      var front := path[..n];
      assert forall k :: 0 <= k < |front| ==> front[k] == path[k];
      PathForth(p, q, pc, l, front);
      var a, b := path[n - 1], path[n - 1 + 1];
      assert RuneMove(p, l, a, b);
      MoveStarts(p, l, a, b);
      if a.pc != pc {
        MoveStays(p, q, l, a, b);
        RunePathGrows(q, l, a, b);
      } else {
        RuneMoveIs(p, l, a, b);
        var s := l.text[a.pos..b.pos];
        LeadsForth(q, l, p.inst[pc].out, pc, a.pos, s);
      }
    }
  }

  lemma LeadsForth(q: Prog, l: Line, out: nat, pc: nat, i: nat, s: Str)
    requires Leads(q.inst, out, pc, s) && i + |s| <= |l.text| && l.text[i..i + |s|] == s && RunePathTo(q, l, Config(i, pc))
    ensures RunePathTo(q, l, Config(i + |s|, out))
  {
    hide LeadsIn, RunePathTo;
    var n: nat :| LeadsIn(q.inst, out, n, pc, s);
    LeadsPath(q, l, out, n, pc, i, s);
  }

  lemma MoveStarts(p: Prog, l: Line, a: Config, b: Config)
    requires RuneMove(p, l, a, b)
    ensures a.pc < |p.inst| && b.pos <= |l.text|
  {
  }

  /** All that a rune instruction does. */
  lemma RuneMoveIs(p: Prog, l: Line, a: Config, b: Config)
    requires RuneMove(p, l, a, b) && a.pc < |p.inst| && p.inst[a.pc].RuneInst?
    ensures RuneStep(p, l, a, b)
  {
  }

  /** Inside the new instructions at `x`: whatever leads on from there leads from `pc` over the bytes read so far. */
  ghost predicate Inside(inst: seq<Inst>, out: nat, pc: nat, read: Str, x: nat) {
    forall s: Str :: Leads(inst, out, x, s) ==> Leads(inst, out, pc, read + s)
  }

  lemma InsideStarts(inst: seq<Inst>, out: nat, pc: nat)
    ensures Inside(inst, out, pc, [], pc)
  {
    hide Leads;
    forall s: Str
      ensures [] + s == s
    {
    }
  }

  lemma InsideEmpty(inst: seq<Inst>, out: nat, pc: nat, read: Str, x: nat, y: nat)
    requires Inside(inst, out, pc, read, x) && x < |inst| && x != out && y in EmptySucc(inst[x], {})
    requires inst[x].Nop? || inst[x].Alt?
    ensures Inside(inst, out, pc, read, y)
  {
    forall s: Str | Leads(inst, out, y, s)
      ensures Leads(inst, out, pc, read + s)
    {
      var n: nat :| LeadsIn(inst, out, n, y, s);
      assert LeadsIn(inst, out, n + 1, x, s) == StepLeads(inst, out, n + 1, x, s);
      assert LeadsIn(inst, out, n + 1, x, s);
    }
  }

  lemma InsideByte(inst: seq<Inst>, out: nat, pc: nat, read: Str, x: nat, c: byte)
    requires Inside(inst, out, pc, read, x) && x < |inst| && x != out && AcceptsByte(inst[x], c)
    ensures Inside(inst, out, pc, read + [c], inst[x].out)
  {
    forall s: Str | Leads(inst, out, inst[x].out, s)
      ensures Leads(inst, out, pc, read + [c] + s)
    {
      var n: nat :| LeadsIn(inst, out, n, inst[x].out, s);
      var t := [c] + s;
      assert t[0] == c && t[1..] == s;
      assert LeadsIn(inst, out, n + 1, x, t) == StepLeads(inst, out, n + 1, x, t);
      assert LeadsIn(inst, out, n + 1, x, t);
      assert read + [c] + s == read + t;
    }
  }

  lemma InsideEnds(inst: seq<Inst>, out: nat, pc: nat, read: Str)
    requires Inside(inst, out, pc, read, out)
    ensures Leads(inst, out, pc, read)
  {
    assert LeadsIn(inst, out, 0, out, []);
    assert Leads(inst, out, out, []);
    assert read + [] == read;
  }

  /** Where a path of the compiled program is, seen from the program before: at an instruction that stays, or inside the
      new ones since place `j`. */
  ghost predicate Tracked(p: Prog, q: Prog, pc: nat, l: Line, c: Config) {
    c.pos <= |l.text| && pc < |p.inst| && p.inst[pc].RuneInst?
    && (c.pc < |p.inst| ==> RunePathTo(p, l, c))
    && (c.pc >= |p.inst| ==> exists j: nat :: Since(p, q, pc, l, c, j))
  }

  ghost predicate Since(p: Prog, q: Prog, pc: nat, l: Line, c: Config, j: nat)
    requires pc < |p.inst| && p.inst[pc].RuneInst? && c.pos <= |l.text|
  {
    j <= c.pos && RunePathTo(p, l, Config(j, pc)) && Inside(q.inst, p.inst[pc].out, pc, l.text[j..c.pos], c.pc)
  }

  lemma TrackedStep(p: Prog, q: Prog, pc: nat, l: Line, a: Config, b: Config)
    requires Replaces(q.inst, p.inst, pc) && ValidProg(p) && Tracked(p, q, pc, l, a) && RuneMove(q, l, a, b)
    ensures Tracked(p, q, pc, l, b)
  {
    if a.pc < |p.inst| && a.pc != pc {
      hide Leads, ClassAdded, RunePathTo, Compiled;
      MoveStays(p, q, l, a, b);
      MoveTarget(p, l, a, b);
      RunePathGrows(p, l, a, b);
    } else {
      hide ClassAdded, RunePathTo, Leads, ValidProg;
      var out := p.inst[pc].out;
      var j: nat := a.pos;
      if a.pc == pc {
        InsideStarts(q.inst, out, pc);
        assert l.text[j..j] == [];
      } else {
        j :| Since(p, q, pc, l, a, j);
      }
      InternalStep(p, q, pc, l, a, b, j);
    }
  }

  lemma MoveTarget(p: Prog, l: Line, a: Config, b: Config)
    requires ValidProg(p) && RuneMove(p, l, a, b)
    ensures b.pos <= |l.text| && b.pc < |p.inst|
  {
    hide ClassAdded, Line.FlagsAt;
    assert ValidInst(p.inst[a.pc], |p.inst|);
  }

  lemma InternalStep(p: Prog, q: Prog, pc: nat, l: Line, a: Config, b: Config, j: nat)
    requires Replaces(q.inst, p.inst, pc) && a.pos <= |l.text| && Since(p, q, pc, l, a, j)
    requires a.pc == pc || a.pc >= |p.inst|
    requires RuneMove(q, l, a, b)
    ensures Tracked(p, q, pc, l, b)
  {
    hide ClassAdded, RunePathTo, Leads, Inside, Line.FlagsAt;
    var out := p.inst[pc].out;
    assert Internal(q.inst[a.pc], |p.inst|, out);
    if a.pos == b.pos {
      InsideEmpty(q.inst, out, pc, l.text[j..a.pos], a.pc, b.pc);
      assert Since(p, q, pc, l, b, j);
    } else {
      InsideByte(q.inst, out, pc, l.text[j..a.pos], a.pc, l.text[a.pos]);
      assert l.text[j..a.pos] + [l.text[a.pos]] == l.text[j..b.pos];
      if b.pc == out {
        InsideEnds(q.inst, out, pc, l.text[j..b.pos]);
        RunePathGrows(p, l, Config(j, pc), b);
      } else {
        assert Since(p, q, pc, l, b, j);
      }
    }
  }

  lemma {:induction false} PathBack(p: Prog, q: Prog, pc: nat, l: Line, path: seq<Config>)
    requires Replaces(q.inst, p.inst, pc) && q.start == p.start && ValidProg(p) && IsRunePath(q, l, path)
    ensures Tracked(p, q, pc, l, path[|path| - 1])
    decreases |path|
  {
    hide RuneMove, Compiled, Leads, ClassAdded;
    var n := |path| - 1;
    if n == 0 {
      RunePathStarts(p, l, path[0].pos);
    } else {
      hide Tracked;
      var front := path[..n];
      assert forall k :: 0 <= k < |front| ==> front[k] == path[k];
      PathBack(p, q, pc, l, front);
      assert RuneMove(q, l, path[n - 1], path[n - 1 + 1]);
      TrackedStep(p, q, pc, l, path[n - 1], path[n]);
    }
  }

  /** Replacing one rune instruction changes no match. */
  lemma ReplacedMatches(p: Prog, q: Prog, pc: nat, l: Line)
    requires Replaces(q.inst, p.inst, pc) && q.start == p.start && ValidProg(p)
    ensures RuneMatches(p, l) <==> RuneMatches(q, l)
  {
    hide RuneMove, Leads, ClassAdded;
    if RuneMatches(p, l) {
      var c :| MatchesAt(p, l, c);
      var path :| IsRunePath(p, l, path) && path[|path| - 1] == c;
      PathForth(p, q, pc, l, path);
      assert MatchesAt(q, l, c);
    }
    if RuneMatches(q, l) {
      var c :| MatchesAt(q, l, c);
      var path :| IsRunePath(q, l, path) && path[|path| - 1] == c;
      PathBack(p, q, pc, l, path);
      assert c.pc != pc && c.pc < |p.inst|;
      assert MatchesAt(p, l, c);
    }
  }

  // ---------------------------------------------------------------- compiled instructions stay

  /** From `x` and from `lo` up to `hi` one leads only on among these, and to `out`. */
  predicate Closed(inst: seq<Inst>, out: nat, x: nat, lo: nat, hi: nat) {
    x < |inst| && lo <= hi <= |inst| && x != out
    && forall y :: 0 <= y < |inst| && (y == x || lo <= y < hi) ==> ClosedInst(inst[y], lo, hi, out)
  }

  predicate ClosedInst(i: Inst, lo: nat, hi: nat, out: nat) {
    match i
    case Fail => true
    case Nop(o) => lo <= o < hi
    case Alt(o, a) => lo <= o < hi && lo <= a < hi
    case ByteRange(_, _, _, o) => lo <= o < hi || o == out
    case _ => false
  }

  lemma {:induction false} LeadsStays(inst: seq<Inst>, more: seq<Inst>, out: nat, x: nat, lo: nat, hi: nat, n: nat, y: nat, s: Str)
    requires Closed(inst, out, x, lo, hi) && |inst| <= |more| && more[x] == inst[x] && more[lo..hi] == inst[lo..hi]
    requires y == x || y == out || lo <= y < hi
    ensures LeadsIn(inst, out, n, y, s) <==> LeadsIn(more, out, n, y, s)
    decreases n
  {
    if y != out && n > 0 {
      assert more[y] == inst[y] by {
        if y != x {
          assert more[lo..hi][y - lo] == inst[lo..hi][y - lo];
        }
      }
      assert ClosedInst(inst[y], lo, hi, out);
      assert LeadsIn(inst, out, n, y, s) == StepLeads(inst, out, n, y, s);
      assert LeadsIn(more, out, n, y, s) == StepLeads(more, out, n, y, s);
      match inst[y]
      case Nop(o) => LeadsStays(inst, more, out, x, lo, hi, n - 1, o, s);
      case Alt(o, a) =>
        LeadsStays(inst, more, out, x, lo, hi, n - 1, o, s);
        LeadsStays(inst, more, out, x, lo, hi, n - 1, a, s);
      case ByteRange(_, _, _, o) =>
        if s != [] {
          LeadsStays(inst, more, out, x, lo, hi, n - 1, o, s[1..]);
        }
      case _ =>
    }
  }

  /** The rune instruction `i` at `x` is compiled: one leads from there to its exit over exactly its class. */
  ghost predicate CompiledAs(inst: seq<Inst>, n: nat, i: Inst, x: nat)
    requires i.RuneInst?
  {
    (exists lo: nat, hi: nat :: n <= lo && Closed(inst, i.out, x, lo, hi))
    && forall s: Str :: Leads(inst, i.out, x, s) <==> s in ClassAdded(i.ranges)
  }

  lemma CompiledStays(inst: seq<Inst>, more: seq<Inst>, n: nat, i: Inst, x: nat, pc: nat)
    requires i.RuneInst? && x < n <= |inst| && CompiledAs(inst, n, i, x) && pc < n && pc != x
    requires |inst| <= |more| && forall y :: 0 <= y < |inst| && y != pc ==> more[y] == inst[y]
    ensures CompiledAs(more, n, i, x)
  {
    hide LeadsIn, ClassAdded;
    var lo: nat, hi: nat :| n <= lo && Closed(inst, i.out, x, lo, hi);
    assert Closed(more, i.out, x, lo, hi);
    forall s: Str
      ensures Leads(more, i.out, x, s) <==> Leads(inst, i.out, x, s)
    {
      forall k: nat
        ensures LeadsIn(inst, i.out, k, x, s) <==> LeadsIn(more, i.out, k, x, s)
      {
        LeadsStays(inst, more, i.out, x, lo, hi, k, x, s);
      }
    }
  }

  /** CompileClass leaves a compiled instruction, */
  lemma ClassCompiled(inst: seq<Inst>, start: nat, n: nat, base: nat, i: Inst, x: nat)
    requires i.RuneInst? && x < n <= base <= |inst| && i.out != x && ValidProg(Prog(inst, start)) && Compiled(inst, base, x, i.out)
    requires forall s: Str :: Leads(inst, i.out, x, s) <==> s in ClassAdded(i.ranges)
    ensures CompiledAs(inst, n, i, x)
  {
    hide Leads, ClassAdded;
    forall y | 0 <= y < |inst| && (y == x || base <= y)
      ensures ClosedInst(inst[y], base, |inst|, i.out)
    {
      assert Internal(inst[y], base, i.out) && ValidInst(inst[y], |inst|);
    }
    assert Closed(inst, i.out, x, base, |inst|);
  }

  /** and so does a byte instruction in its place. */
  lemma ByteCompiled(inst: seq<Inst>, n: nat, i: Inst, x: nat)
    requires i.RuneInst? && x < n <= |inst| && CompilableInst(i, x) && OneByteRange(i.ranges).Some?
    requires inst[x] == ByteRange(OneByteRange(i.ranges).value.0, OneByteRange(i.ranges).value.1, false, i.out)
    ensures CompiledAs(inst, n, i, x)
  {
    hide ClassAdded, OneByteRange;
    assert Closed(inst, i.out, x, n, n);
    forall s: Str
      ensures Leads(inst, i.out, x, s) <==> s in ClassAdded(i.ranges)
    {
      OneByteWords(i.ranges, s);
      ByteLeads(inst, i.out, x, s);
    }
  }

  lemma ByteLeads(inst: seq<Inst>, out: nat, x: nat, s: Str)
    requires x < |inst| && x != out && inst[x].ByteRange? && inst[x].out == out
    ensures Leads(inst, out, x, s) <==> |s| == 1 && AcceptsByte(inst[x], s[0])
  {
    if n: nat :| LeadsIn(inst, out, n, x, s) {
      assert StepLeads(inst, out, n, x, s);
      assert LeadsIn(inst, out, n - 1, out, s[1..]);
    }
    if |s| == 1 && AcceptsByte(inst[x], s[0]) {
      assert s[1..] == [] && LeadsIn(inst, out, 0, out, []);
      assert StepLeads(inst, out, 1, x, s);
      assert LeadsIn(inst, out, 1, x, s);
    }
  }

  // ---------------------------------------------------------------- toByteProg

  /** What the source demands of a program: instructions that exist, classes as the parser makes them, and no rune
      instruction that leads to itself. */
  ghost predicate Compilable(p: Prog) {
    ValidProg(p) && forall i :: 0 <= i < |p.inst| && p.inst[i].RuneInst? ==> CompilableInst(p.inst[i], i)
  }

  predicate CompilableInst(i: Inst, pc: nat)
    requires i.RuneInst?
  {
    ClassRanges(i.ranges) && i.out != pc && (|i.ranges| == 2 ==> i.ranges[0] <= i.ranges[1])
  }

  /** oneByteRange, without folding: a class that is a single range of ASCII, or a single rune. */
  function OneByteRange(r: seq<rune>): Option<(byte, byte)>
    requires ClassRanges(r) && (|r| == 2 ==> r[0] <= r[1])
  {
    if (|r| == 1 || (|r| == 2 && r[0] == r[1])) && r[0] < RuneSelf then Some((r[0], r[0]))
    else if |r| == 2 && r[1] < RuneSelf then Some((r[0], r[1]))
    else None
  }

  lemma OneByteWords(r: seq<rune>, w: Str)
    requires ClassRanges(r) && (|r| == 2 ==> r[0] <= r[1]) && OneByteRange(r).Some?
    ensures w in ClassAdded(r) <==> |w| == 1 && OneByteRange(r).value.0 <= w[0] <= OneByteRange(r).value.1
  {
    hide Added, RangeWords;
    var lo, hi := r[0], r[|r| - 1];
    SplitNowhereAscii(lo, hi);
    AddedAscii(lo, hi, false);
    AsciiWords(w, lo, hi, false);
    if |r| == 2 {
      PairsMembers(r, 1, w);
      assert Low(r, 0) == lo && High(r, 0) == hi;
      assert InPair(r, 0, w) <==> w in Added(lo, hi, false);
    }
  }

  /** An instruction that reads one byte, in its place. */
  lemma OneByteMatches(p: Prog, q: Prog, pc: nat, l: Line)
    requires pc < |p.inst| && p.inst[pc].RuneInst? && CompilableInst(p.inst[pc], pc) && OneByteRange(p.inst[pc].ranges).Some?
    requires q.start == p.start
    requires q.inst == p.inst[pc := ByteRange(OneByteRange(p.inst[pc].ranges).value.0, OneByteRange(p.inst[pc].ranges).value.1,
                                              false, p.inst[pc].out)]
    ensures RuneMatches(p, l) <==> RuneMatches(q, l)
  {
    hide RuneMove, OneByteRange;
    forall a, b
      ensures RuneMove(p, l, a, b) <==> RuneMove(q, l, a, b)
    {
      if a.pc == pc {
        OneByteMove(p, q, l, a, b);
      } else if a.pc < |p.inst| {
        MoveStays(p, q, l, a, b);
      } else {
        NoMove(p, q, l, a, b);
      }
    }
    forall c
      ensures MatchesAt(p, l, c) <==> MatchesAt(q, l, c)
    {
      if RunePathTo(p, l, c) {
        var path :| IsRunePath(p, l, path) && path[|path| - 1] == c;
        assert IsRunePath(q, l, path);
      }
      if RunePathTo(q, l, c) {
        var path :| IsRunePath(q, l, path) && path[|path| - 1] == c;
        assert IsRunePath(p, l, path);
      }
    }
  }

  lemma NoMove(p: Prog, q: Prog, l: Line, a: Config, b: Config)
    requires a.pc >= |p.inst| == |q.inst|
    ensures !RuneMove(p, l, a, b) && !RuneMove(q, l, a, b)
  {
  }

  lemma OneByteMove(p: Prog, q: Prog, l: Line, a: Config, b: Config)
    requires a.pc < |p.inst| == |q.inst| && p.inst[a.pc].RuneInst? && CompilableInst(p.inst[a.pc], a.pc)
    requires OneByteRange(p.inst[a.pc].ranges).Some?
    requires var c := OneByteRange(p.inst[a.pc].ranges).value; q.inst[a.pc] == ByteRange(c.0, c.1, false, p.inst[a.pc].out)
    ensures RuneMove(p, l, a, b) <==> RuneMove(q, l, a, b)
  {
    hide OneByteRange, ClassAdded, Line.FlagsAt;
    var r := p.inst[a.pc].ranges;
    if a.pos <= b.pos <= |l.text| {
      OneByteWords(r, l.text[a.pos..b.pos]);
    }
  }

  /** toByteProg, without folding: the program that comes out has no rune instruction, leads from each one there was to
      its exit over exactly its class, and matches the same lines. */
  method ToByteProg(p: Prog) returns (q: Prog)
    requires Compilable(p)
    ensures ValidProg(q) && NoRunes(q) && |p.inst| <= |q.inst| && AllCompiled(q.inst, p.inst, |p.inst|)
    ensures forall l: Line :: LineMatches(q, l) <==> RuneMatches(p, l)
  {
    hide *;
    var inst := p.inst;
    CompilableParts(p);
    for pc := 0 to |p.inst|
      invariant |p.inst| <= |inst| && inst[pc..|p.inst|] == p.inst[pc..]
      invariant ValidProg(Prog(inst, p.start)) && Done(inst, pc, |p.inst|) && AllCompiled(inst, p.inst, pc)
      invariant forall l: Line :: RuneMatches(Prog(inst, p.start), l) <==> RuneMatches(p, l)
    {
      assert inst[pc] == inst[pc..|p.inst|][0] == p.inst[pc..][0] == p.inst[pc];
      ghost var was := inst;
      if inst[pc].RuneInst? {
        CompilableAt(p, inst, pc);
        var r, out := inst[pc].ranges, inst[pc].out;
        var one := OneByteRange(r);
        if one.Some? {
          inst := inst[pc := ByteRange(one.value.0, one.value.1, false, out)];
          OneByteStays(was, p.start, pc, inst);
          ByteCompiled(inst, |p.inst|, p.inst[pc], pc);
          forall l: Line
            ensures RuneMatches(Prog(inst, p.start), l) <==> RuneMatches(Prog(was, p.start), l)
          {
            OneByteMatches(Prog(was, p.start), Prog(inst, p.start), pc, l);
          }
        } else {
          inst := CompileClass(inst, pc, out, r);
          ReplacedIs(inst, was, pc);
          ClassCompiled(inst, p.start, |p.inst|, |was|, p.inst[pc], pc);
          forall l: Line
            ensures RuneMatches(Prog(inst, p.start), l) <==> RuneMatches(Prog(was, p.start), l)
          {
            ReplacedMatches(Prog(was, p.start), Prog(inst, p.start), pc, l);
          }
        }
      }
      OneMoreDone(was, inst, pc, |p.inst|);
      OneMoreCompiled(was, inst, p.inst, pc);
      assert inst[pc + 1..|p.inst|] == p.inst[pc + 1..] by {
        assert forall x :: pc < x < |p.inst| ==> inst[x] == was[x] == was[pc..|p.inst|][x - pc] == p.inst[pc..][x - pc];
      }
    }
    q := Prog(inst, p.start);
    AllDone(q, |p.inst|);
    forall l: Line
      ensures LineMatches(q, l) <==> RuneMatches(p, l)
    {
      NoRunesSame(q, l);
    }
  }

  /** The first `k` instructions, and those behind the first `n`, are no rune instructions. */
  ghost predicate Done(inst: seq<Inst>, k: nat, n: nat) {
    forall x :: 0 <= x < |inst| && (x < k || x >= n) ==> !inst[x].RuneInst?
  }

  /** The first `k` rune instructions are compiled. */
  ghost predicate AllCompiled(inst: seq<Inst>, p: seq<Inst>, k: nat)
    requires k <= |p|
  {
    forall x :: 0 <= x < k && p[x].RuneInst? ==> CompiledAs(inst, |p|, p[x], x)
  }

  lemma OneMoreCompiled(was: seq<Inst>, inst: seq<Inst>, p: seq<Inst>, k: nat)
    requires k < |p| <= |was| <= |inst| && AllCompiled(was, p, k)
    requires forall x :: 0 <= x < |was| && x != k ==> inst[x] == was[x]
    requires p[k].RuneInst? ==> CompiledAs(inst, |p|, p[k], k)
    ensures AllCompiled(inst, p, k + 1)
  {
    hide CompiledAs;
    forall x | 0 <= x < k && p[x].RuneInst?
      ensures CompiledAs(inst, |p|, p[x], x)
    {
      CompiledStays(was, inst, |p|, p[x], x, k);
    }
  }

  lemma CompilableParts(p: Prog)
    requires Compilable(p)
    ensures ValidProg(p) && Done(p.inst, 0, |p.inst|) && AllCompiled(p.inst, p.inst, 0)
  {
  }

  lemma CompilableAt(p: Prog, inst: seq<Inst>, pc: nat)
    requires Compilable(p) && pc < |p.inst| <= |inst| && p.inst[pc].RuneInst? && inst[pc] == p.inst[pc]
    ensures CompilableInst(inst[pc], pc) && ClassRanges(inst[pc].ranges) && (|inst[pc].ranges| == 2 ==> inst[pc].ranges[0] <= inst[pc].ranges[1])
    ensures inst[pc].out != pc && inst[pc].out < |inst|
  {
    assert ValidInst(p.inst[pc], |p.inst|);
  }

  lemma OneByteStays(was: seq<Inst>, start: nat, pc: nat, inst: seq<Inst>)
    requires pc < |was| && was[pc].RuneInst? && ValidProg(Prog(was, start))
    requires exists lo: byte, hi: byte :: inst == was[pc := ByteRange(lo, hi, false, was[pc].out)]
    ensures ValidProg(Prog(inst, start)) && !inst[pc].RuneInst?
  {
    assert ValidInst(was[pc], |was|);
    forall x | 0 <= x < |inst|
      ensures ValidInst(inst[x], |inst|)
    {
      assert x != pc ==> ValidInst(was[x], |was|);
    }
  }

  lemma ReplacedIs(inst: seq<Inst>, was: seq<Inst>, pc: nat)
    requires pc < |was| <= |inst| && was[pc].RuneInst? && was[pc].out < |was| && was[pc].out != pc
    requires (forall x :: 0 <= x < |was| && x != pc ==> inst[x] == was[x]) && Compiled(inst, |was|, pc, was[pc].out)
    requires forall s: Str :: Leads(inst, was[pc].out, pc, s) <==> s in ClassAdded(was[pc].ranges)
    ensures Replaces(inst, was, pc)
    ensures forall x :: 0 <= x < |inst| && (x == pc || x >= |was|) ==> !inst[x].RuneInst?
  {
    hide Leads, ClassAdded;
    forall x | 0 <= x < |inst| && (x == pc || x >= |was|)
      ensures !inst[x].RuneInst?
    {
      assert Internal(inst[x], |was|, was[pc].out);
    }
  }

  lemma OneMoreDone(was: seq<Inst>, inst: seq<Inst>, k: nat, n: nat)
    requires k < n <= |was| <= |inst| && Done(was, k, n) && !inst[k].RuneInst?
    requires forall x :: 0 <= x < |was| && x != k ==> inst[x] == was[x]
    requires forall x :: |was| <= x < |inst| ==> !inst[x].RuneInst?
    ensures Done(inst, k + 1, n)
  {
  }

  lemma AllDone(q: Prog, n: nat)
    requires Done(q.inst, n, n)
    ensures NoRunes(q)
  {
  }
}
