/** Byte programs: what the instructions accept (regexp/match.go, regexp/utf.go), as paths through the program,
    and the same as sets of instructions stepped byte by byte. */
module Programs {
  import opened Bytes
  import opened Utf8

  /** A zero-width test (syntax.EmptyOp). */
  datatype Assertion = BeginLine | EndLine | BeginText | EndText | WordBoundary | NoWordBoundary

  /** syntax.Inst, with instByteRange. Rune instructions, which list ranges, are gone once a program is compiled to bytes. */
  datatype Inst =
    | Alt(out: nat, arg: nat)
    | AltMatch(out: nat, arg: nat)
    | Capture(out: nat)
    | EmptyWidth(need: set<Assertion>, out: nat)
    | Match
    | Fail
    | Nop(out: nat)
    | ByteRange(lo: byte, hi: byte, fold: bool, out: nat)
    | RuneInst(ranges: seq<rune>, out: nat)

  datatype Prog = Prog(inst: seq<Inst>, start: nat)

  /** Every instruction named exists. */
  predicate ValidProg(p: Prog) {
    p.start < |p.inst| && forall i :: 0 <= i < |p.inst| ==> ValidInst(p.inst[i], |p.inst|)
  }

  predicate ValidInst(i: Inst, n: nat) {
    match i
    case Alt(out, arg) => out < n && arg < n
    case AltMatch(out, arg) => out < n && arg < n
    case Match => true
    case Fail => true
    case _ => i.out < n
  }

  const EndOfText: int := -1
  const NewLine: int := 10

  predicate IsWordByte(c: int) {
    'A' as int <= c <= 'Z' as int || 'a' as int <= c <= 'z' as int || '0' as int <= c <= '9' as int || c == '_' as int
  }

  // ---------------------------------------------------------------- single steps

  /** Where an instruction leads without reading a byte. */
  function EmptySucc(i: Inst, flags: set<Assertion>): set<nat> {
    match i
    case Capture(out) => {out}
    case Nop(out) => {out}
    case Alt(out, arg) => {out, arg}
    case AltMatch(out, arg) => {out, arg}
    case EmptyWidth(need, out) => if need <= flags then {out} else {}
    case _ => {}
  }

  /** Whether a byte instruction accepts `c`; a folding one compares lower-case letters as upper-case ones. */
  predicate AcceptsByte(i: Inst, c: int) {
    i.ByteRange? && c != EndOfText
    && var ch := if i.fold && 'a' as int <= c <= 'z' as int then c - 32 else c; i.lo <= ch <= i.hi
  }

  // ---------------------------------------------------------------- paths

  /** A line of text: its bytes, whether it starts the text, and what follows it. */
  datatype Line = Line(text: Str, first: bool, end: int) {
    predicate Valid() {
      (end == NewLine || end == EndOfText) && forall c :: c in text ==> c != NewLine
    }

    function ByteAt(k: nat): int {
      if k < |text| then text[k] else end
    }

    /** The zero-width tests that hold in front of byte `k`. */
    function FlagsAt(k: nat): set<Assertion>
      requires k <= |text|
    {
      Flags(k == 0, k == 0 && first, k > 0 && IsWordByte(text[k - 1]), ByteAt(k))
    }
  }

  /** The tests that hold between what was read and the next byte. */
  function Flags(beginLine: bool, beginText: bool, word: bool, c: int): set<Assertion> {
    (if beginLine then {BeginLine} else {}) + (if beginText then {BeginText} else {})
    + (if word != IsWordByte(c) then {WordBoundary} else {NoWordBoundary})
    + (if c == NewLine then {EndLine} else {}) + (if c == EndOfText then {EndLine, EndText} else {})
  }

  /** Being at an instruction, at a place in the line. */
  datatype Config = Config(pos: nat, pc: nat)

  predicate Move(p: Prog, l: Line, a: Config, b: Config) {
    a.pc < |p.inst| && a.pos <= |l.text|
    && (if a.pos == b.pos then b.pc in EmptySucc(p.inst[a.pc], l.FlagsAt(a.pos))
        else b.pos == a.pos + 1 <= |l.text| && AcceptsByte(p.inst[a.pc], l.text[a.pos]) && p.inst[a.pc].out == b.pc)
  }

  /** A path through the program, starting with its first instruction anywhere in the line. */
  ghost predicate IsPath(p: Prog, l: Line, path: seq<Config>) {
    path != [] && path[0].pc == p.start && path[0].pos <= |l.text|
    && forall k :: 0 <= k < |path| - 1 ==> Move(p, l, path[k], path[k + 1])
  }

  /** Some path ends with a match. */
  ghost predicate LineMatches(p: Prog, l: Line) {
    exists path: seq<Config> :: IsPath(p, l, path) && var e := path[|path| - 1];
      e.pc < |p.inst| && e.pos <= |l.text| && p.inst[e.pc].Match?
  }

  // ---------------------------------------------------------------- what the zero-width tests mean

  const Numerals: set<char> := {'0', '1', '2', '3', '4', '5', '6', '7', '8', '9'}
  const Capitals: set<char> :=
    {'A', 'B', 'C', 'D', 'E', 'F', 'G', 'H', 'I', 'J', 'K', 'L', 'M',
     'N', 'O', 'P', 'Q', 'R', 'S', 'T', 'U', 'V', 'W', 'X', 'Y', 'Z'}
  const Smalls: set<char> :=
    {'a', 'b', 'c', 'd', 'e', 'f', 'g', 'h', 'i', 'j', 'k', 'l', 'm',
     'n', 'o', 'p', 'q', 'r', 's', 't', 'u', 'v', 'w', 'x', 'y', 'z'}

  /** The bytes that a word is made of. */
  ghost predicate InWordBytes(c: int) {
    0 <= c < 256 && c as char in Numerals + Capitals + Smalls + {'_'}
  }

  lemma WordByteIs(c: int)
    ensures IsWordByte(c) <==> InWordBytes(c)
  {
    if 0 <= c < 256 {
      var ch := c as char;
      assert ch as int == c;
      assert ch in Numerals <==> '0' <= ch <= '9';
      assert ch in Capitals <==> 'A' <= ch <= 'Z';
      assert ch in Smalls <==> 'a' <= ch <= 'z';
    }
  }

  /** There is a byte of a word at `i`; in front of the line and behind it there is none. */
  ghost predicate WordAt(l: Line, i: int) {
    0 <= i < |l.text| && InWordBytes(l.text[i])
  }

  /** The tests in front of byte `k`, by its place in the line and the bytes on either side. */
  lemma TestsAt(l: Line, k: nat)
    requires l.Valid() && k <= |l.text|
    ensures BeginLine in l.FlagsAt(k) <==> k == 0
    ensures BeginText in l.FlagsAt(k) <==> k == 0 && l.first
    ensures EndLine in l.FlagsAt(k) <==> k == |l.text|
    ensures EndText in l.FlagsAt(k) <==> k == |l.text| && l.end == -1
    ensures WordBoundary in l.FlagsAt(k) <==> (WordAt(l, k - 1) <==> !WordAt(l, k))
    ensures NoWordBoundary in l.FlagsAt(k) <==> (WordAt(l, k - 1) <==> WordAt(l, k))
  {
    WordByteIs(l.ByteAt(k));
    if k > 0 {
      WordByteIs(l.text[k - 1]);
    }
    hide InWordBytes, IsWordByte;
    assert k < |l.text| ==> l.text[k] in l.text;
    assert !InWordBytes(EndOfText) && !InWordBytes(NewLine) by {
      WordByteIs(EndOfText);
      WordByteIs(NewLine);
      NoWordEnds();
    }
  }

  lemma NoWordEnds()
    ensures !IsWordByte(EndOfText) && !IsWordByte(NewLine)
  {
  }

  /** A test and a byte. */
  function TestThenByte(need: set<Assertion>, c: byte): Prog {
    Prog([EmptyWidth(need, 1), ByteRange(c, c, false, 2), Match], 0)
  }

  /** Where a path through that program can be. */
  ghost predicate TestedBefore(need: set<Assertion>, c: byte, l: Line, e: Config) {
    e.pos <= |l.text| && e.pc <= 2
    && (e.pc == 1 ==> need <= l.FlagsAt(e.pos))
    && (e.pc == 2 ==> e.pos > 0 && l.text[e.pos - 1] == c && need <= l.FlagsAt(e.pos - 1))
  }

  lemma {:induction false} TestedAlong(need: set<Assertion>, c: byte, l: Line, path: seq<Config>)
    requires IsPath(TestThenByte(need, c), l, path)
    ensures TestedBefore(need, c, l, path[|path| - 1])
    decreases |path|
  {
    hide Line.FlagsAt;
    var n := |path| - 1;
    if n > 0 {
      var front := path[..n];
      assert forall k :: 0 <= k < |front| ==> front[k] == path[k];
      TestedAlong(need, c, l, front);
      assert Move(TestThenByte(need, c), l, path[n - 1], path[n - 1 + 1]);
    }
  }

  /** A zero-width instruction is passed exactly where all of its tests hold: the program matches the lines that have the
      byte at a place where they do. */
  lemma TestThenByteMatches(need: set<Assertion>, c: byte, l: Line)
    ensures LineMatches(TestThenByte(need, c), l) <==>
            exists k: nat :: k < |l.text| && l.text[k] == c && need <= l.FlagsAt(k)
  {
    hide Line.FlagsAt;
    var p := TestThenByte(need, c);
    if LineMatches(p, l) {
      var path: seq<Config> :| IsPath(p, l, path) && var e := path[|path| - 1];
        e.pc < |p.inst| && e.pos <= |l.text| && p.inst[e.pc].Match?;
      TestedAlong(need, c, l, path);
      var k: nat := path[|path| - 1].pos - 1;
      assert l.text[k] == c && need <= l.FlagsAt(k);
    }
    if k: nat :| k < |l.text| && l.text[k] == c && need <= l.FlagsAt(k) {
      var path := [Config(k, 0), Config(k, 1), Config(k + 1, 2)];
      assert Move(p, l, path[0], path[1]) && Move(p, l, path[1], path[2]);
      assert IsPath(p, l, path);
    }
  }

  /** The byte `x` at the edge of a word. */
  lemma WordEdgeFound(first: bool, end: int)
    requires end == NewLine || end == EndOfText
    ensures LineMatches(TestThenByte({WordBoundary}, 'x' as int), Line(['x' as int], first, end))
    ensures !LineMatches(TestThenByte({NoWordBoundary}, 'x' as int), Line(['x' as int], first, end))
  {
    var l := Line(['x' as int], first, end);
    TestThenByteMatches({WordBoundary}, 'x' as int, l);
    TestThenByteMatches({NoWordBoundary}, 'x' as int, l);
    TestsAt(l, 0);
    assert WordAt(l, 0);
    hide Line.FlagsAt;
    assert l.text[0] == 'x' as int && {WordBoundary} <= l.FlagsAt(0);
  }

  /** A byte range reads its bytes, and a folding one reads a small letter as the capital 32 below it; the end of the
      text is not read. */
  lemma ByteRangeReads(lo: byte, hi: byte, fold: bool, out: nat, c: int)
    ensures AcceptsByte(ByteRange(lo, hi, fold, out), c) <==>
            c != -1 && exists d: int :: lo <= d <= hi && FoldsTo(c, d, fold)
  {
    var ch := if fold && 0 <= c < 256 && c as char in Smalls then c - 32 else c;
    if 0 <= c < 256 {
      var small := c as char;
      assert small as int == c;
      assert small in Smalls <==> 'a' <= small <= 'z';
    }
    hide Smalls;
    assert FoldsTo(c, ch, fold);
  }

  ghost predicate FoldsTo(c: int, d: int, fold: bool) {
    d == if fold && 0 <= c < 256 && c as char in Smalls then c - 32 else c
  }

  /** Captures are passed like Nop, and both kinds of alternation lead both ways. */
  lemma TransparentInst(out: nat, arg: nat, flags: set<Assertion>, x: nat)
    ensures x in EmptySucc(Capture(out), flags) <==> x == out
    ensures x in EmptySucc(Nop(out), flags) <==> x == out
    ensures x in EmptySucc(Alt(out, arg), flags) <==> x == out || x == arg
    ensures x in EmptySucc(AltMatch(out, arg), flags) <==> x == out || x == arg
  {
  }

  // ---------------------------------------------------------------- closures

  /** A chain of empty steps. */
  ghost predicate Chain(p: Prog, flags: set<Assertion>, chain: seq<nat>) {
    chain != [] && (forall k :: 0 <= k < |chain| ==> chain[k] < |p.inst|)
    && forall k :: 0 <= k < |chain| - 1 ==> chain[k + 1] in EmptySucc(p.inst[chain[k]], flags)
  }

  ghost predicate Reaches(p: Prog, flags: set<Assertion>, i: nat, j: nat) {
    exists chain: seq<nat> :: Chain(p, flags, chain) && chain[0] == i && chain[|chain| - 1] == j
  }

  ghost predicate ReachedFrom(p: Prog, s: set<nat>, flags: set<Assertion>, j: nat) {
    exists i :: i in s && Reaches(p, flags, i, j)
  }

  /** Everything that empty steps reach from `s`. */
  ghost function Closure(p: Prog, s: set<nat>, flags: set<Assertion>): set<nat> {
    set j: nat | j < |p.inst| && ReachedFrom(p, s, flags, j)
  }

  ghost predicate ClosedUnder(p: Prog, s: set<nat>, flags: set<Assertion>) {
    forall i, j :: i in s && i < |p.inst| && j in EmptySucc(p.inst[i], flags) ==> j in s
  }

  lemma ReachesItself(p: Prog, flags: set<Assertion>, i: nat)
    requires i < |p.inst|
    ensures Reaches(p, flags, i, i)
  {
    assert Chain(p, flags, [i]);
  }

  lemma ReachesStep(p: Prog, flags: set<Assertion>, i: nat, j: nat, k: nat)
    requires Reaches(p, flags, i, j) && k < |p.inst| && j < |p.inst| && k in EmptySucc(p.inst[j], flags)
    ensures Reaches(p, flags, i, k)
  {
    var chain :| Chain(p, flags, chain) && chain[0] == i && chain[|chain| - 1] == j;
    assert Chain(p, flags, chain + [k]);
  }

  lemma StepReaches(p: Prog, flags: set<Assertion>, i: nat, j: nat, k: nat)
    requires i < |p.inst| && j in EmptySucc(p.inst[i], flags) && Reaches(p, flags, j, k)
    ensures Reaches(p, flags, i, k)
  {
    var chain :| Chain(p, flags, chain) && chain[0] == j && chain[|chain| - 1] == k;
    assert Chain(p, flags, [i] + chain);
  }

  /** A closed set keeps what its members reach. */
  lemma {:induction false} ChainStays(p: Prog, s: set<nat>, flags: set<Assertion>, chain: seq<nat>)
    requires ClosedUnder(p, s, flags) && Chain(p, flags, chain) && chain[0] in s
    ensures chain[|chain| - 1] in s
    decreases |chain|
  {
    hide EmptySucc;
    if |chain| > 1 {
      assert chain[0 + 1] in EmptySucc(p.inst[chain[0]], flags);
      ChainStays(p, s, flags, chain[1..]);
    }
  }

  lemma ReachedStays(p: Prog, s: set<nat>, flags: set<Assertion>, i: nat, j: nat)
    requires ClosedUnder(p, s, flags) && i in s && Reaches(p, flags, i, j)
    ensures j in s
  {
    hide EmptySucc, ClosedUnder;
    var chain :| Chain(p, flags, chain) && chain[0] == i && chain[|chain| - 1] == j;
    ChainStays(p, s, flags, chain);
  }

  /** The closure is the least closed superset. */
  lemma ClosureIs(p: Prog, s: set<nat>, flags: set<Assertion>, t: set<nat>)
    requires ClosedUnder(p, t, flags) && s <= t
    requires forall j :: j in t ==> j < |p.inst| && ReachedFrom(p, s, flags, j)
    ensures t == Closure(p, s, flags)
  {
    hide ClosedUnder, Reaches;
    forall j | j in Closure(p, s, flags)
      ensures j in t
    {
      var i :| i in s && Reaches(p, flags, i, j);
      ReachedStays(p, t, flags, i, j);
    }
  }

  lemma ClosureClosed(p: Prog, s: set<nat>, flags: set<Assertion>)
    requires ValidProg(p) && forall i :: i in s ==> i < |p.inst|
    ensures ClosedUnder(p, Closure(p, s, flags), flags) && s <= Closure(p, s, flags)
  {
    hide Reaches;
    forall i | i in s
      ensures i in Closure(p, s, flags)
    {
      ReachesItself(p, flags, i);
    }
    forall j, k | j in Closure(p, s, flags) && k in EmptySucc(p.inst[j], flags)
      ensures k in Closure(p, s, flags)
    {
      SuccValid(p, j, flags, k);
      hide EmptySucc;
      var i :| i in s && Reaches(p, flags, i, j);
      ReachesStep(p, flags, i, j, k);
    }
  }

  lemma SuccValid(p: Prog, j: nat, flags: set<Assertion>, k: nat)
    requires ValidProg(p) && j < |p.inst| && k in EmptySucc(p.inst[j], flags)
    ensures k < |p.inst|
  {
    assert ValidInst(p.inst[j], |p.inst|);
  }

  lemma FewerTests(p: Prog, t: set<nat>, fewer: set<Assertion>, flags: set<Assertion>)
    requires ClosedUnder(p, t, flags) && fewer <= flags
    ensures ClosedUnder(p, t, fewer)
  {
    forall i, j | i in t && i < |p.inst| && j in EmptySucc(p.inst[i], fewer)
      ensures j in t
    {
      assert j in EmptySucc(p.inst[i], flags);
    }
  }

  /** Expanding under fewer tests first makes no difference. */
  lemma ClosureTwice(p: Prog, s: set<nat>, fewer: set<Assertion>, flags: set<Assertion>)
    requires ValidProg(p) && fewer <= flags && forall i :: i in s ==> i < |p.inst|
    ensures Closure(p, Closure(p, s, fewer), flags) == Closure(p, s, flags)
  {
    hide Reaches, ClosedUnder, ValidProg, EmptySucc;
    var c, t := Closure(p, s, fewer), Closure(p, s, flags);
    ClosureClosed(p, s, flags);
    ClosureClosed(p, s, fewer);
    FewerTests(p, t, fewer, flags);
    forall j | j in c
      ensures j in t
    {
      var i :| i in s && Reaches(p, fewer, i, j);
      ReachedStays(p, t, fewer, i, j);
    }
    forall j | j in t
      ensures ReachedFrom(p, c, flags, j)
    {
      var i :| i in s && Reaches(p, flags, i, j);
      assert i in c;
    }
    ClosureIs(p, c, flags, t);
  }

  /** The instructions behind the byte instructions of `s` that accept `c`. */
  ghost function StepSet(p: Prog, s: set<nat>, c: int): set<nat> {
    set i: nat | i in s && i < |p.inst| && AcceptsByte(p.inst[i], c) :: p.inst[i].out
  }

  lemma StepSetValid(p: Prog, s: set<nat>, c: int)
    requires ValidProg(p)
    ensures forall j :: j in StepSet(p, s, c) ==> j < |p.inst|
  {
    forall i | i in s && i < |p.inst| && AcceptsByte(p.inst[i], c)
      ensures p.inst[i].out < |p.inst|
    {
      assert ValidInst(p.inst[i], |p.inst|);
    }
  }

  ghost predicate HasMatch(p: Prog, s: set<nat>) {
    exists i :: i in s && i < |p.inst| && p.inst[i].Match?
  }

  // ---------------------------------------------------------------- the sets along a line

  /** What the instructions before place `k` lead to there, with the first instruction added again. */
  ghost function Entering(p: Prog, l: Line, k: nat): set<nat>
    requires k <= |l.text|
    decreases k, 0
  {
    {p.start} + if k == 0 then {} else StepSet(p, Live(p, l, k - 1), l.text[k - 1])
  }

  /** The instructions that some path has reached in front of byte `k`. */
  ghost function Live(p: Prog, l: Line, k: nat): set<nat>
    requires k <= |l.text|
    decreases k, 1
  {
    Closure(p, Entering(p, l, k), l.FlagsAt(k))
  }

  lemma EnteringValid(p: Prog, l: Line, k: nat)
    requires ValidProg(p) && k <= |l.text|
    ensures forall i :: i in Entering(p, l, k) ==> i < |p.inst|
  {
    if k > 0 {
      StepSetValid(p, Live(p, l, k - 1), l.text[k - 1]);
    }
  }

  lemma {:induction false} PathIsLive(p: Prog, l: Line, path: seq<Config>)
    requires ValidProg(p) && IsPath(p, l, path)
    ensures var e := path[|path| - 1];
            e.pos <= |l.text| && e.pc in Live(p, l, e.pos)
    decreases |path|
  {
    hide ValidProg, Move, Live, EmptySucc;
    var n := |path| - 1;
    if n == 0 {
      StartIsLive(p, l, path[0].pos);
    } else {
      var front := path[..n];
      assert forall k :: 0 <= k < |front| ==> front[k] == path[k];
      PathIsLive(p, l, front);
      assert Move(p, l, path[n - 1], path[n - 1 + 1]);
      MoveIsLive(p, l, path[n - 1], path[n]);
    }
  }

  lemma StartIsLive(p: Prog, l: Line, k: nat)
    requires ValidProg(p) && k <= |l.text|
    ensures p.start in Live(p, l, k)
  {
    hide Closure, ClosedUnder, ValidProg;
    EnteringValid(p, l, k);
    ClosureClosed(p, Entering(p, l, k), l.FlagsAt(k));
  }

  lemma MoveIsLive(p: Prog, l: Line, a: Config, b: Config)
    requires ValidProg(p) && a.pos <= |l.text| && a.pc in Live(p, l, a.pos) && Move(p, l, a, b)
    ensures b.pos <= |l.text| && b.pc in Live(p, l, b.pos)
  {
    hide Closure, ValidProg, EmptySucc, AcceptsByte, Line.FlagsAt;
    EnteringValid(p, l, b.pos);
    ClosureClosed(p, Entering(p, l, b.pos), l.FlagsAt(b.pos));
    if a.pos != b.pos {
      assert b.pc in StepSet(p, Live(p, l, a.pos), l.text[a.pos]);
    }
  }

  ghost predicate PathTo(p: Prog, l: Line, k: nat, i: nat) {
    exists path: seq<Config> :: IsPath(p, l, path) && path[|path| - 1] == Config(k, i)
  }

  lemma PathGrows(p: Prog, l: Line, k: nat, i: nat, b: Config)
    requires PathTo(p, l, k, i) && Move(p, l, Config(k, i), b)
    ensures PathTo(p, l, b.pos, b.pc)
  {
    var path :| IsPath(p, l, path) && path[|path| - 1] == Config(k, i);
    var longer := path + [b];
    assert IsPath(p, l, longer);
    assert longer[|longer| - 1] == Config(b.pos, b.pc);
  }

  lemma {:induction false} PathAlongChain(p: Prog, l: Line, k: nat, chain: seq<nat>)
    requires k <= |l.text| && Chain(p, l.FlagsAt(k), chain) && PathTo(p, l, k, chain[0])
    ensures PathTo(p, l, k, chain[|chain| - 1])
    decreases |chain|
  {
    if |chain| > 1 {
      PathGrows(p, l, k, chain[0], Config(k, chain[1]));
      PathAlongChain(p, l, k, chain[1..]);
    }
  }

  lemma PathStarts(p: Prog, l: Line, k: nat)
    requires k <= |l.text|
    ensures PathTo(p, l, k, p.start)
  {
    assert IsPath(p, l, [Config(k, p.start)]);
  }

  lemma StepFrom(p: Prog, s: set<nat>, c: int, i: nat) returns (h: nat)
    requires i in StepSet(p, s, c)
    ensures h in s && h < |p.inst| && AcceptsByte(p.inst[h], c) && p.inst[h].ByteRange? && p.inst[h].out == i
  {
    h :| h in s && h < |p.inst| && AcceptsByte(p.inst[h], c) && p.inst[h].ByteRange? && p.inst[h].out == i;
  }

  lemma ByteMove(p: Prog, l: Line, k: nat, h: nat)
    requires k < |l.text| && h < |p.inst| && AcceptsByte(p.inst[h], l.text[k])
    ensures Move(p, l, Config(k, h), Config(k + 1, p.inst[h].out))
  {
  }

  lemma {:induction false} LiveHasPath(p: Prog, l: Line, k: nat, j: nat)
    requires ValidProg(p) && k <= |l.text| && j in Live(p, l, k)
    ensures PathTo(p, l, k, j)
    decreases k
  {
    hide PathTo, AcceptsByte, EmptySucc, Line.FlagsAt;
    var i :| i in Entering(p, l, k) && Reaches(p, l.FlagsAt(k), i, j);
    var chain :| Chain(p, l.FlagsAt(k), chain) && chain[0] == i && chain[|chain| - 1] == j;
    assert PathTo(p, l, k, i) by {
      if i == p.start {
        PathStarts(p, l, k);
      } else {
        var h := StepFrom(p, Live(p, l, k - 1), l.text[k - 1], i);
        LiveHasPath(p, l, k - 1, h);
        ByteMove(p, l, k - 1, h);
        PathGrows(p, l, k - 1, h, Config(k, i));
      }
    }
    PathAlongChain(p, l, k, chain);
  }

  /** Paths and sets agree: a line matches when some place has a match instruction. */
  lemma LiveMatches(p: Prog, l: Line)
    requires ValidProg(p)
    ensures LineMatches(p, l) <==> exists k: nat :: k <= |l.text| && HasMatch(p, Live(p, l, k))
  {
    if LineMatches(p, l) {
      var path: seq<Config> :| IsPath(p, l, path) && var e := path[|path| - 1];
        e.pc < |p.inst| && e.pos <= |l.text| && p.inst[e.pc].Match?;
      PathIsLive(p, l, path);
      assert HasMatch(p, Live(p, l, path[|path| - 1].pos));
    }
    if k: nat :| k <= |l.text| && HasMatch(p, Live(p, l, k)) {
      var i :| i in Live(p, l, k) && i < |p.inst| && p.inst[i].Match?;
      LiveHasPath(p, l, k, i);
      var path :| IsPath(p, l, path) && path[|path| - 1] == Config(k, i);
    }
  }

  // ---------------------------------------------------------------- states of the lazy DFA

  /** An NFA state between two bytes: the instructions reached, and what the bytes before it say. */
  datatype State = State(q: set<nat>, beginLine: bool, beginText: bool, word: bool)

  function StateFlags(z: State, c: int): set<Assertion> {
    Flags(z.beginLine, z.beginText, z.word, c)
  }

  /** The instructions reached once the next byte is known. */
  ghost function Expanded(p: Prog, z: State, c: int): set<nat> {
    Closure(p, z.q, StateFlags(z, c))
  }

  /** The tests known to hold right behind a byte. */
  function FlagsAfter(c: int): set<Assertion> {
    if c == NewLine then {BeginLine} else {}
  }

  /** computeNext: None once a match ends in front of `c`. */
  ghost function NextState(p: Prog, z: State, c: int): Option<State> {
    var run := Expanded(p, z, c);
    if HasMatch(p, run) then None
    else Some(State(Closure(p, {p.start} + StepSet(p, run, c), FlagsAfter(c)), c == NewLine, false, IsWordByte(c)))
  }

  /** The state at the start of the text, or of a line. */
  ghost function StartState(p: Prog, first: bool): State {
    State(Closure(p, {p.start}, if first then {BeginLine, BeginText} else {BeginLine}), true, first, false)
  }

  /** The state after some bytes; None if a match has ended before. */
  ghost function After(p: Prog, z: State, s: Str): Option<State> {
    if s == [] then Some(z)
    else match After(p, z, s[..|s| - 1])
      case None => None
      case Some(y) => NextState(p, y, s[|s| - 1])
  }

  /** The DFA's answer for a line. */
  ghost predicate Accepts(p: Prog, l: Line) {
    match After(p, StartState(p, l.first), l.text)
    case None => true
    case Some(z) => NextState(p, z, l.end).None?
  }

  lemma AfterStep(p: Prog, z: State, s: Str, k: nat)
    requires k < |s|
    ensures After(p, z, s[..k + 1]) ==
            match After(p, z, s[..k])
            case None => None
            case Some(y) => NextState(p, y, s[k])
  {
    assert s[..k + 1][..k] == s[..k] && s[..k + 1][k] == s[k];
  }

  /** A state that the DFA is in at place `k` expands to the live instructions. */
  ghost predicate Tracks(p: Prog, l: Line, k: nat, z: State)
    requires k <= |l.text|
  {
    Expanded(p, z, l.ByteAt(k)) == Live(p, l, k)
  }

  lemma StartTracks(p: Prog, l: Line)
    requires ValidProg(p)
    ensures Tracks(p, l, 0, StartState(p, l.first))
  {
    hide Closure, ValidProg;
    var z := StartState(p, l.first);
    var fewer := if l.first then {BeginLine, BeginText} else {BeginLine};
    assert fewer <= l.FlagsAt(0) && StateFlags(z, l.ByteAt(0)) == l.FlagsAt(0);
    EnteringValid(p, l, 0);
    assert Entering(p, l, 0) == {p.start};
    ClosureTwice(p, Entering(p, l, 0), fewer, l.FlagsAt(0));
  }

  lemma NextTracks(p: Prog, l: Line, k: nat, z: State)
    requires ValidProg(p) && l.Valid() && k < |l.text| && Tracks(p, l, k, z)
    ensures NextState(p, z, l.text[k]).None? <==> HasMatch(p, Live(p, l, k))
    ensures NextState(p, z, l.text[k]).Some? ==> Tracks(p, l, k + 1, NextState(p, z, l.text[k]).value)
  {
    hide Closure, ValidProg, HasMatch, IsWordByte, StepSet;
    var c := l.text[k];
    assert c in l.text;
    if NextState(p, z, c).Some? {
      var z' := NextState(p, z, c).value;
      assert StateFlags(z', l.ByteAt(k + 1)) == l.FlagsAt(k + 1);
      EnteringValid(p, l, k + 1);
      ClosureTwice(p, Entering(p, l, k + 1), {}, l.FlagsAt(k + 1));
    }
  }

  lemma {:induction false} AfterTracks(p: Prog, l: Line, k: nat)
    requires ValidProg(p) && l.Valid() && k <= |l.text|
    ensures match After(p, StartState(p, l.first), l.text[..k])
            case None => exists j: nat :: j < k && HasMatch(p, Live(p, l, j))
            case Some(z) => Tracks(p, l, k, z) && forall j: nat :: j < k ==> !HasMatch(p, Live(p, l, j))
    decreases k
  {
    hide Tracks, NextState, HasMatch, Live, ValidProg, StartState;
    if k == 0 {
      assert l.text[..0] == [];
      StartTracks(p, l);
    } else {
      AfterTracks(p, l, k - 1);
      AfterStep(p, StartState(p, l.first), l.text, k - 1);
      var before := After(p, StartState(p, l.first), l.text[..k - 1]);
      if before.Some? {
        NextTracks(p, l, k - 1, before.value);
      }
    }
  }

  /** The DFA accepts exactly the lines that some path matches. */
  lemma DfaIsNfa(p: Prog, l: Line)
    requires ValidProg(p) && l.Valid()
    ensures Accepts(p, l) <==> LineMatches(p, l)
  {
    hide HasMatch, Live, ValidProg, StartState, After, Expanded;
    var n := |l.text|;
    LiveMatches(p, l);
    AfterTracks(p, l, n);
    assert l.text[..n] == l.text;
    var z := After(p, StartState(p, l.first), l.text);
    if z.Some? {
      assert Live(p, l, n) == Expanded(p, z.value, l.end);
      assert NextState(p, z.value, l.end).None? <==> HasMatch(p, Live(p, l, n));
      assert (exists k: nat :: k <= n && HasMatch(p, Live(p, l, k))) <==> HasMatch(p, Live(p, l, n));
    }
  }
}
