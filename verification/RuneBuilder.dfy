/** Compiling ranges of runes to byte instructions (regexp/utf.go, runeBuilder). */
module RuneBuilders {
  import opened Bytes
  import opened Utf8
  import opened RuneRanges
  import opened Programs

  // ---------------------------------------------------------------- what a fragment accepts

  /** From `pc`, at most `n` steps through the program read `s` and arrive at `out`, for the first time. */
  ghost predicate LeadsIn(inst: seq<Inst>, out: nat, n: nat, pc: nat, s: Str)
    decreases n, 1
  {
    if pc == out then s == [] else pc < |inst| && n > 0 && StepLeads(inst, out, n, pc, s)
  }

  ghost predicate StepLeads(inst: seq<Inst>, out: nat, n: nat, pc: nat, s: Str)
    requires pc < |inst| && n > 0
    decreases n, 0
  {
    match inst[pc]
    case Nop(o) => LeadsIn(inst, out, n - 1, o, s)
    case Alt(o, a) => LeadsIn(inst, out, n - 1, o, s) || LeadsIn(inst, out, n - 1, a, s)
    case ByteRange(_, _, _, o) => s != [] && AcceptsByte(inst[pc], s[0]) && LeadsIn(inst, out, n - 1, o, s[1..])
    case _ => false
  }

  ghost predicate Leads(inst: seq<Inst>, out: nat, pc: nat, s: Str) {
    exists n: nat :: LeadsIn(inst, out, n, pc, s)
  }

  /** A chain of byte instructions from `pc` to `out` reads `s`. */
  predicate Reads(inst: seq<Inst>, out: nat, pc: nat, s: Str)
    decreases |s|
  {
    if pc == out then s == []
    else pc < |inst| && s != [] && AcceptsByte(inst[pc], s[0]) && Reads(inst, out, inst[pc].out, s[1..])
  }

  // ---------------------------------------------------------------- the shape of a fragment

  /** The instructions of a program from `base` on, and the one at `root`: a spine of alternatives over the starts
      of byte chains that end at `out`. */
  datatype Fragment = Fragment(inst: seq<Inst>, base: nat, root: nat, out: nat, spine: seq<nat>, branches: seq<nat>) {
    /** `pc` is a byte instruction of the fragment. */
    predicate Suffix(pc: nat) {
      base <= pc < |inst| && pc !in spine
    }

    ghost predicate Chains() {
      forall pc: nat :: Suffix(pc) ==> inst[pc].ByteRange? && (inst[pc].out == out || Suffix(inst[pc].out))
    }

    /** What follows branch `j` in the spine. */
    function After(j: nat): nat
      requires j < |spine| && j + 1 < |branches|
    {
      if j + 1 < |spine| then spine[j + 1] else branches[j + 1]
    }

    ghost predicate Spine() {
      && |spine| == (if |branches| < 2 then 1 else |branches| - 1)
      && spine[0] == root && root < |inst|
      && (forall j :: 0 < j < |spine| ==> base <= spine[j] < |inst|)
      && (forall i, j :: 0 <= i < j < |spine| ==> spine[i] < spine[j])
      && (forall j :: 0 <= j < |branches| ==> Suffix(branches[j]))
      && (branches == [] ==> inst[root] == Fail)
      && (|branches| == 1 ==> inst[root] == Nop(branches[0]))
      && (|branches| > 1 ==> forall j :: 0 <= j < |spine| ==> inst[spine[j]] == Alt(branches[j], After(j)))
    }

    ghost predicate Valid() {
      0 < base <= |inst| && out < base && root < base && root != out && Spine() && Chains()
    }

    /** The words that some branch reads. */
    ghost predicate Accepts(s: Str) {
      exists j :: 0 <= j < |branches| && Reads(inst, out, branches[j], s)
    }
  }

  /** The words that the fragment accepts. */
  ghost function WordsOf(f: Fragment): iset<Str> {
    iset s: Str | f.Accepts(s)
  }

  /** `g` has all byte instructions of `f`, and the program around them. */
  ghost predicate Keeps(f: Fragment, g: Fragment) {
    g.base == f.base && g.root == f.root && g.out == f.out
    && |f.inst| <= |g.inst| && f.base <= |f.inst|
    && (forall pc: nat :: f.Suffix(pc) ==> g.Suffix(pc) && g.inst[pc] == f.inst[pc])
    && forall pc: nat :: pc < f.base && pc != f.root ==> g.inst[pc] == f.inst[pc]
  }

  lemma KeepsMore(f: Fragment, g: Fragment, h: Fragment)
    requires Keeps(f, g) && Keeps(g, h)
    ensures Keeps(f, h)
  {
  }

  /** Chains read what they read before. */
  lemma {:induction false} KeepsReading(f: Fragment, g: Fragment, pc: nat, s: Str)
    requires f.Valid() && Keeps(f, g) && (pc == f.out || f.Suffix(pc))
    ensures Reads(f.inst, f.out, pc, s) <==> Reads(g.inst, g.out, pc, s)
    decreases |s|
  {
    if pc != f.out && s != [] {
      assert f.Suffix(pc) && g.inst[pc] == f.inst[pc];
      KeepsReading(f, g, f.inst[pc].out, s[1..]);
    }
  }

  lemma AppendSuffix(f: Fragment, i: Inst)
    requires f.Valid() && i.ByteRange? && (i.out == f.out || f.Suffix(i.out))
    ensures var g := f.(inst := f.inst + [i]);
            g.Valid() && Keeps(f, g) && g.Suffix(|f.inst|)
  {
    var g := f.(inst := f.inst + [i]);
    assert |f.inst| !in f.spine by {
      forall j | 0 <= j < |f.spine|
        ensures f.spine[j] < |f.inst|
      {
      }
    }
    forall pc: nat | g.Suffix(pc)
      ensures g.inst[pc].ByteRange? && (g.inst[pc].out == g.out || g.Suffix(g.inst[pc].out))
    {
      if pc < |f.inst| {
        assert f.Suffix(pc);
      }
    }
    SpineStays(f, g);
  }

  lemma SpineStays(f: Fragment, g: Fragment)
    requires f.Spine() && f.inst <= g.inst && g == f.(inst := g.inst) && f.root < |f.inst|
    requires forall pc: nat :: f.Suffix(pc) ==> g.Suffix(pc)
    ensures g.Spine()
  {
    hide Fragment.Suffix, Fragment.After;
    forall j | 0 <= j < |f.spine|
      ensures f.spine[j] < |f.inst| && g.inst[f.spine[j]] == f.inst[f.spine[j]]
    {
    }
    forall j | 0 <= j < |f.spine| && |f.branches| > 1
      ensures g.inst[g.spine[j]] == Alt(g.branches[j], g.After(j))
    {
      assert f.inst[f.spine[j]] == Alt(f.branches[j], f.After(j));
      AfterSame(f, g, j);
    }
  }

  lemma AfterSame(f: Fragment, g: Fragment, j: nat)
    requires g.spine == f.spine && g.branches == f.branches && j < |f.spine| && j + 1 < |f.branches|
    ensures g.After(j) == f.After(j)
  {
  }

  /** Changing an instruction of the spine leaves the chains alone. */
  lemma ChainsStay(f: Fragment, g: Fragment, at: nat)
    requires f.Valid() && at in f.spine && at < |f.inst| && |g.inst| == |f.inst| && g.spine == f.spine
    requires Keepers(f, g) && forall pc: nat :: pc < |f.inst| && pc != at ==> g.inst[pc] == f.inst[pc]
    ensures g.Chains() && Keeps(f, g)
  {
    forall pc: nat | f.Suffix(pc)
      ensures g.Suffix(pc) && g.inst[pc] == f.inst[pc]
    {
    }
  }

  ghost predicate Keepers(f: Fragment, g: Fragment) {
    g.base == f.base && g.root == f.root && g.out == f.out
  }

  lemma FirstBranch(f: Fragment, pc: nat)
    requires f.Valid() && f.branches == [] && f.Suffix(pc)
    ensures var g := f.(inst := f.inst[f.root := Nop(pc)], branches := [pc]);
            g.Valid() && Keeps(f, g)
  {
    var g := f.(inst := f.inst[f.root := Nop(pc)], branches := [pc]);
    assert f.spine[0] in f.spine;
    ChainsStay(f, g, f.root);
  }

  lemma SecondBranch(f: Fragment, pc: nat)
    requires f.Valid() && |f.branches| == 1 && f.Suffix(pc)
    ensures var g := f.(inst := f.inst[f.root := Alt(f.branches[0], pc)], branches := f.branches + [pc]);
            g.Valid() && Keeps(f, g)
  {
    var g := f.(inst := f.inst[f.root := Alt(f.branches[0], pc)], branches := f.branches + [pc]);
    assert f.spine[0] in f.spine;
    ChainsStay(f, g, f.root);
    assert g.Suffix(f.branches[0]) && g.Suffix(pc);
  }

  function Longer(f: Fragment, pc: nat): Fragment
    requires |f.branches| > 1 && |f.spine| > 0 && f.spine[|f.spine| - 1] < |f.inst|
  {
    var k := |f.branches|;
    var begin := f.spine[|f.spine| - 1];
    var apc := |f.inst|;
    Fragment((f.inst + [Alt(f.branches[k - 1], pc)])[begin := Alt(f.branches[k - 2], apc)], f.base, f.root, f.out,
             f.spine + [apc], f.branches + [pc])
  }

  lemma LongerIs(f: Fragment, pc: nat)
    requires |f.branches| > 1 && |f.spine| > 0 && f.spine[|f.spine| - 1] < |f.inst|
    ensures var g := Longer(f, pc);
            var k := |f.branches|;
            var begin := f.spine[|f.spine| - 1];
            g.inst == (f.inst + [Alt(f.branches[k - 1], pc)])[begin := Alt(f.branches[k - 2], |f.inst|)]
            && g.out == f.out && g.spine == f.spine + [|f.inst|] && g.branches == f.branches + [pc]
  {
  }

  lemma NextBranch(f: Fragment, pc: nat)
    requires f.Valid() && |f.branches| > 1 && f.Suffix(pc)
    ensures f.spine[|f.spine| - 1] < |f.inst| && Longer(f, pc).Valid() && Keeps(f, Longer(f, pc))
  {
    var g := Longer(f, pc);
    NextKeeps(f, pc);
    NextSpine(f, pc);
    forall x: nat | g.Suffix(x)
      ensures g.inst[x].ByteRange? && (g.inst[x].out == g.out || g.Suffix(g.inst[x].out))
    {
      assert f.spine <= g.spine && g.spine[|f.spine|] == |f.inst|;
      assert x != |f.inst|;
      assert forall y :: y in f.spine ==> y in g.spine;
      assert f.Suffix(x);
    }
  }

  lemma NextKeeps(f: Fragment, pc: nat)
    requires f.Valid() && |f.branches| > 1 && f.Suffix(pc)
    ensures f.spine[|f.spine| - 1] < |f.inst| && Keeps(f, Longer(f, pc))
  {
    var g := Longer(f, pc);
    var begin := f.spine[|f.spine| - 1];
    assert begin in f.spine;
    forall x: nat | f.Suffix(x)
      ensures g.Suffix(x) && g.inst[x] == f.inst[x]
    {
    }
  }

  lemma NextSpine(f: Fragment, pc: nat)
    requires f.Valid() && |f.branches| > 1 && f.Suffix(pc)
    requires f.spine[|f.spine| - 1] < |f.inst| && Keeps(f, Longer(f, pc))
    ensures Longer(f, pc).Spine()
  {
    hide Fragment.Chains, Fragment.Suffix, Fragment.After, Longer;
    var g := Longer(f, pc);
    var n := |f.spine|;
    LongerIs(f, pc);
    NextBounds(f);
    forall j | 0 <= j < |g.branches|
      ensures g.Suffix(g.branches[j])
    {
      assert j < |f.branches| ==> f.Suffix(f.branches[j]);
    }
    forall j | 0 <= j < n + 1
      ensures g.inst[g.spine[j]] == Alt(g.branches[j], g.After(j))
    {
      NextAlt(f, pc, j);
    }
    assert g.spine[0] == f.spine[0];
    assert forall j :: 0 < j < n + 1 ==> g.spine[j] == if j < n then f.spine[j] else |f.inst|;
  }

  lemma NextBounds(f: Fragment)
    requires f.Valid() && |f.branches| > 1
    ensures forall j :: 0 <= j < |f.spine| ==> f.spine[j] < |f.inst|
  {
  }

  lemma NextAlt(f: Fragment, pc: nat, j: nat)
    requires f.Valid() && |f.branches| > 1 && f.Suffix(pc) && j <= |f.spine|
    requires f.spine[|f.spine| - 1] < |f.inst| && Longer(f, pc).base == f.base
    ensures var g := Longer(f, pc);
            |g.spine| == |f.spine| + 1 && |g.branches| == |f.branches| + 1 == |g.spine| + 1
            && g.spine[j] < |g.inst| && g.inst[g.spine[j]] == Alt(g.branches[j], g.After(j))
  {
    SpineOrder(f);
    LongerIs(f, pc);
    hide Longer, Fragment.Valid, Fragment.Suffix, Fragment.After;
    var g, n := Longer(f, pc), |f.spine|;
    AfterIs(g, j);
    if j < n - 1 {
      AfterIs(f, j);
      assert f.inst[f.spine[j]] == Alt(f.branches[j], f.After(j));
      assert f.spine[j] < f.spine[n - 1];
    }
  }

  lemma SpineOrder(f: Fragment)
    requires f.Valid() && |f.branches| > 1
    ensures |f.spine| == |f.branches| - 1
    ensures forall j :: 0 <= j < |f.spine| ==> f.spine[j] < |f.inst| && f.inst[f.spine[j]] == Alt(f.branches[j], f.After(j))
    ensures forall j :: 0 <= j < |f.spine| - 1 ==> f.spine[j] < f.spine[|f.spine| - 1]
  {
    hide Fragment.Chains, Fragment.Suffix;
  }

  lemma AfterIs(f: Fragment, j: nat)
    requires j < |f.spine| && j + 1 < |f.branches|
    ensures f.After(j) == if j + 1 < |f.spine| then f.spine[j + 1] else f.branches[j + 1]
  {
  }

  // ---------------------------------------------------------------- the builder

  datatype CacheKey = CacheKey(lo: byte, hi: byte, fold: bool, next: nat)

  /** The cache finds byte instructions that are what the key asks for. */
  ghost predicate CacheOk(cache: map<CacheKey, nat>, f: Fragment) {
    forall k :: k in cache ==> CacheEntry(f, k, cache[k])
  }

  ghost predicate CacheEntry(f: Fragment, k: CacheKey, pc: nat) {
    f.Suffix(pc) && f.inst[pc] == ByteRange(k.lo, k.hi, k.fold, if k.next == 0 then f.out else k.next)
  }

  lemma CacheKept(cache: map<CacheKey, nat>, f: Fragment, g: Fragment)
    requires CacheOk(cache, f) && Keeps(f, g)
    ensures CacheOk(cache, g)
  {
    forall k | k in cache
      ensures CacheEntry(g, k, cache[k])
    {
      assert CacheEntry(f, k, cache[k]);
    }
  }

  class RuneBuilder {
    var begin: nat
    const out: nat
    var cache: map<CacheKey, nat>
    var inst: seq<Inst>                  // p.Inst
    ghost var frag: Fragment

    ghost predicate Valid()
      reads this
    {
      && frag.Valid() && frag.inst == inst && frag.out == out && begin == frag.spine[|frag.spine| - 1]
      && CacheOk(cache, frag)
    }

    /** init: the instruction at `begin` is to hold the machine; for now there is no match. */
    constructor (p: seq<Inst>, begin: nat, out: nat)
      requires begin < |p| && out < |p| && begin != out
      ensures Valid() && frag == Fragment(p[begin := Fail], |p|, begin, out, [begin], []) && this.out == out
    {
      inst := p[begin := Fail];
      this.begin, this.out := begin, out;
      cache := map[];
      frag := Fragment(p[begin := Fail], |p|, begin, out, [begin], []);
    }

    method UncachedSuffix(lo: byte, hi: byte, fold: bool, next0: nat) returns (pc: nat)
      requires Valid() && (next0 == 0 || frag.Suffix(next0))
      modifies this`inst, this`frag
      ensures Valid() && frag.Suffix(pc) && Keeps(old(frag), frag) && frag.branches == old(frag.branches)
      ensures inst[pc] == ByteRange(lo, hi, fold, if next0 == 0 then out else next0)
    {
      hide Fragment.Valid, CacheOk;
      var next := next0;
      if next == 0 {
        next := out;
      }
      pc := |inst|;
      AppendSuffix(frag, ByteRange(lo, hi, fold, next));
      CacheKept(cache, frag, frag.(inst := inst + [ByteRange(lo, hi, fold, next)]));
      inst := inst + [ByteRange(lo, hi, fold, next)];
      frag := frag.(inst := inst);
    }

    /** suffix: continuation bytes are shared through the cache. */
    method AddSuffix(lo: byte, hi: byte, fold: bool, next: nat) returns (pc: nat)
      requires Valid() && (next == 0 || frag.Suffix(next))
      modifies this`inst, this`cache, this`frag
      ensures Valid() && frag.Suffix(pc) && Keeps(old(frag), frag) && frag.branches == old(frag.branches)
      ensures inst[pc] == ByteRange(lo, hi, fold, if next == 0 then out else next)
    {
      hide Fragment.Valid;
      if lo < 0x80 || hi > 0xBF {
        pc := UncachedSuffix(lo, hi, fold, next);
        return;
      }
      var key := CacheKey(lo, hi, fold, next);
      if key in cache {
        assert CacheEntry(frag, key, cache[key]);
        return cache[key];
      }
      pc := UncachedSuffix(lo, hi, fold, next);
      cache := cache[key := pc];
    }

    /** addBranch: one more branch, behind those that are there. */
    method AddBranch(pc: nat)
      requires Valid() && frag.Suffix(pc)
      modifies this`inst, this`begin, this`frag
      ensures Valid() && Keeps(old(frag), frag) && frag.branches == old(frag.branches) + [pc]
    {
      hide *;
      BeginIs();
      match inst[begin] {
        case Fail =>
          FirstBranch(frag, pc);
          inst := inst[begin := Nop(pc)];
          frag := frag.(inst := inst, branches := [pc]);
        case Nop(o) =>
          SecondBranch(frag, pc);
          inst := inst[begin := Alt(o, pc)];
          frag := frag.(inst := inst, branches := frag.branches + [pc]);
        case Alt(o, a) =>
          NextBranch(frag, pc);
          LongerIs(frag, pc);
          var apc := |inst|;
          inst := inst + [Alt(a, pc)];
          inst := inst[begin := Alt(o, apc)];
          frag := Longer(frag, pc);
          begin := apc;
      }
      CacheKept(cache, old(frag), frag);
      Again();
    }

    lemma Again()
      requires frag.Valid() && frag.inst == inst && frag.out == out && frag.spine != [] && begin == frag.spine[|frag.spine| - 1]
      requires CacheOk(cache, frag)
      ensures Valid()
    {
    }

    /** What addBranch finds at `begin`. */
    lemma BeginIs()
      requires Valid()
      ensures frag.Valid() && frag.inst == inst && frag.out == out && CacheOk(cache, frag)
      ensures begin < |inst| && frag.spine != [] && begin == frag.spine[|frag.spine| - 1]
      ensures |frag.branches| < 2 ==> frag.spine == [begin]
      ensures inst[begin] == var b := frag.branches; var k := |b|;
                             if k == 0 then Fail else if k == 1 then Nop(b[0]) else Alt(b[k - 2], b[k - 1])
      ensures |frag.branches| < 2 ==> begin == frag.root
    {
      hide Fragment.Valid, Fragment.Suffix;
      SpineSize(frag);
      SpineAt(frag, |frag.spine| - 1);
    }

    // -------------------------------------------------------------- addRange

    /** A chain becomes one more branch. */
    method AddWords(pc: nat, ghost words: iset<Str>)
      requires Valid() && frag.Suffix(pc) && forall s :: Reads(frag.inst, frag.out, pc, s) <==> s in words
      modifies this`inst, this`begin, this`frag
      ensures Valid() && Keeps(old(frag), frag) && WordsOf(frag) == old(WordsOf(frag)) + words
    {
      hide *;
      BeginIs();
      AddBranch(pc);
      BeginIs();
      WordsGrow(old(frag), pc, words);
    }

    lemma WordsGrow(f: Fragment, pc: nat, words: iset<Str>)
      requires f.Valid() && frag.Valid() && Keeps(f, frag) && f.Suffix(pc) && frag.branches == f.branches + [pc]
      requires forall s :: Reads(f.inst, f.out, pc, s) <==> s in words
      ensures WordsOf(frag) == WordsOf(f) + words
    {
      hide Fragment.Valid, Keeps, Reads, Fragment.Suffix, Fragment.Accepts;
      forall s: Str
        ensures frag.Accepts(s) <==> f.Accepts(s) || s in words
      {
        AcceptsMore(f, frag, pc, s);
      }
    }

    /** The last step of addRange: a byte chain for a box of encodings, from the last byte to the first. */
    method AddBox(ulo: Str, uhi: Str) returns (pc: nat)
      requires Valid() && |ulo| == |uhi| > 0
      modifies this`inst, this`cache, this`frag
      ensures Valid() && frag.Suffix(pc) && Keeps(old(frag), frag) && frag.branches == old(frag.branches)
      ensures forall s :: Reads(frag.inst, frag.out, pc, s) <==> InBox(s, ulo, uhi)
    {
      hide *;
      pc := 0;
      var i := |ulo|;
      BoxStart(ulo, uhi);
      while i > 0
        invariant 0 <= i <= |ulo| && Valid() && Keeps(old(frag), frag) && frag.branches == old(frag.branches)
        invariant if i == |ulo| then pc == 0 else pc != 0 && frag.Suffix(pc)
        invariant forall s :: Reads(frag.inst, frag.out, Entry(pc), s) <==> InBox(s, ulo[i..], uhi[i..])
      {
        i := i - 1;
        ghost var was, before := frag, Entry(pc);
        BeginIs();
        EntryIs(pc);
        pc := AddSuffix(ulo[i], uhi[i], false, pc);
        BeginIs();
        BoxStep(was, before, pc, ulo, uhi, i);
        KeepsMore(old(frag), was, frag);
      }
      EntryIs(pc);
      assert ulo[0..] == ulo && uhi[0..] == uhi;
    }

    /** Where a chain starts; 0 is the empty chain. */
    ghost function Entry(pc: nat): nat {
      if pc == 0 then out else pc
    }

    lemma EntryIs(pc: nat)
      ensures pc == 0 ==> Entry(pc) == out
      ensures pc != 0 ==> Entry(pc) == pc
    {
    }

    lemma BoxStart(ulo: Str, uhi: Str)
      requires Valid() && |ulo| == |uhi|
      ensures Keeps(frag, frag)
      ensures forall s :: Reads(frag.inst, frag.out, Entry(0), s) <==> InBox(s, ulo[|ulo|..], uhi[|ulo|..])
    {
    }

    lemma BoxStep(was: Fragment, before: nat, pc: nat, ulo: Str, uhi: Str, i: nat)
      requires was.Valid() && frag.Valid() && Keeps(was, frag) && frag.Suffix(pc) && frag.out == out
      requires i < |ulo| == |uhi| && (before == out || was.Suffix(before)) && frag.inst == inst
      requires inst[pc] == ByteRange(ulo[i], uhi[i], false, before)
      requires forall s :: Reads(was.inst, was.out, before, s) <==> InBox(s, ulo[i + 1..], uhi[i + 1..])
      ensures pc != 0 && forall s :: Reads(frag.inst, frag.out, Entry(pc), s) <==> InBox(s, ulo[i..], uhi[i..])
    {
      hide Fragment.Spine, Fragment.Chains;
      assert was.out == out;
      forall s: Str
        ensures Reads(frag.inst, frag.out, pc, s) <==> InBox(s, ulo[i..], uhi[i..])
      {
        if s != [] {
          KeepsReading(was, frag, before, s[1..]);
          BoxFront(s, ulo[i..], uhi[i..]);
          assert ulo[i..][1..] == ulo[i + 1..] && uhi[i..][1..] == uhi[i + 1..];
        }
      }
    }

    /** addRange: besides what it accepted before, the fragment accepts what the parts of the range add, and so exactly
        the words of the runes from `lo` to `hi` if the range is safe. */
    method AddRange(lo: rune, hi: rune, fold: bool)
      requires Valid() && (lo <= hi ==> 0 <= lo && hi <= MaxRune)
      modifies this
      ensures Valid() && Keeps(old(frag), frag) && WordsOf(frag) == old(WordsOf(frag)) + Added(lo, hi, fold)
      ensures Safe(lo, hi) ==> WordsOf(frag) == old(WordsOf(frag)) + RangeWords(lo, hi, fold)
      decreases hi - lo
    {
      hide *;
      Utf8Sizes();
      BeginIs();
      if Safe(lo, hi) {
        SafeAdded(lo, hi, fold);
      }
      if lo > hi {
        NothingAdded(lo, hi, fold);
        return;
      }
      for i := 1 to UTFMax
        invariant Valid() && frag == old(frag) && WordsOf(frag) == old(WordsOf(frag))
        invariant forall j :: 1 <= j < i ==> !CutsLength(lo, hi, j)
      {
        var max := MaxRuneOf(i);
        CutsLengthIs(lo, hi, i);
        if lo <= max < hi {
          SplitByLength(lo, hi, i);
          AddTwo(lo, max, hi, fold);
          return;
        }
      }
      OneLengthLeft(lo, hi);
      if hi < RuneSelf {
        var pc := AddSuffix(lo, hi, fold, 0);
        BeginIs();
        AsciiReads(pc, lo, hi, fold);
        SplitNowhere(lo, hi);
        AddedAscii(lo, hi, fold);
        WordsKept(old(frag));
        ghost var was := frag;
        AddWords(pc, RangeWords(lo, hi, fold));
        KeepsMore(old(frag), was, frag);
        return;
      }
      for i := 1 to UTFMax
        invariant Valid() && frag == old(frag) && WordsOf(frag) == old(WordsOf(frag))
        invariant forall j :: 1 <= j < i ==> !CutsFront(lo, hi, j) && !CutsBack(lo, hi, j)
      {
        Pow64Positive(i);
        var m := Pow64(i);
        CutsAre(lo, hi, i);
        if lo / m != hi / m {
          if lo % m != 0 {
            SplitRagged(lo, hi, i);
            AddTwo(lo, lo - lo % m + m - 1, hi, fold);
            return;
          }
          if hi % m != m - 1 {
            SplitRagged(lo, hi, i);
            AddTwo(lo, hi - hi % m - 1, hi, fold);
            return;
          }
        }
      }
      var ulo, uhi := EncodeRune(lo), EncodeRune(hi);
      SplitNowhere(lo, hi);
      PartEnds(lo, hi);
      assert |ulo| == |uhi|;
      var pc := AddBox(ulo, uhi);
      BeginIs();
      BoxReads(pc, lo, hi, fold);
      WordsKept(old(frag));
      ghost var was := frag;
      AddWords(pc, Added(lo, hi, fold));
      KeepsMore(old(frag), was, frag);
    }

    /** The two calls that a split ends with. */
    method AddTwo(lo: rune, mid: rune, hi: rune, fold: bool)
      requires Valid() && 0 <= lo <= mid < hi <= MaxRune && mid == SplitAt(lo, hi)
      modifies this
      ensures Valid() && Keeps(old(frag), frag) && WordsOf(frag) == old(WordsOf(frag)) + Added(lo, hi, fold)
      decreases hi - lo, 0
    {
      hide *;
      AddRange(lo, mid, fold);
      ghost var was := frag;
      AddRange(mid + 1, hi, fold);
      KeepsMore(old(frag), was, frag);
      AddedSplit(lo, hi, fold);
    }

    lemma NothingAdded(lo: rune, hi: rune, fold: bool)
      requires lo > hi && Valid()
      ensures Added(lo, hi, fold) == iset{} && Keeps(frag, frag)
    {
    }

    lemma WordsKept(f: Fragment)
      requires f.Valid() && Keeps(f, frag) && frag.branches == f.branches
      ensures WordsOf(frag) == WordsOf(f)
    {
      hide Keeps, Reads, Fragment.Chains;
      forall s: Str
        ensures frag.Accepts(s) <==> f.Accepts(s)
      {
        AcceptsSame(f, frag, s);
      }
    }

    lemma AsciiReads(pc: nat, lo: rune, hi: rune, fold: bool)
      requires frag.Valid() && frag.Suffix(pc) && frag.inst == inst && frag.out == out
      requires 0 <= lo <= hi < RuneSelf && inst[pc] == ByteRange(lo, hi, fold, out)
      ensures forall s :: Reads(frag.inst, frag.out, pc, s) <==> s in RangeWords(lo, hi, fold)
    {
      hide Fragment.Spine, Fragment.Chains;
      forall s: Str
        ensures Reads(frag.inst, frag.out, pc, s) <==> s in RangeWords(lo, hi, fold)
      {
        AsciiWords(s, lo, hi, fold);
        assert s != [] ==> (Reads(frag.inst, frag.out, out, s[1..]) <==> s[1..] == []);
      }
    }

    lemma BoxReads(pc: nat, lo: rune, hi: rune, fold: bool)
      requires RuneSelf <= hi && 0 <= lo <= hi <= MaxRune && SplitAt(lo, hi) == hi && |EncodeRune(lo)| == |EncodeRune(hi)|
      requires forall s :: Reads(frag.inst, frag.out, pc, s) <==> InBox(s, EncodeRune(lo), EncodeRune(hi))
      ensures forall s :: Reads(frag.inst, frag.out, pc, s) <==> s in Added(lo, hi, fold)
    {
      hide Reads, InBox, EncodeRune, SplitAt;
      AddedPart(lo, hi, fold);
    }
  }

  lemma AcceptsSame(f: Fragment, g: Fragment, s: Str)
    requires f.Valid() && Keeps(f, g) && g.branches == f.branches
    ensures g.Accepts(s) <==> f.Accepts(s)
  {
    hide Keeps, Reads, Fragment.Chains, Fragment.Suffix;
    forall j | 0 <= j < |f.branches|
      ensures Reads(g.inst, g.out, f.branches[j], s) <==> Reads(f.inst, f.out, f.branches[j], s)
    {
      KeepsReading(f, g, f.branches[j], s);
    }
  }

  lemma AcceptsMore(f: Fragment, g: Fragment, pc: nat, s: Str)
    requires f.Valid() && Keeps(f, g) && f.Suffix(pc) && g.branches == f.branches + [pc]
    ensures g.Accepts(s) <==> f.Accepts(s) || Reads(f.inst, f.out, pc, s)
  {
    hide Keeps, Reads, Fragment.Chains, Fragment.Suffix;
    forall j | 0 <= j < |g.branches|
      ensures Reads(g.inst, g.out, g.branches[j], s) <==> Reads(f.inst, f.out, g.branches[j], s)
    {
      assert j < |f.branches| ==> g.branches[j] == f.branches[j];
      KeepsReading(f, g, g.branches[j], s);
    }
    var n := |f.branches|;
    assert g.branches[n] == pc && forall j :: 0 <= j < n ==> g.branches[j] == f.branches[j];
    if f.Accepts(s) {
      var j :| 0 <= j < n && Reads(f.inst, f.out, f.branches[j], s);
      assert Reads(g.inst, g.out, g.branches[j], s);
    }
    if Reads(f.inst, f.out, pc, s) {
      assert Reads(g.inst, g.out, g.branches[n], s);
    }
  }

  lemma BoxFront(s: Str, a: Str, b: Str)
    requires |a| == |b| > 0 && s != []
    ensures InBox(s, a, b) <==> a[0] <= s[0] <= b[0] && InBox(s[1..], a[1..], b[1..])
  {
    if a[0] <= s[0] <= b[0] && InBox(s[1..], a[1..], b[1..]) {
      forall k | 0 <= k < |s|
        ensures a[k] <= s[k] <= b[k]
      {
        assert k > 0 ==> a[1..][k - 1] <= s[1..][k - 1] <= b[1..][k - 1];
      }
    }
  }

  // ---------------------------------------------------------------- the fragment in the program

  lemma {:induction false} LeadsReads(f: Fragment, n: nat, pc: nat, s: Str)
    requires f.Valid() && (pc == f.out || f.Suffix(pc))
    ensures LeadsIn(f.inst, f.out, n, pc, s) ==> Reads(f.inst, f.out, pc, s)
    ensures Reads(f.inst, f.out, pc, s) && n >= |s| ==> LeadsIn(f.inst, f.out, n, pc, s)
    decreases n
  {
    hide Fragment.Spine;
    if pc != f.out && s != [] && n > 0 {
      var o := f.inst[pc].out;
      LeadsReads(f, n - 1, o, s[1..]);
      assert LeadsIn(f.inst, f.out, n, pc, s) == StepLeads(f.inst, f.out, n, pc, s);
      assert StepLeads(f.inst, f.out, n, pc, s) == (AcceptsByte(f.inst[pc], s[0]) && LeadsIn(f.inst, f.out, n - 1, o, s[1..]));
    } else if pc != f.out && n > 0 {
      assert LeadsIn(f.inst, f.out, n, pc, s) == StepLeads(f.inst, f.out, n, pc, s);
    }
  }

  lemma SpineAt(f: Fragment, j: nat)
    requires f.Valid() && j < |f.spine|
    ensures f.spine[j] < |f.inst| && f.spine[j] != f.out
    ensures |f.branches| > 1 ==> f.inst[f.spine[j]] == Alt(f.branches[j], f.After(j)) && j + 1 < |f.branches|
    ensures |f.branches| == 1 ==> f.inst[f.spine[j]] == Nop(f.branches[j])
    ensures f.branches == [] ==> f.inst[f.spine[j]] == Fail
    ensures forall k :: 0 <= k < |f.branches| ==> f.Suffix(f.branches[k])
  {
  }

  lemma {:induction false} SpineLeads(f: Fragment, n: nat, j: nat, s: Str)
    requires f.Valid() && j < |f.spine| && LeadsIn(f.inst, f.out, n, f.spine[j], s)
    ensures f.Accepts(s)
    decreases n
  {
    hide Fragment.Valid, Fragment.Suffix, Reads;
    SpineAt(f, j);
    SpineSize(f);
    if |f.branches| > 1 {
      if LeadsIn(f.inst, f.out, n - 1, f.branches[j], s) {
        LeadsReads(f, n - 1, f.branches[j], s);
      } else if j + 1 < |f.spine| {
        SpineLeads(f, n - 1, j + 1, s);
      } else {
        LeadsReads(f, n - 1, f.branches[j + 1], s);
      }
    } else if |f.branches| == 1 {
      LeadsReads(f, n - 1, f.branches[j], s);
    }
  }

  lemma {:induction false} BranchLeads(f: Fragment, j: nat, k: nat, s: Str)
    requires f.Valid() && j < |f.spine| && j <= k < |f.branches| && Reads(f.inst, f.out, f.branches[k], s)
    ensures Leads(f.inst, f.out, f.spine[j], s)
    decreases k - j
  {
    hide Fragment.Valid, Fragment.Suffix, Reads;
    SpineAt(f, j);
    LeadsReads(f, |s|, f.branches[k], s);
    if j == k || j + 1 >= |f.spine| {
      SpineSize(f);
      assert LeadsIn(f.inst, f.out, |s| + 1, f.spine[j], s);
    } else {
      BranchLeads(f, j + 1, k, s);
      var n: nat :| LeadsIn(f.inst, f.out, n, f.spine[j + 1], s);
      assert LeadsIn(f.inst, f.out, n + 1, f.spine[j], s);
    }
  }

  lemma SpineSize(f: Fragment)
    requires f.Valid()
    ensures |f.spine| == (if |f.branches| < 2 then 1 else |f.branches| - 1) && f.spine[0] == f.root
  {
  }

  /** Started at its root, the fragment reads exactly what its branches read. */
  lemma FragmentLeads(f: Fragment, s: Str)
    requires f.Valid()
    ensures Leads(f.inst, f.out, f.root, s) <==> f.Accepts(s)
  {
    hide Fragment.Valid, Fragment.Suffix, Reads, LeadsIn;
    SpineSize(f);
    if n: nat :| LeadsIn(f.inst, f.out, n, f.root, s) {
      SpineLeads(f, n, 0, s);
    }
    if j :| 0 <= j < |f.branches| && Reads(f.inst, f.out, f.branches[j], s) {
      BranchLeads(f, 0, j, s);
    }
  }

  /** A program stays valid when one of its instructions becomes a fragment. */
  lemma ProgramStaysValid(p: seq<Inst>, start: nat, f: Fragment)
    requires ValidProg(Prog(p, start)) && f.Valid() && f.base == |p|
    requires forall x :: 0 <= x < |p| && x != f.root ==> f.inst[x] == p[x]
    ensures ValidProg(Prog(f.inst, start))
  {
    forall x | 0 <= x < |f.inst|
      ensures ValidInst(f.inst[x], |f.inst|)
    {
      if x == f.root || (x >= f.base && x in f.spine) {
        var j :| 0 <= j < |f.spine| && f.spine[j] == x;
        SpineAt(f, j);
      } else if x >= f.base {
        assert f.Suffix(x);
      } else {
        assert ValidInst(p[x], |p|);
      }
    }
  }

  // ---------------------------------------------------------------- a whole instruction

  /** What a compiled instruction consists of: its place and the new instructions lead only to new ones, and over their
      last byte to `out`. */
  predicate Compiled(inst: seq<Inst>, base: nat, pc: nat, out: nat) {
    forall x :: 0 <= x < |inst| && (x == pc || x >= base) ==> Internal(inst[x], base, out)
  }

  predicate Internal(i: Inst, base: nat, out: nat) {
    match i
    case Fail => true
    case Nop(o) => o >= base
    case Alt(o, a) => o >= base && a >= base
    case ByteRange(_, _, _, o) => o >= base || o == out
    case _ => false
  }

  lemma FragmentInternal(f: Fragment)
    requires f.Valid()
    ensures Compiled(f.inst, f.base, f.root, f.out)
  {
    forall x | 0 <= x < |f.inst| && (x == f.root || x >= f.base)
      ensures Internal(f.inst[x], f.base, f.out)
    {
      if x in f.spine {
        var j :| 0 <= j < |f.spine| && f.spine[j] == x;
        SpineAt(f, j);
      } else {
        assert x >= f.base by {
          assert f.spine[0] == f.root;
        }
        assert f.Suffix(x);
      }
    }
  }

  /** toByteProg for one rune instruction: it is replaced by byte instructions that lead from it to where it led, over
      what its ranges add, and so exactly over the encodings of its runes if the class is safe. The rest of the program
      stays as it is. */
  method CompileClass(p: seq<Inst>, pc: nat, out: nat, r: seq<rune>) returns (inst: seq<Inst>)
    requires pc < |p| && out < |p| && pc != out && ClassRanges(r)
    ensures |p| <= |inst| && forall x :: 0 <= x < |p| && x != pc ==> inst[x] == p[x]
    ensures Compiled(inst, |p|, pc, out)
    ensures forall start: nat :: ValidProg(Prog(p, start)) ==> ValidProg(Prog(inst, start))
    ensures forall s: Str :: Leads(inst, out, pc, s) <==> s in ClassAdded(r)
    ensures SafeClass(r) ==> forall s: Str :: Leads(inst, out, pc, s) <==> s in ClassWords(r)
  {
    hide *;
    var b := new RuneBuilder(p, pc, out);
    ghost var f := b.frag;
    NothingAccepted(p, pc, out);
    ClassParts(r);
    if |r| == 1 {
      b.AddRange(r[0], r[0], false);
    } else {
      for j := 0 to |r| / 2
        invariant fresh(b) && b.Valid() && Keeps(f, b.frag) && WordsOf(b.frag) == PairsAdded(r, j)
      {
        ghost var was := b.frag;
        PairStep(r, j);
        b.AddRange(r[2 * j], r[2 * j + 1], false);
        KeepsMore(f, was, b.frag);
      }
    }
    inst := b.inst;
    b.BeginIs();
    CompiledIs(p, pc, out, b.frag, ClassAdded(r));
    if SafeClass(r) {
      SafeClassAdded(r);
    }
  }

  lemma NothingAccepted(p: seq<Inst>, pc: nat, out: nat)
    requires pc < |p|
    ensures var f := Fragment(p[pc := Fail], |p|, pc, out, [pc], []);
            WordsOf(f) == iset{} && Keeps(f, f)
  {
  }

  lemma ClassParts(r: seq<rune>)
    requires ClassRanges(r)
    ensures |r| == 1 ==> 0 <= r[0] <= MaxRune && ClassAdded(r) == iset{} + Added(r[0], r[0], false)
    ensures |r| != 1 ==> PairsAdded(r, 0) == iset{} && ClassAdded(r) == PairsAdded(r, |r| / 2)
    ensures |r| != 1 ==> forall j :: 0 <= j < |r| / 2 ==> Pair(r, j)
  {
  }

  /** Range `j` of the list can be added. */
  predicate Pair(r: seq<rune>, j: nat) {
    2 * j + 1 < |r| && 0 <= r[2 * j] && r[2 * j + 1] <= MaxRune
  }

  lemma PairStep(r: seq<rune>, j: nat)
    requires Pair(r, j)
    ensures 2 * j + 1 < |r| && 0 <= r[2 * j] && r[2 * j + 1] <= MaxRune
    ensures PairsAdded(r, j + 1) == PairsAdded(r, j) + Added(r[2 * j], r[2 * j + 1], false)
  {
    hide Added;
    var n := j + 1;
    assert 2 * n - 2 == 2 * j && 2 * n - 1 == 2 * j + 1;
  }

  lemma CompiledIs(p: seq<Inst>, pc: nat, out: nat, f: Fragment, words: iset<Str>)
    requires pc < |p| && f.Valid() && Keeps(Fragment(p[pc := Fail], |p|, pc, out, [pc], []), f) && WordsOf(f) == words
    ensures |p| <= |f.inst| && forall x :: 0 <= x < |p| && x != pc ==> f.inst[x] == p[x]
    ensures Compiled(f.inst, |p|, pc, out)
    ensures forall start: nat :: ValidProg(Prog(p, start)) ==> ValidProg(Prog(f.inst, start))
    ensures forall s: Str :: Leads(f.inst, out, pc, s) <==> s in words
  {
    hide Leads, Fragment.Accepts, Fragment.Valid, ValidProg, Compiled;
    FragmentInternal(f);
    forall s: Str
      ensures Leads(f.inst, out, pc, s) <==> s in words
    {
      FragmentLeads(f, s);
    }
    forall start: nat | ValidProg(Prog(p, start))
      ensures ValidProg(Prog(f.inst, start))
    {
      ProgramStaysValid(p, start, f);
    }
  }
}
