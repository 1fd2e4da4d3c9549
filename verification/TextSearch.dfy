/** Searching texts (regexp/regexp.go, regexp/match.go): a program is compiled once, and one matcher with one cache goes
    through all of them. */
module TextSearch {
  import opened Bytes
  import opened IndexFormat
  import opened Programs
  import opened Matchers
  import opened BytePrograms

  /** Some path over runes matches in the line that ends at `e`. */
  ghost predicate RuneLineFound(p: Prog, b: Str, e: nat)
    requires e <= |b|
  {
    RuneMatches(p, LineTo(b, e, true, NewLine)) || (e == |b| && RuneMatches(p, LineTo(b, e, true, EndOfText)))
  }

  /** The least end of a line of `b` that has a match, -1 if there is none. */
  ghost predicate FirstEnd(p: Prog, b: Str, end: int) {
    if end == -1 then forall e: nat :: LineEnd(b, e) ==> !RuneLineFound(p, b, e)
    else 0 <= end && LineEnd(b, end) && RuneLineFound(p, b, end)
         && forall e: nat :: e < end && LineEnd(b, e) ==> !RuneLineFound(p, b, e)
  }

  lemma SameLines(p: Prog, q: Prog, b: Str, e: nat)
    requires e <= |b| && forall l: Line :: LineMatches(q, l) <==> RuneMatches(p, l)
    ensures LineFound(q, b, e, true, true) <==> RuneLineFound(p, b, e)
  {
    hide LineMatches, RuneMatches, LineTo;
  }

  /** Searches whole texts, one after the other. What the cache holds from earlier texts makes no difference: each search
      ends at the first line that some path through the program matches. `None` is a program that grows too large. */
  method SearchTexts(p: Prog, texts: seq<Str>) returns (ends: Option<seq<int>>)
    requires Compilable(p)
    ensures ends.Some? ==> |ends.value| == |texts| && forall k :: 0 <= k < |texts| ==> FirstEnd(p, texts[k], ends.value[k])
  {
    hide *;
    var q := ToByteProg(p);
    if |q.inst| >= NoId {
      return None;
    }
    var dmatch := NewDMatch();
    var m := new Matcher(q, dmatch);
    m.Init();
    var found: seq<int> := [];
    for k := 0 to |texts|
      invariant m.Valid() && m.prog == q && fresh(m) && fresh(m.states) && fresh(m.z1) && fresh(m.z2)
      invariant fresh(m.z1.q) && fresh(m.z2.q) && fresh(m.z1.q.sparse) && fresh(m.z2.q.sparse)
      invariant |found| == k && forall j :: 0 <= j < k ==> FirstEnd(p, texts[j], found[j])
    {
      var end := m.Match(texts[k], true, true);
      EndIs(p, q, texts[k], end);
      found := found + [end];
    }
    ends := Some(found);
  }

  lemma EndIs(p: Prog, q: Prog, b: Str, end: int)
    requires forall l: Line :: LineMatches(q, l) <==> RuneMatches(p, l)
    requires end == -1 ==> forall e: nat :: LineEnd(b, e) ==> !LineFound(q, b, e, true, true)
    requires end != -1 ==> 0 <= end && LineEnd(b, end) && LineFound(q, b, end, true, true)
                           && forall e: nat :: e < end && LineEnd(b, e) ==> !LineFound(q, b, e, true, true)
    ensures FirstEnd(p, b, end)
  {
    hide LineMatches, RuneMatches, RuneLineFound, LineFound;
    forall e: nat | LineEnd(b, e)
      ensures LineFound(q, b, e, true, true) <==> RuneLineFound(p, b, e)
    {
      SameLines(p, q, b, e);
    }
  }
}
