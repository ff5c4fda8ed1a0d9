/** Placement of a reviewed unified diff whose context may have moved. */
module SourcePatch {
  import opened Outcome

  type Line = string

  datatype Tag = Context | Removed | Added

  datatype HunkLine = HunkLine(tag: Tag, text: Line)

  type HunkLines = seq<HunkLine>

  function OldLines(ls: HunkLines): seq<Line> {
    if ls == [] then [] else (if ls[0].tag == Added then [] else [ls[0].text]) + OldLines(ls[1..])
  }

  function NewLines(ls: HunkLines): seq<Line> {
    if ls == [] then [] else (if ls[0].tag == Removed then [] else [ls[0].text]) + NewLines(ls[1..])
  }

  /** Number of context lines before the first changed line. */
  function LeadingContext(ls: HunkLines): (n: nat)
    ensures n <= |ls| && forall k :: 0 <= k < n ==> ls[k].tag == Context
    ensures n < |ls| ==> ls[n].tag != Context
  {
    if ls == [] || ls[0].tag != Context then 0 else
      var n := 1 + LeadingContext(ls[1..]);
      assert forall k :: 1 <= k < n ==> ls[k] == ls[1..][k - 1];
      n
  }

  /** Number of context lines after the last changed line. */
  function TrailingContext(ls: HunkLines): (n: nat)
    ensures n <= |ls| && forall k :: |ls| - n <= k < |ls| ==> ls[k].tag == Context
    ensures n < |ls| ==> ls[|ls| - 1 - n].tag != Context
  {
    if ls == [] || ls[|ls| - 1].tag != Context then 0 else 1 + TrailingContext(ls[..|ls| - 1])
  }

  datatype HunkValue = Hunk(lines: HunkLines) {
    function Old(): seq<Line> { OldLines(lines) }

    function New(): seq<Line> { NewLines(lines) }

    function Leading(): nat { LeadingContext(lines) }

    function Trailing(): nat { TrailingContext(lines) }
  }

  /** A parsed hunk changes something. */
  type Hunk = h: HunkValue | h.Leading() < |h.lines| witness Hunk([HunkLine(Added, "")])

  // ---- Reversal ----

  function Swap(tag: Tag): Tag {
    match tag
    case Context => Context
    case Removed => Added
    case Added => Removed
  }

  function SwapAll(ls: HunkLines): (r: HunkLines)
    ensures |r| == |ls| && LeadingContext(r) == LeadingContext(ls)
  {
    if ls == [] then [] else [HunkLine(Swap(ls[0].tag), ls[0].text)] + SwapAll(ls[1..])
  }

  function Reversed(h: Hunk): Hunk { Hunk(SwapAll(h.lines)) }

  lemma {:induction false} SwapLast(ls: HunkLines, l: HunkLine)
    ensures SwapAll(ls + [l]) == SwapAll(ls) + [HunkLine(Swap(l.tag), l.text)]
  {
    if ls != [] {
      assert (ls + [l])[1..] == ls[1..] + [l];
      SwapLast(ls[1..], l);
    }
  }

  lemma {:induction false} SwapFacts(ls: HunkLines)
    ensures SwapAll(SwapAll(ls)) == ls
    ensures OldLines(SwapAll(ls)) == NewLines(ls) && NewLines(SwapAll(ls)) == OldLines(ls)
  {
    if ls != [] {
      assert SwapAll(ls)[1..] == SwapAll(ls[1..]);
      SwapFacts(ls[1..]);
    }
  }

  lemma {:induction false} TrailingOfLast(ls: HunkLines, l: HunkLine)
    ensures TrailingContext(ls + [l]) == if l.tag == Context then 1 + TrailingContext(ls) else 0
  {
    assert (ls + [l])[..|ls|] == ls;
  }

  lemma {:induction false} SwapKeepsTrailing(ls: HunkLines)
    ensures TrailingContext(SwapAll(ls)) == TrailingContext(ls)
  {
    if ls == [] {
      assert SwapAll(ls) == [];
    } else {
      var rest, last := ls[..|ls| - 1], ls[|ls| - 1];
      SwapLast(rest, last);
      assert rest + [last] == ls;
      SwapKeepsTrailing(rest);
      TrailingOfLast(rest, last);
      TrailingOfLast(SwapAll(rest), HunkLine(Swap(last.tag), last.text));
    }
  }

  /** Reversal is an involution that swaps old and new text and keeps the context widths. */
  lemma {:induction false} ReversalIsInvolution(h: Hunk)
    ensures Reversed(Reversed(h)) == h
    ensures Reversed(h).Old() == h.New() && Reversed(h).New() == h.Old()
    ensures Reversed(h).Leading() == h.Leading() && Reversed(h).Trailing() == h.Trailing()
  {
    SwapFacts(h.lines);
    SwapKeepsTrailing(h.lines);
  }

  // ---- The three parts of a hunk ----

  lemma {:induction false} TextsCons(l: HunkLine, ls: HunkLines)
    ensures OldLines([l] + ls) == (if l.tag == Added then [] else [l.text]) + OldLines(ls)
    ensures NewLines([l] + ls) == (if l.tag == Removed then [] else [l.text]) + NewLines(ls)
  {
    assert ([l] + ls)[1..] == ls;
  }

  lemma {:induction false} NoTexts()
    ensures OldLines([]) == [] && NewLines([]) == []
  {
  }

  lemma {:induction false} TextsAppend(a: HunkLines, b: HunkLines)
    ensures OldLines(a + b) == OldLines(a) + OldLines(b) && NewLines(a + b) == NewLines(a) + NewLines(b)
  {
    hide OldLines, NewLines;
    NoTexts();
    if a == [] {
      assert a + b == b;
    } else {
      var l, ls := a[0], a[1..];
      assert a + b == [l] + (ls + b) && a == [l] + ls;
      TextsAppend(ls, b);
      TextsCons(l, ls + b);
      TextsCons(l, ls);
    }
  }

  lemma {:induction false} ContextTexts(ls: HunkLines)
    requires forall k :: 0 <= k < |ls| ==> ls[k].tag == Context
    ensures OldLines(ls) == NewLines(ls) && |OldLines(ls)| == |ls|
  {
    if ls != [] { ContextTexts(ls[1..]); }
  }

  lemma {:induction false} MiddleIsBetween(h: Hunk)
    ensures h.Leading() < |h.lines| - h.Trailing()
  {
    var l := h.Leading();
    assert h.lines[l].tag != Context;
  }

  function Before(h: Hunk): seq<Line> { OldLines(h.lines[..h.Leading()]) }

  function Middle(h: Hunk): HunkLines {
    MiddleIsBetween(h);
    h.lines[h.Leading()..|h.lines| - h.Trailing()]
  }

  function After(h: Hunk): seq<Line> { OldLines(h.lines[|h.lines| - h.Trailing()..]) }

  function CoreOld(h: Hunk): seq<Line> { OldLines(Middle(h)) }

  function CoreNew(h: Hunk): seq<Line> { NewLines(Middle(h)) }

  /** Old and new text share the context on both sides and differ only in the core. */
  lemma {:induction false} HunkParts(h: Hunk)
    ensures h.Old() == Before(h) + CoreOld(h) + After(h)
    ensures h.New() == Before(h) + CoreNew(h) + After(h)
    ensures |Before(h)| == h.Leading() && |After(h)| == h.Trailing()
  {
    hide OldLines, NewLines;
    MiddleIsBetween(h);
    var l, t := h.Leading(), |h.lines| - h.Trailing();
    var a, m, b := h.lines[..l], Middle(h), h.lines[t..];
    assert h.lines == (a + m) + b;
    TextsAppend(a + m, b);
    TextsAppend(a, m);
    ContextTexts(a);
    ContextTexts(b);
  }

  lemma {:induction false} ReversedParts(h: Hunk)
    ensures Before(Reversed(h)) == Before(h) && After(Reversed(h)) == After(h)
    ensures CoreOld(Reversed(h)) == CoreNew(h) && CoreNew(Reversed(h)) == CoreOld(h)
  {
    var r := Reversed(h);
    ReversalIsInvolution(h);
    HunkParts(h);
    HunkParts(r);
    assert r.Old()[..h.Leading()] == Before(r) && h.New()[..h.Leading()] == Before(h);
    assert r.Old()[|r.Old()| - h.Trailing()..] == After(r) && h.New()[|h.New()| - h.Trailing()..] == After(h);
    assert r.Old()[h.Leading()..|r.Old()| - h.Trailing()] == CoreOld(r);
    assert h.New()[h.Leading()..|h.New()| - h.Trailing()] == CoreNew(h);
    assert r.New()[h.Leading()..|r.New()| - h.Trailing()] == CoreNew(r);
    assert h.Old()[h.Leading()..|h.Old()| - h.Trailing()] == CoreOld(h);
  }

  // ---- Search ----

  predicate MatchesAt(lines: seq<Line>, needle: seq<Line>, p: nat) {
    p + |needle| <= |lines| && lines[p..p + |needle|] == needle
  }

  /** All positions at or after `start` where the complete needle appears, in ascending order. */
  function Find(lines: seq<Line>, needle: seq<Line>, start: nat): (ps: seq<nat>)
    ensures forall p :: p in ps <==> start <= p && MatchesAt(lines, needle, p)
    ensures forall i, j :: 0 <= i < j < |ps| ==> ps[i] < ps[j]
    decreases |lines| - start
  {
    if start + |needle| > |lines| then []
    else
      var rest := if start < |lines| then Find(lines, needle, start + 1) else [];
      assert forall j :: 0 <= j < |rest| ==> rest[j] in rest;
      if MatchesAt(lines, needle, start) then [start] + rest else rest
  }

  datatype Placement = Placement(start: nat, length: nat, replacement: seq<Line>, exact: bool)

  datatype PatchError = NoOldText | Ambiguous | NotPresent | NotAFile | BothWays

  function Shifted(ps: seq<nat>, offset: nat): set<nat> {
    set k | 0 <= k < |ps| :: ps[k] + offset
  }

  /** Positions of the core given one complete side of context; a side without context places nothing. */
  function OneSided(lines: seq<Line>, h: Hunk, start: nat): set<nat> {
    HunkParts(h);
    var text, lead, trail := h.Old(), h.Leading(), h.Trailing();
    (if lead > 0 then Shifted(Find(lines, text[..|text| - trail], start), lead) else {})
    + (if trail > 0 then Shifted(Find(lines, text[lead..], start), 0) else {})
  }

  function Place(lines: seq<Line>, h: Hunk, start: nat): Result<Placement, PatchError> {
    if h.Old() == [] then Err(NoOldText)
    else
      var exact := Find(lines, h.Old(), start);
      if |exact| > 1 then Err(Ambiguous)
      else if |exact| == 1 then Ok(Placement(exact[0] + h.Leading(), |CoreOld(h)|, CoreNew(h), true))
      else
        var positions := OneSided(lines, h, start);
        if positions == {} then Err(NotPresent)
        else if |positions| != 1 then Err(Ambiguous)
        else
          var p: nat := Only(positions);
          Ok(Placement(p, |CoreOld(h)|, CoreNew(h), false))
  }

  function Only(s: set<nat>): (p: nat)
    requires |s| == 1
    ensures s == {p}
  {
    OnlyOne(s);
    var p :| p in s;
    p
  }

  lemma {:induction false} OnlyOne(s: set<nat>)
    requires |s| == 1
    ensures exists p :: s == {p}
    ensures forall p, q :: p in s && q in s ==> p == q
    ensures forall p :: p in s ==> s == {p}
    ensures s != {}
  {
    var p :| p in s;
    assert |s - {p}| == 0;
    assert s == {p};
  }

  // ---- Placing in what follows the previous hunk ----

  function Shift(p: Placement, offset: nat): Placement { p.(start := p.start + offset) }

  lemma {:induction false} MatchesBehind(done: seq<Line>, tail: seq<Line>, needle: seq<Line>, p: nat)
    ensures MatchesAt(done + tail, needle, |done| + p) <==> MatchesAt(tail, needle, p)
  {
    if p + |needle| <= |tail| {
      assert (done + tail)[|done| + p..|done| + p + |needle|] == tail[p..p + |needle|];
    }
  }

  lemma {:induction false} FindStep(lines: seq<Line>, needle: seq<Line>, start: nat)
    ensures Find(lines, needle, start) ==
            if start + |needle| > |lines| then []
            else (if MatchesAt(lines, needle, start) then [start] else [])
                 + (if start < |lines| then Find(lines, needle, start + 1) else [])
  {
    hide MatchesAt;
  }

  lemma {:induction false} FindBehind(done: seq<Line>, tail: seq<Line>, needle: seq<Line>, start: nat)
    requires start <= |tail|
    ensures var f, g := Find(tail, needle, start), Find(done + tail, needle, |done| + start);
            |f| == |g| && forall k :: 0 <= k < |f| ==> g[k] == f[k] + |done|
    decreases |tail| - start
  {
    hide MatchesAt, Find;
    MatchesBehind(done, tail, needle, start);
    FindStep(tail, needle, start);
    FindStep(done + tail, needle, |done| + start);
    if start + |needle| <= |tail| && start < |tail| {
      FindBehind(done, tail, needle, start + 1);
    }
  }

  function Moved(s: set<nat>, d: nat): set<nat> {
    set p | p in s :: p + d
  }

  lemma {:induction false} MovedElements(s: set<nat>, d: nat, q: nat)
    ensures q in Moved(s, d) <==> q >= d && q - d in s
  {
    if q >= d && q - d in s { assert (q - d) + d == q; }
  }

  lemma {:induction false} ShiftedElements(f: seq<nat>, g: seq<nat>, d: nat, offset: nat)
    requires |f| == |g| && forall k :: 0 <= k < |f| ==> g[k] == f[k] + d
    ensures Shifted(g, offset) == Moved(Shifted(f, offset), d)
  {
    forall q | q in Shifted(g, offset) ensures q in Moved(Shifted(f, offset), d) {
      var k :| 0 <= k < |g| && g[k] + offset == q;
      assert f[k] + offset in Shifted(f, offset);
      MovedElements(Shifted(f, offset), d, q);
    }
    forall q | q in Moved(Shifted(f, offset), d) ensures q in Shifted(g, offset) {
      MovedElements(Shifted(f, offset), d, q);
      var k :| 0 <= k < |f| && f[k] + offset == q - d;
      assert g[k] + offset == q;
    }
  }

  lemma {:induction false} ShiftedBehind(done: seq<Line>, tail: seq<Line>, needle: seq<Line>, offset: nat)
    ensures Shifted(Find(done + tail, needle, |done|), offset) == Moved(Shifted(Find(tail, needle, 0), offset), |done|)
  {
    hide Find, Shifted, Moved;
    FindBehind(done, tail, needle, 0);
    ShiftedElements(Find(tail, needle, 0), Find(done + tail, needle, |done|), |done|, offset);
  }

  lemma {:induction false} OneSidedBehind(done: seq<Line>, tail: seq<Line>, h: Hunk)
    ensures OneSided(done + tail, h, |done|) == Moved(OneSided(tail, h, 0), |done|)
  {
    hide Find, Shifted;
    HunkParts(h);
    var text, lead, trail := h.Old(), h.Leading(), h.Trailing();
    ShiftedBehind(done, tail, text[..|text| - trail], lead);
    ShiftedBehind(done, tail, text[lead..], 0);
  }

  lemma {:induction false} MovedSize(s: set<nat>, d: nat)
    ensures |Moved(s, d)| == |s|
    ensures |s| == 1 ==> Only(Moved(s, d)) == Only(s) + d
  {
    if s != {} {
      var p :| p in s;
      MovedSize(s - {p}, d);
      forall q: nat ensures q in Moved(s, d) <==> q in Moved(s - {p}, d) + {p + d} {
        MovedElements(s, d, q);
        MovedElements(s - {p}, d, q);
      }
      assert Moved(s, d) == Moved(s - {p}, d) + {p + d};
      MovedElements(s - {p}, d, p + d);
      if |s| == 1 {
        MovedElements(s, d, Only(s) + d);
      }
    }
  }

  /** The search from the cursor sees only the text behind it. */
  lemma {:induction false} PlaceBehind(done: seq<Line>, tail: seq<Line>, h: Hunk)
    ensures var p := Place(tail, h, 0);
            Place(done + tail, h, |done|) == if p.Ok? then Ok(Shift(p.value, |done|)) else p
  {
    hide Find, OneSided, CoreOld, CoreNew, Only, Moved;
    FindBehind(done, tail, h.Old(), 0);
    OneSidedBehind(done, tail, h);
    MovedSize(OneSided(tail, h, 0), |done|);
    MovedSize({}, |done|);
  }

  /** The core stands where a hunk is placed, next to at least one complete side of its context. */
  predicate Anchored(tail: seq<Line>, h: Hunk, start: nat, exact: bool) {
    && MatchesAt(tail, CoreOld(h), start)
    && var before := |Before(h)| <= start && MatchesAt(tail, Before(h), start - |Before(h)|);
       var after := MatchesAt(tail, After(h), start + |CoreOld(h)|);
       if exact then before && after else (Before(h) != [] && before) || (After(h) != [] && after)
  }

  lemma {:induction false} MatchesParts(lines: seq<Line>, a: seq<Line>, b: seq<Line>, p: nat)
    ensures MatchesAt(lines, a + b, p) <==> MatchesAt(lines, a, p) && MatchesAt(lines, b, p + |a|)
  {
    if p + |a + b| <= |lines| {
      assert lines[p..p + |a + b|] == lines[p..p + |a|] + lines[p + |a|..p + |a| + |b|];
      assert (a + b)[..|a|] == a && (a + b)[|a|..] == b;
    }
  }

  lemma {:induction false} OneSidedSound(tail: seq<Line>, h: Hunk, start: nat)
    requires start in OneSided(tail, h, 0)
    ensures Anchored(tail, h, start, false)
  {
    hide Find, CoreOld, Before, After, MatchesAt;
    HunkParts(h);
    var text, lead, trail := h.Old(), h.Leading(), h.Trailing();
    assert text[..|text| - trail] == Before(h) + CoreOld(h) && text[lead..] == CoreOld(h) + After(h);
    if lead > 0 && start in Shifted(Find(tail, Before(h) + CoreOld(h), 0), lead) {
      assert start - lead in Find(tail, Before(h) + CoreOld(h), 0);
      MatchesParts(tail, Before(h), CoreOld(h), start - lead);
    } else {
      assert start in Find(tail, CoreOld(h) + After(h), 0);
      MatchesParts(tail, CoreOld(h), After(h), start);
    }
  }

  lemma {:induction false} PlaceSound(tail: seq<Line>, h: Hunk)
    requires Place(tail, h, 0).Ok?
    ensures var p := Place(tail, h, 0).value;
            && Anchored(tail, h, p.start, p.exact)
            && p.length == |CoreOld(h)| && p.replacement == CoreNew(h)
            && (p.exact ==> forall q: nat :: MatchesAt(tail, h.Old(), q) ==> q + |Before(h)| == p.start)
  {
    hide OneSided, CoreOld, CoreNew, Before, After;
    HunkParts(h);
    var p, exact := Place(tail, h, 0).value, Find(tail, h.Old(), 0);
    if p.exact {
      assert exact[0] in exact;
      MatchesParts(tail, Before(h) + CoreOld(h), After(h), exact[0]);
      MatchesParts(tail, Before(h), CoreOld(h), exact[0]);
    } else {
      OneSidedSound(tail, h, p.start);
    }
  }

  lemma {:induction false} OneSidedComplete(tail: seq<Line>, h: Hunk, start: nat)
    ensures start in OneSided(tail, h, 0) <==> Anchored(tail, h, start, false)
  {
    hide Find, CoreOld, Before, After, MatchesAt;
    HunkParts(h);
    if start in OneSided(tail, h, 0) { OneSidedSound(tail, h, start); }
    if Anchored(tail, h, start, false) {
      var text, lead, trail := h.Old(), h.Leading(), h.Trailing();
      assert text[..|text| - trail] == Before(h) + CoreOld(h) && text[lead..] == CoreOld(h) + After(h);
      MatchesParts(tail, CoreOld(h), After(h), start);
      if lead <= start {
        MatchesParts(tail, Before(h), CoreOld(h), start - lead);
        ShiftedHas(Find(tail, Before(h) + CoreOld(h), 0), start - lead, lead);
      }
      ShiftedHas(Find(tail, CoreOld(h) + After(h), 0), start, 0);
    }
  }

  lemma {:induction false} ShiftedHas(ps: seq<nat>, p: nat, offset: nat)
    ensures p in ps ==> p + offset in Shifted(ps, offset)
  {
    if p in ps {
      var k :| 0 <= k < |ps| && ps[k] == p;
      assert ps[k] + offset == p + offset;
    }
  }

  ghost predicate IsOnlyMatch(tail: seq<Line>, needle: seq<Line>, q: nat) {
    MatchesAt(tail, needle, q) && forall p: nat :: MatchesAt(tail, needle, p) ==> p == q
  }

  ghost predicate IsOnlyAnchor(tail: seq<Line>, h: Hunk, start: nat) {
    Anchored(tail, h, start, false) && forall s: nat :: Anchored(tail, h, s, false) ==> s == start
  }

  ghost predicate NoMatch(tail: seq<Line>, needle: seq<Line>) { forall q: nat :: !MatchesAt(tail, needle, q) }

  /** A hunk applies as it is exactly where its complete old text appears once; with moved context
      exactly where, without a complete match, one position is anchored by a complete side; it is
      reported missing exactly when there is neither. */
  lemma {:induction false} PlacementIsDecided(tail: seq<Line>, h: Hunk)
    requires h.Old() != []
    ensures var r := Place(tail, h, 0);
      && (r.Ok? && r.value.exact <==> exists q: nat :: IsOnlyMatch(tail, h.Old(), q))
      && (r.Ok? && !r.value.exact ==> NoMatch(tail, h.Old()) && IsOnlyAnchor(tail, h, r.value.start))
      && (NoMatch(tail, h.Old()) && (exists s: nat :: IsOnlyAnchor(tail, h, s)) ==> r.Ok? && !r.value.exact)
      && (r == Err(NotPresent) <==> NoMatch(tail, h.Old()) && forall s: nat :: !Anchored(tail, h, s, false))
  {
    hide MatchesAt, Anchored, OneSided, CoreOld, CoreNew, Only;
    var exact, sided := Find(tail, h.Old(), 0), OneSided(tail, h, 0);
    forall s: nat ensures s in sided <==> Anchored(tail, h, s, false) { OneSidedComplete(tail, h, s); }
    OnlyMatchMeans(tail, h.Old());
    OnlyAnchorMeans(tail, h, sided);
    if |sided| == 1 {
      assert Only(sided) in sided;
    }
  }

  lemma {:induction false} OnlyMatchMeans(tail: seq<Line>, needle: seq<Line>)
    ensures |Find(tail, needle, 0)| == 1 <==> exists q: nat :: IsOnlyMatch(tail, needle, q)
    ensures |Find(tail, needle, 0)| == 0 <==> NoMatch(tail, needle)
  {
    hide MatchesAt;
    var found := Find(tail, needle, 0);
    if |found| == 0 {
      forall q: nat ensures !MatchesAt(tail, needle, q) { assert q !in found; }
    } else {
      assert found[0] in found;
      if |found| == 1 {
        assert forall p :: p in found ==> p == found[0];
        assert IsOnlyMatch(tail, needle, found[0]);
      } else {
        assert found[1] in found && found[0] < found[1];
      }
    }
  }

  lemma {:induction false} OnlyAnchorMeans(tail: seq<Line>, h: Hunk, sided: set<nat>)
    requires forall s: nat :: s in sided <==> Anchored(tail, h, s, false)
    ensures |sided| == 1 <==> exists s: nat :: IsOnlyAnchor(tail, h, s)
    ensures |sided| == 1 ==> IsOnlyAnchor(tail, h, Only(sided))
    ensures sided == {} <==> forall s: nat :: !Anchored(tail, h, s, false)
  {
    hide Anchored, Only;
    if |sided| == 1 {
      assert sided == {Only(sided)};
      assert IsOnlyAnchor(tail, h, Only(sided));
    }
    if s: nat :| IsOnlyAnchor(tail, h, s) {
      forall x | x in sided ensures x == s {}
      assert s in sided;
      assert sided == {s};
    }
  }

  // ---- One file ----

  datatype Applied = Applied(lines: seq<Line>, exact: bool)

  /** Hunks applied in order, each in what follows the previous replacement. */
  function ApplyTail(tail: seq<Line>, hs: seq<Hunk>): Result<Applied, PatchError> {
    if hs == [] then Ok(Applied(tail, true))
    else
      var p := Place(tail, hs[0], 0);
      if p.Err? then Err(p.error)
      else
        PlaceSound(tail, hs[0]);
        Prefixed(tail[..p.value.start] + p.value.replacement, p.value.exact,
                 ApplyTail(tail[p.value.start + p.value.length..], hs[1..]))
  }

  function Prefixed(done: seq<Line>, exact: bool, r: Result<Applied, PatchError>): Result<Applied, PatchError> {
    if r.Err? then r else Ok(Applied(done + r.value.lines, exact && r.value.exact))
  }

  lemma {:induction false} PrefixedTwice(a: seq<Line>, b: seq<Line>, e: bool, f: bool, r: Result<Applied, PatchError>)
    ensures Prefixed(a, e, Prefixed(b, f, r)) == Prefixed(a + b, e && f, r)
  {
    if r.Ok? { assert a + (b + r.value.lines) == a + b + r.value.lines; }
  }

  /** The in-place splicing loop with a moving cursor. */
  method ApplyFile(lines: seq<Line>, hunks: seq<Hunk>) returns (r: Result<Applied, PatchError>)
    ensures r == ApplyTail(lines, hunks)
  {
    hide Place, Anchored, CoreOld, CoreNew;
    var result, exact := lines, true;
    var cursor: nat := 0;
    PrefixedNothing(ApplyTail(lines, hunks));
    assert lines[0..] == lines && hunks[0..] == hunks && lines[..0] == [];
    for i := 0 to |hunks|
      invariant cursor <= |result|
      invariant ApplyTail(lines, hunks)
             == Prefixed(result[..cursor], exact, ApplyTail(result[cursor..], hunks[i..]))
    {
      var h := hunks[i];
      var placed := Place(result, h, cursor);
      ghost var done, tail := result[..cursor], result[cursor..];
      assert result == done + tail;
      PlaceBehind(done, tail, h);
      if placed.Err? {
        return Err(placed.error);
      }
      var p := placed.value;
      SpliceStep(done, tail, hunks[i..], exact);
      result := result[..p.start] + p.replacement + result[p.start + p.length..];
      cursor := p.start + |p.replacement|;
      exact := exact && p.exact;
      assert hunks[i..][1..] == hunks[i + 1..];
    }
    assert hunks[|hunks|..] == [] && result[..cursor] + result[cursor..] == result;
    return Ok(Applied(result, exact));
  }

  lemma {:induction false} PrefixedNothing(r: Result<Applied, PatchError>)
    ensures Prefixed([], true, r) == r
  {
    if r.Ok? { assert [] + r.value.lines == r.value.lines; }
  }

  lemma {:induction false} ApplyCons(tail: seq<Line>, hs: seq<Hunk>)
    requires hs != [] && Place(tail, hs[0], 0).Ok?
    ensures var p := Place(tail, hs[0], 0).value;
            p.start + p.length <= |tail| &&
            ApplyTail(tail, hs) == Prefixed(tail[..p.start] + p.replacement, p.exact,
                                            ApplyTail(tail[p.start + p.length..], hs[1..]))
  {
    hide Place, Prefixed;
    PlaceSound(tail, hs[0]);
  }

  lemma {:induction false} SpliceStep(done: seq<Line>, tail: seq<Line>, hs: seq<Hunk>, exact: bool)
    requires hs != [] && Place(tail, hs[0], 0).Ok?
    ensures var p := Place(tail, hs[0], 0).value;
            var start := |done| + p.start;
            && start + p.length <= |done + tail|
            && var result := (done + tail)[..start] + p.replacement + (done + tail)[start + p.length..];
            var cursor := start + |p.replacement|;
            Prefixed(done, exact, ApplyTail(tail, hs))
            == Prefixed(result[..cursor], exact && p.exact, ApplyTail(result[cursor..], hs[1..]))
  {
    hide Place, ApplyTail, Prefixed;
    ApplyCons(tail, hs);
    var p := Place(tail, hs[0], 0).value;
    var start := |done| + p.start;
    var result := (done + tail)[..start] + p.replacement + (done + tail)[start + p.length..];
    var cursor := start + |p.replacement|;
    assert result[..cursor] == done + (tail[..p.start] + p.replacement);
    assert result[cursor..] == tail[p.start + p.length..];
    PrefixedTwice(done, tail[..p.start] + p.replacement, exact, p.exact, ApplyTail(tail[p.start + p.length..], hs[1..]));
  }

  // ---- Placement is a simultaneous edit ----

  datatype Edit = Edit(start: nat, removed: seq<Line>, inserted: seq<Line>, exact: bool)

  /** Where each hunk landed, in coordinates of the original file. */
  function EditsOf(tail: seq<Line>, hs: seq<Hunk>, offset: nat): seq<Edit> {
    if hs == [] || Place(tail, hs[0], 0).Err? then []
    else
      var p := Place(tail, hs[0], 0).value;
      PlaceSound(tail, hs[0]);
      [Edit(offset + p.start, CoreOld(hs[0]), CoreNew(hs[0]), p.exact)]
      + EditsOf(tail[p.start + p.length..], hs[1..], offset + p.start + p.length)
  }

  lemma {:induction false} ApplyNone(tail: seq<Line>, offset: nat)
    ensures ApplyTail(tail, []) == Ok(Applied(tail, true)) && EditsOf(tail, [], offset) == []
  {
  }

  /** One hunk of a successful application. */
  lemma {:induction false} ApplyStep(tail: seq<Line>, hs: seq<Hunk>, offset: nat)
    requires hs != [] && ApplyTail(tail, hs).Ok?
    ensures Place(tail, hs[0], 0).Ok?
    ensures var p := Place(tail, hs[0], 0).value; var n := p.start + |CoreOld(hs[0])|;
            && Anchored(tail, hs[0], p.start, p.exact) && n <= |tail| && (p.exact <==> StandsOnce(tail, hs[0]))
            && ApplyTail(tail[n..], hs[1..]).Ok?
            && ApplyTail(tail, hs) == Prefixed(tail[..p.start] + CoreNew(hs[0]), p.exact, ApplyTail(tail[n..], hs[1..]))
            && EditsOf(tail, hs, offset)
            == [Edit(offset + p.start, CoreOld(hs[0]), CoreNew(hs[0]), p.exact)] + EditsOf(tail[n..], hs[1..], offset + n)
  {
    hide Place, Anchored, CoreOld, CoreNew, After, Before, ApplyTail, EditsOf, MatchesAt, Prefixed, IsOnlyMatch;
    PlacedFirst(tail, hs);
    PlaceSound(tail, hs[0]);
    PlacedHasText(tail, hs[0]);
    PlacementIsDecided(tail, hs[0]);
    ApplyCons(tail, hs);
    EditsCons(tail, hs, offset);
  }

  lemma {:induction false} PlacedHasText(tail: seq<Line>, h: Hunk)
    requires Place(tail, h, 0).Ok?
    ensures h.Old() != []
  {
  }

  lemma {:induction false} PlacedFirst(tail: seq<Line>, hs: seq<Hunk>)
    requires hs != [] && ApplyTail(tail, hs).Ok?
    ensures Place(tail, hs[0], 0).Ok?
    ensures var p := Place(tail, hs[0], 0).value;
            p.start + p.length <= |tail| && ApplyTail(tail[p.start + p.length..], hs[1..]).Ok?
  {
    hide Place;
    if Place(tail, hs[0], 0).Ok? { ApplyCons(tail, hs); }
  }

  lemma {:induction false} EditsCons(tail: seq<Line>, hs: seq<Hunk>, offset: nat)
    requires hs != [] && Place(tail, hs[0], 0).Ok?
    ensures var p := Place(tail, hs[0], 0).value; var n := p.start + p.length;
            && n <= |tail|
            && EditsOf(tail, hs, offset)
            == [Edit(offset + p.start, CoreOld(hs[0]), CoreNew(hs[0]), p.exact)] + EditsOf(tail[n..], hs[1..], offset + n)
  {
    hide Place, CoreOld, CoreNew, After, Before;
    PlaceSound(tail, hs[0]);
  }

  /** Ordered disjoint ranges of the original, each holding exactly the lines that leave. */
  predicate OrderedRanges(original: seq<Line>, edits: seq<Edit>, from: nat) {
    from <= |original| &&
    (edits != [] ==>
       && from <= edits[0].start
       && MatchesAt(original, edits[0].removed, edits[0].start)
       && OrderedRanges(original, edits[1..], edits[0].start + |edits[0].removed|))
  }

  /** The original from `from` on with exactly those ranges replaced. */
  function Splice(original: seq<Line>, edits: seq<Edit>, from: nat): seq<Line>
    requires OrderedRanges(original, edits, from)
  {
    if edits == [] then original[from..]
    else original[from..edits[0].start] + edits[0].inserted
         + Splice(original, edits[1..], edits[0].start + |edits[0].removed|)
  }

  /** The complete old text of the hunk stands in one place. */
  ghost predicate StandsOnce(tail: seq<Line>, h: Hunk) { exists q: nat :: IsOnlyMatch(tail, h.Old(), q) }

  /** Each edit is its hunk's core, anchored in original text behind the previous edit, and exact if the
      hunk's complete old text stands there once. */
  ghost predicate EditsMatchHunks(original: seq<Line>, edits: seq<Edit>, hs: seq<Hunk>, from: nat) {
    from <= |original| && |edits| == |hs| &&
    (edits != [] ==>
       && from <= edits[0].start
       && edits[0].start + |edits[0].removed| <= |original|
       && edits[0].removed == CoreOld(hs[0]) && edits[0].inserted == CoreNew(hs[0])
       && Anchored(original[from..], hs[0], edits[0].start - from, edits[0].exact)
       && (edits[0].exact <==> StandsOnce(original[from..], hs[0]))
       && EditsMatchHunks(original, edits[1..], hs[1..], edits[0].start + |edits[0].removed|))
  }

  lemma {:induction false} EditsFrom(original: seq<Line>, hs: seq<Hunk>, from: nat)
    requires from <= |original| && ApplyTail(original[from..], hs).Ok?
    ensures var edits, applied := EditsOf(original[from..], hs, from), ApplyTail(original[from..], hs).value;
            && EditsMatchHunks(original, edits, hs, from)
            && OrderedRanges(original, edits, from)
            && applied.lines == Splice(original, edits, from)
            && (applied.exact <==> forall k :: 0 <= k < |edits| ==> edits[k].exact)
    decreases |hs|
  {
    hide Place, Anchored, CoreOld, CoreNew, ApplyTail, EditsOf, StandsOnce;
    var tail := original[from..];
    if hs == [] {
      ApplyNone(tail, from);
    } else {
      ApplyStep(tail, hs, from);
      var p := Place(tail, hs[0], 0).value;
      var n := p.start + |CoreOld(hs[0])|;
      var next := from + n;
      CoreInTail(original, from, hs[0], p.start, p.exact);
      assert tail[n..] == original[next..];
      EditsFrom(original, hs[1..], next);
      assert tail[..p.start] == original[from..from + p.start];
      var rest := EditsOf(original[next..], hs[1..], next);
      var edits := EditsOf(tail, hs, from);
      assert edits[0] == Edit(from + p.start, CoreOld(hs[0]), CoreNew(hs[0]), p.exact);
      assert edits[1..] == rest;
      assert forall k :: 1 <= k < |edits| ==> edits[k] == rest[k - 1];
    }
  }

  lemma {:induction false} CoreInTail(original: seq<Line>, from: nat, h: Hunk, start: nat, exact: bool)
    requires from <= |original| && Anchored(original[from..], h, start, exact)
    ensures MatchesAt(original, CoreOld(h), from + start)
  {
    assert original == original[..from] + original[from..];
    MatchesBehind(original[..from], original[from..], CoreOld(h), start);
  }

  /** Whenever a file's hunks apply, the result is one simultaneous edit of the original. */
  lemma {:induction false} PlacementIsSimultaneousEdit(original: seq<Line>, hs: seq<Hunk>)
    requires ApplyTail(original, hs).Ok?
    ensures var edits, applied := EditsOf(original, hs, 0), ApplyTail(original, hs).value;
            && EditsMatchHunks(original, edits, hs, 0)
            && OrderedRanges(original, edits, 0)
            && applied.lines == Splice(original, edits, 0)
            && (applied.exact <==> forall k :: 0 <= k < |edits| ==> edits[k].exact)
  {
    assert original[0..] == original;
    EditsFrom(original, hs, 0);
  }

  // ---- Patch round trip ----

  function ReversedAll(hs: seq<Hunk>): seq<Hunk> {
    seq(|hs|, k requires 0 <= k < |hs| => Reversed(hs[k]))
  }

  /** No hunk's core starts inside the trailing context of the hunk before it. */
  predicate CoresClearContext(edits: seq<Edit>, hs: seq<Hunk>) {
    |edits| == |hs| &&
    forall k :: 0 <= k && k + 1 < |hs| ==>
      edits[k].start + |edits[k].removed| + |After(hs[k])| <= edits[k + 1].start
  }

  /** The text in front of the first edit is copied. */
  lemma {:induction false} UntouchedPrefix(tail: seq<Line>, hs: seq<Hunk>, n: nat)
    requires ApplyTail(tail, hs).Ok? && n <= |tail|
    requires var edits := EditsOf(tail, hs, 0); edits != [] ==> n <= edits[0].start
    ensures n <= |ApplyTail(tail, hs).value.lines| && ApplyTail(tail, hs).value.lines[..n] == tail[..n]
  {
    if hs != [] {
      PlaceSound(tail, hs[0]);
      var p := Place(tail, hs[0], 0).value;
      assert tail[..p.start][..n] == tail[..n];
    }
  }

  /** If every hunk applies exactly, the cores stay clear of earlier trailing context, and the
      reversed hunks apply exactly to the result, then they restore the original. */
  lemma {:induction false} RoundTrip(tail: seq<Line>, hs: seq<Hunk>)
    requires ApplyTail(tail, hs).Ok? && ApplyTail(tail, hs).value.exact
    requires CoresClearContext(EditsOf(tail, hs, 0), hs)
    requires var back := ApplyTail(ApplyTail(tail, hs).value.lines, ReversedAll(hs)); back.Ok? && back.value.exact
    ensures ApplyTail(ApplyTail(tail, hs).value.lines, ReversedAll(hs)).value.lines == tail
    decreases |hs|
  {
    hide Place, Anchored, CoreOld, CoreNew, After, Before, Reversed, EditsOf, ApplyTail, CoresClearContext;
    if hs == [] {
      ApplyNone(tail, 0);
      assert ReversedAll(hs) == [];
    } else {
      var h, back := hs[0], ReversedAll(hs);
      ApplyStep(tail, hs, 0);
      PlaceSound(tail, h);
      var p := Place(tail, h, 0).value;
      var rest := tail[p.start + p.length..];
      var restDone := ApplyTail(rest, hs[1..]).value;
      var done := ApplyTail(tail, hs).value.lines;
      ReversedAllTail(hs);
      ApplyStep(done, back, 0);
      PlaceSound(done, Reversed(h));
      AnchorSplits(tail, h, p.start);
      RestKeepsContext(tail, hs);
      ReverseLandsAt(tail[..p.start], h, restDone.lines, done);
      var q := Place(done, Reversed(h), 0).value;
      assert done[q.start + q.length..] == restDone.lines && done[..q.start] == tail[..p.start];
      EditsTail(tail, hs);
      RoundTrip(rest, hs[1..]);
    }
  }

  lemma {:induction false} ReversedAllTail(hs: seq<Hunk>)
    requires hs != []
    ensures ReversedAll(hs)[0] == Reversed(hs[0]) && ReversedAll(hs)[1..] == ReversedAll(hs[1..])
  {
  }

  lemma {:induction false} AnchorSplits(tail: seq<Line>, h: Hunk, start: nat)
    requires Anchored(tail, h, start, true)
    ensures start + |CoreOld(h)| <= |tail|
    ensures tail == tail[..start] + CoreOld(h) + tail[start + |CoreOld(h)|..]
    ensures |Before(h)| <= start && tail[..start][start - |Before(h)|..] == Before(h)
    ensures |After(h)| <= |tail| - start - |CoreOld(h)|
    ensures tail[start + |CoreOld(h)|..][..|After(h)|] == After(h)
  {
  }

  /** With clear cores the text behind a hunk still starts with its trailing context afterwards. */
  lemma {:induction false} RestKeepsContext(tail: seq<Line>, hs: seq<Hunk>)
    requires hs != [] && ApplyTail(tail, hs).Ok? && ApplyTail(tail, hs).value.exact
    requires CoresClearContext(EditsOf(tail, hs, 0), hs)
    ensures var p := Place(tail, hs[0], 0).value;
            p.start + p.length <= |tail| && ApplyTail(tail[p.start + p.length..], hs[1..]).Ok? &&
            var lines := ApplyTail(tail[p.start + p.length..], hs[1..]).value.lines;
            |After(hs[0])| <= |lines| && lines[..|After(hs[0])|] == After(hs[0])
  {
    hide Place, Anchored, CoreOld, CoreNew, After, Before, EditsOf, ApplyTail;
    ApplyStep(tail, hs, 0);
    PlaceSound(tail, hs[0]);
    var p := Place(tail, hs[0], 0).value;
    var rest := tail[p.start + p.length..];
    AnchorSplits(tail, hs[0], p.start);
    EditsTail(tail, hs);
    UntouchedPrefix(rest, hs[1..], |After(hs[0])|);
  }

  /** Edits of the remaining hunks, seen from the text behind the first one. */
  lemma {:induction false} EditsTail(tail: seq<Line>, hs: seq<Hunk>)
    requires hs != [] && ApplyTail(tail, hs).Ok?
    requires CoresClearContext(EditsOf(tail, hs, 0), hs)
    ensures var p := Place(tail, hs[0], 0).value;
            p.start + p.length <= |tail| &&
            var rest := tail[p.start + p.length..];
            ApplyTail(rest, hs[1..]).Ok? &&
            var edits := EditsOf(rest, hs[1..], 0);
            && CoresClearContext(edits, hs[1..])
            && (edits != [] ==> |After(hs[0])| <= edits[0].start)
  {
    hide Place, Anchored, CoreOld, CoreNew, After, EditsOf, ApplyTail, CoresClearContext, OffsetBy;
    ApplyStep(tail, hs, 0);
    PlaceSound(tail, hs[0]);
    var p := Place(tail, hs[0], 0).value;
    var n := p.start + p.length;
    var rest := tail[n..];
    EditsOffset(rest, hs[1..], 0, n);
    var all := EditsOf(tail, hs, 0);
    assert all[1..] == EditsOf(rest, hs[1..], n);
    ClearTail(all, EditsOf(rest, hs[1..], 0), hs, n);
  }

  lemma {:induction false} ClearTail(all: seq<Edit>, edits: seq<Edit>, hs: seq<Hunk>, n: nat)
    requires hs != [] && CoresClearContext(all, hs)
    requires OffsetBy(edits, all[1..], n) && all[0].start + |all[0].removed| == n
    ensures |edits| == |hs[1..]| && CoresClearContext(edits, hs[1..])
    ensures edits != [] ==> |After(hs[0])| <= edits[0].start
  {
    hide After;
    assert forall k :: 0 <= k < |edits| ==> all[k + 1] == all[1..][k] && all[k + 1].start == edits[k].start + n;
    forall k | 0 <= k && k + 1 < |hs[1..]|
      ensures edits[k].start + |edits[k].removed| + |After(hs[1..][k])| <= edits[k + 1].start
    {
      assert hs[1..][k] == hs[k + 1] && k + 1 + 1 < |hs|;
      assert all[k + 1 + 1].start == edits[k + 1].start + n;
    }
    if edits != [] { assert 0 + 1 < |hs|; }
  }

  predicate OffsetBy(a: seq<Edit>, b: seq<Edit>, n: nat) {
    |a| == |b| && forall k :: 0 <= k < |a| ==> b[k] == a[k].(start := a[k].start + n)
  }

  lemma {:induction false} EditsOffset(tail: seq<Line>, hs: seq<Hunk>, m: nat, n: nat)
    requires ApplyTail(tail, hs).Ok?
    ensures OffsetBy(EditsOf(tail, hs, m), EditsOf(tail, hs, m + n), n)
    decreases |hs|
  {
    hide Place, Anchored, CoreOld, CoreNew, ApplyTail, EditsOf;
    if hs == [] {
      ApplyNone(tail, m);
      ApplyNone(tail, m + n);
    } else {
      ApplyStep(tail, hs, m);
      ApplyStep(tail, hs, m + n);
      var w := Place(tail, hs[0], 0).value.start + |CoreOld(hs[0])|;
      EditsOffset(tail[w..], hs[1..], m + w, n);
      assert m + n + w == m + w + n;
    }
  }

  /** The reversed hunk finds its whole text where the hunk was applied, hence only there. */
  lemma {:induction false} ReverseLandsAt(front: seq<Line>, h: Hunk, behind: seq<Line>, done: seq<Line>)
    requires done == front + CoreNew(h) + behind
    requires |Before(h)| <= |front| && front[|front| - |Before(h)|..] == Before(h)
    requires |After(h)| <= |behind| && behind[..|After(h)|] == After(h)
    requires Place(done, Reversed(h), 0).Ok? && Place(done, Reversed(h), 0).value.exact
    ensures var q := Place(done, Reversed(h), 0).value;
            q.start == |front| && q.length == |CoreNew(h)| && q.replacement == CoreOld(h)
  {
    hide Place, Anchored, CoreOld, CoreNew, After, Before;
    var r := Reversed(h);
    PlaceSound(done, r);
    ReversedParts(h);
    HunkParts(r);
    var p := |front| - |Before(h)|;
    var text := Before(h) + CoreNew(h) + After(h);
    assert r.Old() == text;
    assert done[p..p + |text|] == text by {
      assert done == front[..p] + text + behind[|After(h)|..];
    }
    assert MatchesAt(done, r.Old(), p);
  }
}
