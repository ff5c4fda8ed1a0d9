/** Reading one hunk of a unified diff. */
module PatchText {
  import opened Outcome
  import opened Text
  import opened SourcePatch

  // ---- The header ----

  function Behind(prefix: string, s: string): Option<string> {
    if prefix <= s then Some(s[|prefix|..]) else None
  }

  /** A line number with an optional count, which defaults to 1, and what follows. */
  function Range(s: string): Option<(nat, string)> {
    var n := DigitCount(s);
    if n == 0 then None
    else
      var rest := s[n..];
      if rest != "" && rest[0] == ',' && DigitCount(rest[1..]) > 0 then
        var m := DigitCount(rest[1..]);
        Some((Value(rest[1..][..m]), rest[1..][m..]))
      else Some((1, rest))
  }

  /** The numbers of old and new lines that a hunk header announces. */
  function Header(line: Line): Option<(nat, nat)> {
    var first := Behind("@@ -", line);
    if first.None? || Range(first.value).None? then None
    else
      var (oldCount, rest) := Range(first.value).value;
      var second := Behind(" +", rest);
      if second.None? || Range(second.value).None? then None
      else
        var (newCount, end) := Range(second.value).value;
        if Behind(" @@", end).None? then None else Some((oldCount, newCount))
  }

  /** A line number, alone or with a count. */
  function Counted(start: nat, count: Option<nat>): string {
    Decimal(start) + if count.Some? then "," + Decimal(count.value) else ""
  }

  /** A count that is not written is 1. */
  function Announces(count: Option<nat>): nat { if count.Some? then count.value else 1 }

  lemma {:induction false} CountedReads(start: nat, count: Option<nat>, rest: string)
    requires rest != "" && !IsDigit(rest[0]) && rest[0] != ','
    ensures Range(Counted(start, count) + rest) == Some((Announces(count), rest))
  {
    hide Range, DigitCount, Value;
    var a := Decimal(start);
    if count.Some? {
      var b := Decimal(count.value);
      assert Counted(start, count) + rest == a + ("," + (b + rest));
      RunOf(a, "," + (b + rest));
      RunOf(b, rest);
      assert ("," + (b + rest))[1..] == b + rest;
      RangeMeans(a + ("," + (b + rest)), a, b, rest);
      DecimalValue(count.value);
    } else {
      assert Counted(start, count) + rest == a + rest;
      RunOf(a, rest);
      NumberAlone(a + rest, a, rest);
    }
  }

  lemma {:induction false} NumberAlone(s: string, a: string, rest: string)
    requires a != "" && DigitCount(s) == |a| && s[|a|..] == rest && rest != "" && rest[0] != ','
    ensures Range(s) == Some((1, rest))
  {
    hide DigitCount, Value;
  }

  lemma {:induction false} RunOf(digits: string, rest: string)
    requires AllDigits(digits) && (rest == "" || !IsDigit(rest[0]))
    ensures DigitCount(digits + rest) == |digits|
    ensures (digits + rest)[..|digits|] == digits && (digits + rest)[|digits|..] == rest
  {
    hide DigitCount;
    DigitCountIs(digits + rest, |digits|);
  }

  lemma {:induction false} RangeMeans(s: string, a: string, b: string, rest: string)
    requires a != "" && b != "" && DigitCount(s) == |a| && |a| < |s| && s[|a|] == ','
    requires s[|a|..][1..] == b + rest && DigitCount(b + rest) == |b| && (b + rest)[..|b|] == b && (b + rest)[|b|..] == rest
    ensures Range(s) == Some((Value(b), rest))
  {
    hide DigitCount, Value;
  }

  /** A header announces its counts, 1 where none is written, whatever follows it on the line. */
  lemma {:induction false} HeaderAnnounces(oldStart: nat, oldCount: Option<nat>, newStart: nat, newCount: Option<nat>,
                                           trailing: string)
    ensures Header("@@ -" + Counted(oldStart, oldCount) + " +" + Counted(newStart, newCount) + " @@" + trailing)
         == Some((Announces(oldCount), Announces(newCount)))
  {
    hide Range, Counted;
    var end := " @@" + trailing;
    var rest := " +" + (Counted(newStart, newCount) + end);
    var line := "@@ -" + Counted(oldStart, oldCount) + " +" + Counted(newStart, newCount) + " @@" + trailing;
    assert line == "@@ -" + (Counted(oldStart, oldCount) + rest);
    assert line[4..] == Counted(oldStart, oldCount) + rest && rest[2..] == Counted(newStart, newCount) + end;
    CountedReads(oldStart, oldCount, rest);
    CountedReads(newStart, newCount, end);
  }

  // ---- The body ----

  datatype HunkError = Truncated | IncompleteLine | CountsDiffer | NoFinalNewline | ChangesNothing

  datatype ParsedHunk = ParsedHunk(hunk: Hunk, next: nat)

  predicate EndsLine(text: string) { text != "" && text[|text| - 1] == '\n' }

  /** The hunk line one patch line spells; an empty line is blank context that lost its space. */
  function Spelled(line: Line): Option<HunkLine> {
    if line == "\n" then Some(HunkLine(Context, "\n"))
    else if line == "" || !EndsLine(line[1..]) then None
    else if line[0] == ' ' then Some(HunkLine(Context, line[1..]))
    else if line[0] == '-' then Some(HunkLine(Removed, line[1..]))
    else if line[0] == '+' then Some(HunkLine(Added, line[1..]))
    else None
  }

  /** The lines from `start` on spell `body`. */
  predicate Spells(lines: seq<Line>, start: nat, body: HunkLines) {
    start + |body| <= |lines| && forall k :: 0 <= k < |body| ==> Spelled(lines[start + k]) == Some(body[k])
  }

  /** `body` is what the header announces. */
  predicate Announced(body: HunkLines, oldCount: nat, newCount: nat) {
    |OldLines(body)| == oldCount && |NewLines(body)| == newCount
  }

  predicate Changes(body: HunkLines) { exists k :: 0 <= k < |body| && body[k].tag != Context }

  predicate Backslash(lines: seq<Line>, next: nat) {
    next < |lines| && "\\" <= lines[next]
  }

  /** A hunk at a header line: accepted exactly if a complete body follows that the header announces and
      that changes something; each is read in only one way. */
  method ParseHunk(lines: seq<Line>, index: nat) returns (r: Result<ParsedHunk, HunkError>)
    requires index < |lines| && Header(lines[index]).Some?
    ensures var (oldCount, newCount) := Header(lines[index]).value;
      r.Ok? ==>
        var body := r.value.hunk.lines;
        && Spells(lines, index + 1, body) && Announced(body, oldCount, newCount) && Changes(body)
        && r.value.next == index + 1 + |body| && !Backslash(lines, r.value.next)
    ensures var (oldCount, newCount) := Header(lines[index]).value;
      forall body :: Spells(lines, index + 1, body) && Announced(body, oldCount, newCount) ==>
        r == if Backslash(lines, index + 1 + |body|) then Err(NoFinalNewline)
             else if Changes(body) then Ok(ParsedHunk(Hunk(body), index + 1 + |body|)) else Err(ChangesNothing)
  {
    hide Header, Spells, Announced, Changes, Backslash;
    var (oldCount, newCount) := Header(lines[index]).value;
    r := ParseBody(lines, index + 1, oldCount, newCount);
  }

  /** The loop over the body. */
  method ParseBody(lines: seq<Line>, start: nat, oldCount: nat, newCount: nat)
    returns (r: Result<ParsedHunk, HunkError>)
    ensures r.Ok? ==>
      var body := r.value.hunk.lines;
      && Spells(lines, start, body) && Announced(body, oldCount, newCount) && Changes(body)
      && r.value.next == start + |body| && !Backslash(lines, r.value.next)
    ensures forall body ::
      Spells(lines, start, body) && Announced(body, oldCount, newCount) ==>
        r == if Backslash(lines, start + |body|) then Err(NoFinalNewline)
             else if Changes(body) then Ok(ParsedHunk(Hunk(body), start + |body|)) else Err(ChangesNothing)
  {
    hide OldLines, NewLines, Spelled, Spells;
    var body: HunkLines, index, oldSeen, newSeen := [], start, 0, 0;
    NothingSpelled(lines, start);
    while oldSeen < oldCount || newSeen < newCount
      invariant oldSeen == |OldLines(body)| && newSeen == |NewLines(body)| && index == start + |body|
      invariant body != [] ==> Spells(lines, start, body)
      invariant forall full :: Spells(lines, start, full) && Announced(full, oldCount, newCount) ==> body <= full
      decreases |lines| - index
    {
      if index >= |lines| {
        NoLonger(lines, start, body, oldCount, newCount);
        return Err(Truncated);
      }
      var line := Spelled(lines[index]);
      NextSpelled(lines, start, body, oldCount, newCount);
      if line.None? {
        return Err(IncompleteLine);
      }
      OneMore(lines, start, body, line.value);
      oldSeen := oldSeen + (if line.value.tag == Added then 0 else 1);
      newSeen := newSeen + (if line.value.tag == Removed then 0 else 1);
      body := body + [line.value];
      index := index + 1;
    }
    LongestPrefix(lines, start, body, oldCount, newCount);
    if (oldSeen, newSeen) != (oldCount, newCount) {
      return Err(CountsDiffer);
    }
    if index < |lines| && lines[index] != "" && lines[index][0] == '\\' {
      return Err(NoFinalNewline);
    }
    if LeadingContext(body) == |body| {
      return Err(ChangesNothing);
    }
    return Ok(ParsedHunk(Hunk(body), index));
  }

  lemma {:induction false} NothingSpelled(lines: seq<Line>, start: nat)
    ensures OldLines([]) == [] && NewLines([]) == []
    ensures start <= |lines| ==> Spells(lines, start, [])
  {
  }

  lemma {:induction false} PrefixCounts(body: HunkLines, full: HunkLines)
    requires body <= full
    ensures |OldLines(body)| <= |OldLines(full)| && |NewLines(body)| <= |NewLines(full)|
    ensures |body| < |full| ==> |OldLines(body)| < |OldLines(full)| || |NewLines(body)| < |NewLines(full)|
  {
    var rest := full[|body|..];
    assert full == body + rest;
    TextsAppend(body, rest);
    if |body| < |full| {
      assert rest == [rest[0]] + rest[1..];
      TextsCons(rest[0], rest[1..]);
    }
  }

  /** What stops in front of a missing line is no prefix of anything announced. */
  lemma {:induction false} NoLonger(lines: seq<Line>, start: nat, body: HunkLines, oldCount: nat, newCount: nat)
    requires |OldLines(body)| < oldCount || |NewLines(body)| < newCount
    requires start + |body| >= |lines|
    requires forall full :: Spells(lines, start, full) && Announced(full, oldCount, newCount) ==> body <= full
    ensures forall full :: Spells(lines, start, full) ==> !Announced(full, oldCount, newCount)
  {
    hide OldLines, NewLines;
    forall full | Spells(lines, start, full) ensures !Announced(full, oldCount, newCount) {
      assert body <= full ==> body == full;
    }
  }

  lemma {:induction false} NextSpelled(lines: seq<Line>, start: nat, body: HunkLines, oldCount: nat, newCount: nat)
    requires |OldLines(body)| < oldCount || |NewLines(body)| < newCount
    requires start + |body| < |lines|
    requires forall full :: Spells(lines, start, full) && Announced(full, oldCount, newCount) ==> body <= full
    ensures forall full :: Spells(lines, start, full) && Announced(full, oldCount, newCount) ==>
      |body| < |full| && Spelled(lines[start + |body|]) == Some(full[|body|]) && body + [full[|body|]] <= full
  {
    hide OldLines, NewLines, Spelled;
    forall full | Spells(lines, start, full) && Announced(full, oldCount, newCount)
      ensures |body| < |full| && Spelled(lines[start + |body|]) == Some(full[|body|]) && body + [full[|body|]] <= full
    {
      assert body != full;
    }
  }

  lemma {:induction false} OneMore(lines: seq<Line>, start: nat, body: HunkLines, next: HunkLine)
    requires start + |body| < |lines| && (body != [] ==> Spells(lines, start, body))
    requires Spelled(lines[start + |body|]) == Some(next)
    ensures Spells(lines, start, body + [next])
    ensures |OldLines(body + [next])| == |OldLines(body)| + (if next.tag == Added then 0 else 1)
    ensures |NewLines(body + [next])| == |NewLines(body)| + (if next.tag == Removed then 0 else 1)
  {
    hide OldLines, NewLines, Spelled;
    TextsAppend(body, [next]);
    NothingSpelled(lines, 0);
    TextsCons(next, []);
    assert [next] + [] == [next];
  }

  lemma {:induction false} LongestPrefix(lines: seq<Line>, start: nat, body: HunkLines, oldCount: nat, newCount: nat)
    requires |OldLines(body)| >= oldCount && |NewLines(body)| >= newCount
    requires forall full :: Spells(lines, start, full) && Announced(full, oldCount, newCount) ==> body <= full
    ensures forall full :: Spells(lines, start, full) && Announced(full, oldCount, newCount) ==> body == full
  {
    hide OldLines, NewLines;
    forall full | Spells(lines, start, full) && Announced(full, oldCount, newCount) ensures body == full {
      PrefixCounts(body, full);
    }
  }

  // ---- Rendering ----

  function TagChar(tag: Tag): char {
    match tag
    case Context => ' '
    case Removed => '-'
    case Added => '+'
  }

  function Render(body: HunkLines): (lines: seq<Line>)
    ensures |lines| == |body|
  {
    if body == [] then [] else [[TagChar(body[0].tag)] + body[0].text] + Render(body[1..])
  }

  /** A rendered hunk inside any surrounding text spells that hunk. */
  lemma {:induction false} RenderedSpells(front: seq<Line>, body: HunkLines, rest: seq<Line>)
    requires forall k :: 0 <= k < |body| ==> EndsLine(body[k].text)
    ensures Spells(front + Render(body) + rest, |front|, body)
  {
    forall k | 0 <= k < |body| ensures Spelled((front + Render(body) + rest)[|front| + k]) == Some(body[k]) {
      RenderedLine(body, k);
      var line := [TagChar(body[k].tag)] + body[k].text;
      assert line[1..] == body[k].text && |line| > 1;
    }
  }

  lemma {:induction false} RenderedLine(body: HunkLines, k: nat)
    requires k < |body|
    ensures Render(body)[k] == [TagChar(body[k].tag)] + body[k].text
  {
    if k > 0 { RenderedLine(body[1..], k - 1); }
  }

  /** What spells a hunk is its rendering, except that blank context may lack its space. */
  lemma {:induction false} SpellingIsRendering(lines: seq<Line>, start: nat, body: HunkLines, k: nat)
    requires Spells(lines, start, body) && k < |body|
    ensures lines[start + k] == Render(body)[k] || (lines[start + k] == "\n" && body[k] == HunkLine(Context, "\n"))
  {
    RenderedLine(body, k);
    var line := lines[start + k];
    assert Spelled(line) == Some(body[k]);
    if line != "\n" { assert line == [line[0]] + line[1..]; }
  }
}
