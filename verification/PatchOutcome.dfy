/** Trying a whole patch forwards and backwards, and what is written to the source tree. */
module PatchOutcome {
  import opened Outcome
  import opened SourcePatch

  datatype FilePatch = FilePatch(path: string, hunks: seq<Hunk>)

  type Patch = seq<FilePatch>

  type Files = map<string, seq<Line>>

  function ReversedFile(p: FilePatch): FilePatch { FilePatch(p.path, ReversedAll(p.hunks)) }

  function ReversedPatch(patch: Patch): (r: Patch)
    ensures |r| == |patch| && forall k :: 0 <= k < |patch| ==> r[k] == ReversedFile(patch[k])
  {
    if patch == [] then [] else [ReversedFile(patch[0])] + ReversedPatch(patch[1..])
  }

  lemma {:induction false} ReversedPatchTwice(patch: Patch)
    ensures ReversedPatch(ReversedPatch(patch)) == patch
  {
    var back := ReversedPatch(ReversedPatch(patch));
    forall k | 0 <= k < |patch| ensures back[k] == patch[k] {
      ReversedAllTwice(patch[k].hunks);
    }
  }

  lemma {:induction false} ReversedAllTwice(hs: seq<Hunk>)
    ensures ReversedAll(ReversedAll(hs)) == hs
  {
    forall k | 0 <= k < |hs| ensures ReversedAll(ReversedAll(hs))[k] == hs[k] {
      ReversalIsInvolution(hs[k]);
    }
  }

  /** A parsed patch names each file once. */
  predicate DistinctPaths(patch: Patch) {
    forall i, j :: 0 <= i < j < |patch| ==> patch[i].path != patch[j].path
  }

  predicate Readable(files: Files, patch: Patch) {
    forall k :: 0 <= k < |patch| ==> patch[k].path in files
  }

  function Tried(files: Files, p: FilePatch): Result<Applied, PatchError> {
    if p.path in files then ApplyTail(files[p.path], p.hunks) else Err(NotAFile)
  }

  predicate Applies(files: Files, patch: Patch) {
    forall k :: 0 <= k < |patch| ==> Tried(files, patch[k]).Ok?
  }

  predicate AppliesExactly(files: Files, patch: Patch) {
    forall k :: 0 <= k < |patch| ==> Tried(files, patch[k]).Ok? && Tried(files, patch[k]).value.exact
  }

  predicate FailsFirst(files: Files, patch: Patch, error: PatchError) {
    exists k :: 0 <= k < |patch| && Tried(files, patch[k]) == Err(error) && Applies(files, patch[..k])
  }

  /** The new text of every patched file. */
  predicate IsPatched(files: Files, patch: Patch, patched: Files) {
    && patched.Keys == (set k | 0 <= k < |patch| :: patch[k].path)
    && forall k :: 0 <= k < |patch| ==>
         Tried(files, patch[k]).Ok? && patched[patch[k].path] == Tried(files, patch[k]).value.lines
  }

  datatype Attempt = Placed(files: Files, exact: bool) | Failed(error: PatchError)

  /** Every file is placed, or the first file that cannot be placed decides. */
  method TryPatch(originals: Files, patch: Patch) returns (r: Attempt)
    requires DistinctPaths(patch) && Readable(originals, patch)
    ensures r.Placed? <==> Applies(originals, patch)
    ensures r.Placed? ==> IsPatched(originals, patch, r.files) && (r.exact <==> AppliesExactly(originals, patch))
    ensures r.Failed? ==> FailsFirst(originals, patch, r.error)
  {
    hide Applies, AppliesExactly, IsPatched, FailsFirst, ApplyTail, DistinctPaths;
    var files: Files, exact := map[], true;
    NothingTried(originals);
    for i := 0 to |patch|
      invariant Applies(originals, patch[..i]) && IsPatched(originals, patch[..i], files)
      invariant exact <==> AppliesExactly(originals, patch[..i])
    {
      var item := patch[i];
      var placed := ApplyFile(originals[item.path], item.hunks);
      TryNext(originals, patch, i);
      if placed.Err? {
        return Failed(placed.error);
      }
      AppendPatched(originals, patch, i, files);
      files := files[item.path := placed.value.lines];
      exact := exact && placed.value.exact;
    }
    assert patch[..|patch|] == patch;
    return Placed(files, exact);
  }

  lemma {:induction false} NothingTried(files: Files)
    ensures Applies(files, []) && AppliesExactly(files, []) && IsPatched(files, [], map[])
  {
  }

  lemma {:induction false} TryNext(files: Files, patch: Patch, i: nat)
    requires i < |patch| && Applies(files, patch[..i])
    ensures var r := Tried(files, patch[i]);
            && (r.Ok? ==> Applies(files, patch[..i + 1]))
            && (AppliesExactly(files, patch[..i + 1]) <==> AppliesExactly(files, patch[..i]) && r.Ok? && r.value.exact)
            && (r.Err? ==> !Applies(files, patch) && FailsFirst(files, patch, r.error))
  {
    hide Tried;
    var all := patch[..i + 1];
    assert all[i] == patch[i] && forall k :: 0 <= k < i ==> all[k] == patch[..i][k];
  }

  lemma {:induction false} AppendPatched(originals: Files, patch: Patch, i: nat, files: Files)
    requires i < |patch| && DistinctPaths(patch)
    requires IsPatched(originals, patch[..i], files) && Tried(originals, patch[i]).Ok?
    ensures IsPatched(originals, patch[..i + 1], files[patch[i].path := Tried(originals, patch[i]).value.lines])
  {
    hide Tried;
    var all, done, item := patch[..i + 1], patch[..i], patch[i];
    var patched := files[item.path := Tried(originals, item).value.lines];
    assert all[i] == item && forall k :: 0 <= k < i ==> all[k] == done[k] && done[k] == patch[k];
    assert patched.Keys == (set k | 0 <= k < |all| :: all[k].path);
  }

  datatype PatchOutcome = AppliedAsIs | AppliedContextMoved | AlreadyPresent

  /** How one patch relates to one source tree. */
  ghost predicate Classified(files: Files, patch: Patch, r: Result<PatchOutcome, PatchError>) {
    var back := ReversedPatch(patch);
    var forward, forwardExact := Applies(files, patch), AppliesExactly(files, patch);
    var backward, backwardExact := Applies(files, back), AppliesExactly(files, back);
    if !Readable(files, patch) then r == Err(NotAFile)
    else if forward && (forwardExact || !backward) && !backwardExact then
      r == Ok(if forwardExact then AppliedAsIs else AppliedContextMoved)
    else if backward && (backwardExact || !forward) && !forwardExact then r == Ok(AlreadyPresent)
    else if forward then r == Err(BothWays)
    else r.Err? && FailsFirst(files, patch, r.error)
  }

  predicate Writes(r: Result<PatchOutcome, PatchError>) { r.Ok? && r.value != AlreadyPresent }

  /** Every file of `part` has its new text, whatever `part` is. */
  predicate IsPartOf(part: Files, patched: Files) {
    forall p :: p in part ==> p in patched && part[p] == patched[p]
  }

  /** A crash after so many whole files, and the text it leaves in the file it interrupts, if any. */
  datatype Crash = Crash(after: nat, torn: Option<seq<Line>>)

  /** What writing leaves: some files written, at most one torn, the rest untouched; all of them written
      unless there was a crash. */
  ghost predicate LeftBy(before: Files, after: Files, patched: Files, crash: Option<Crash>, crashed: bool, written: Files, torn: Files) {
    && after == before + written + torn && IsPartOf(written, patched)
    && |torn| <= 1 && (forall p :: p in torn ==> p in patched && p !in written)
    && (crashed ==> crash.Some? && |written| == crash.value.after < |patched| && (crash.value.torn.None? ==> torn == map[]))
    && (!crashed ==> written == patched && torn == map[])
  }

  /** The source tree a patch is applied to. */
  class SourceTree {
    var files: Files

    constructor (files: Files)
      ensures this.files == files
    {
      this.files := files;
    }

    /** Writes file after file. A crash leaves some of them written and, if it falls into a write, one
        further file with whatever text that write had got to. */
    method WriteFiles(patched: Files, crash: Option<Crash>) returns (crashed: bool, ghost written: Files, ghost torn: Files)
      modifies this
      ensures LeftBy(old(files), files, patched, crash, crashed, written, torn)
    {
      hide IsPartOf, Remain, LeftBy;
      var rest := patched;
      written, torn, crashed := map[], map[], false;
      var count := 0;
      NothingWritten(files, patched);
      while rest != map[]
        invariant files == old(files) + written && Remain(patched, rest, written) && count == |written|
        invariant crash.Some? ==> count <= crash.value.after
        decreases |rest|
      {
        RemainMeans(patched, rest, written);
        var path :| path in rest;
        if crash.Some? && count == crash.value.after {
          LeftTorn(old(files), patched, rest, written, path, crash.value);
          if crash.value.torn.Some? {
            files := files[path := crash.value.torn.value];
            torn := map[path := crash.value.torn.value];
          }
          return true, written, torn;
        }
        WriteNext(old(files), patched, rest, written, path);
        files := files[path := rest[path]];
        written := written[path := rest[path]];
        rest := rest - {path};
        count := count + 1;
      }
      RemainMeans(patched, rest, written);
      LeftWhole(old(files), patched, crash);
    }

    /** Writing starts only when all hunks have found their places. */
    method ApplyPatch(patch: Patch, crash: Option<Crash>) returns (r: Result<PatchOutcome, PatchError>, crashed: bool)
      requires DistinctPaths(patch)
      modifies this
      ensures Classified(old(files), patch, r)
      ensures !Writes(r) ==> files == old(files) && !crashed
      ensures Writes(r) ==> exists patched, written, torn ::
        IsPatched(old(files), patch, patched) && LeftBy(old(files), files, patched, crash, crashed, written, torn)
    {
      hide Applies, AppliesExactly, IsPatched, IsPartOf, LeftBy, FailsFirst, ReversedPatch, DistinctPaths;
      crashed := false;
      for i := 0 to |patch|
        invariant files == old(files) && forall k :: 0 <= k < i ==> patch[k].path in files
      {
        if patch[i].path !in files {
          return Err(NotAFile), false;
        }
      }
      var back := ReversedPatch(patch);
      ReadableReversed(files, patch);
      var forward := TryPatch(files, patch);
      var backward := TryPatch(files, back);
      ExactlyIsApplies(files, patch);
      ExactlyIsApplies(files, back);
      if forward.Placed? && (forward.exact || backward.Failed?) && !(backward.Placed? && backward.exact) {
        ghost var written, torn;
        crashed, written, torn := WriteFiles(forward.files, crash);
        return Ok(if forward.exact then AppliedAsIs else AppliedContextMoved), crashed;
      }
      if backward.Placed? && (backward.exact || forward.Failed?) && !(forward.Placed? && forward.exact) {
        return Ok(AlreadyPresent), false;
      }
      return Err(if forward.Placed? then BothWays else forward.error), false;
    }
  }

  /** Every patched file is either written or remains. */
  predicate Remain(patched: Files, rest: Files, written: Files) {
    && IsPartOf(written, patched) && IsPartOf(rest, patched)
    && (forall p :: p in patched ==> p in rest || p in written)
    && forall p :: p in rest ==> p !in written
  }

  lemma {:induction false} NothingWritten(files: Files, patched: Files)
    ensures files + map[] == files && Remain(patched, patched, map[])
  {
  }

  lemma {:induction false} RemainMeans(patched: Files, rest: Files, written: Files)
    requires Remain(patched, rest, written)
    ensures IsPartOf(written, patched)
    ensures rest == map[] ==> written == patched
    ensures rest != map[] ==> |written| < |patched|
    ensures forall p :: p in rest ==> p in patched && p !in written
  {
    if rest == map[] {
      assert written.Keys == patched.Keys;
    } else {
      var p :| p in rest;
      assert p in patched && p !in written;
      FewerKeys(written.Keys, patched.Keys, p);
      assert |written.Keys| == |written| && |patched.Keys| == |patched|;
    }
  }

  lemma {:induction false} FewerKeys(a: set<string>, b: set<string>, p: string)
    requires a <= b && p in b && p !in a
    ensures |a| < |b|
  {
    assert b == a + {p} + (b - a - {p});
  }

  lemma {:induction false} LeftTorn(before: Files, patched: Files, rest: Files, written: Files, path: string, crash: Crash)
    requires Remain(patched, rest, written) && path in rest && |written| == crash.after
    ensures crash.torn.Some? ==>
      LeftBy(before, (before + written)[path := crash.torn.value], patched, Some(crash), true, written, map[path := crash.torn.value])
    ensures crash.torn.None? ==> LeftBy(before, before + written, patched, Some(crash), true, written, map[])
  {
    hide Remain, IsPartOf, LeftBy;
    RemainMeans(patched, rest, written);
    if crash.torn.Some? {
      LeftByOne(before, patched, written, path, crash.torn.value, crash);
    } else {
      LeftByNone(before, patched, written, crash);
    }
  }

  lemma {:induction false} LeftByOne(before: Files, patched: Files, written: Files, path: string, text: seq<Line>, crash: Crash)
    requires IsPartOf(written, patched) && path in patched && path !in written && |written| == crash.after < |patched|
    requires crash.torn.Some?
    ensures LeftBy(before, (before + written)[path := text], patched, Some(crash), true, written, map[path := text])
  {
    hide IsPartOf;
    var torn := map[path := text];
    assert (before + written)[path := text] == before + written + torn;
    assert torn.Keys == {path} && |torn.Keys| == |torn|;
  }

  lemma {:induction false} LeftByNone(before: Files, patched: Files, written: Files, crash: Crash)
    requires IsPartOf(written, patched) && |written| == crash.after < |patched|
    ensures LeftBy(before, before + written, patched, Some(crash), true, written, map[])
  {
    hide IsPartOf;
    assert before + written + map[] == before + written;
  }

  lemma {:induction false} LeftWhole(before: Files, patched: Files, crash: Option<Crash>)
    ensures LeftBy(before, before + patched, patched, crash, false, patched, map[])
  {
    assert before + patched + map[] == before + patched;
  }

  lemma {:induction false} RemainNext(patched: Files, rest: Files, written: Files, path: string)
    requires Remain(patched, rest, written) && path in rest
    ensures Remain(patched, rest - {path}, written[path := rest[path]]) && path !in written
  {
  }

  lemma {:induction false} OneMore(written: Files, path: string, text: seq<Line>)
    requires path !in written
    ensures |written[path := text]| == |written| + 1
  {
    var next := written[path := text];
    assert next.Keys == written.Keys + {path} && |next.Keys| == |next| && |written.Keys| == |written|;
  }

  lemma {:induction false} OneLess(rest: Files, path: string)
    requires path in rest
    ensures |rest - {path}| < |rest|
  {
    var left := rest - {path};
    assert left.Keys == rest.Keys - {path} && |left.Keys| == |left| && |rest.Keys| == |rest|;
  }

  lemma {:induction false} WriteNext(files: Files, patched: Files, rest: Files, written: Files, path: string)
    requires Remain(patched, rest, written) && path in rest
    ensures var next := written[path := rest[path]];
      && Remain(patched, rest - {path}, next) && |next| == |written| + 1 && |rest - {path}| < |rest|
      && (files + written)[path := rest[path]] == files + next
  {
    hide Remain;
    RemainNext(patched, rest, written, path);
    OneMore(written, path, rest[path]);
    OneLess(rest, path);
  }

  lemma {:induction false} ExactlyIsApplies(files: Files, patch: Patch)
    ensures AppliesExactly(files, patch) ==> Applies(files, patch)
    ensures Applies(files, patch) ==> Readable(files, patch)
    ensures forall e :: FailsFirst(files, patch, e) ==> !Applies(files, patch)
  {
  }

  lemma {:induction false} ReadableReversed(files: Files, patch: Patch)
    ensures Readable(files, ReversedPatch(patch)) <==> Readable(files, patch)
    ensures DistinctPaths(patch) ==> DistinctPaths(ReversedPatch(patch))
  {
    var back := ReversedPatch(patch);
    assert forall k :: 0 <= k < |patch| ==> back[k].path == patch[k].path;
    if Readable(files, back) {
      forall k | 0 <= k < |patch| ensures patch[k].path in files { assert back[k].path in files; }
    }
  }

  /** Where the hunks of one file landed. */
  function Landed(files: Files, p: FilePatch): seq<Edit>
    requires p.path in files
  {
    EditsOf(files[p.path], p.hunks, 0)
  }

  /** A patch that is written edits every file as its hunks say: it applied as it is if every hunk's complete
      old text stood in one place, and with moved context if somewhere only a side of the context did. */
  lemma {:induction false} OutcomeNamesEdits(files: Files, patch: Patch, r: Result<PatchOutcome, PatchError>)
    requires Classified(files, patch, r) && Writes(r)
    ensures forall k :: 0 <= k < |patch| ==>
      && patch[k].path in files && Tried(files, patch[k]).Ok?
      && var original, edits := files[patch[k].path], Landed(files, patch[k]);
      && EditsMatchHunks(original, edits, patch[k].hunks, 0) && OrderedRanges(original, edits, 0)
      && Tried(files, patch[k]).value.lines == Splice(original, edits, 0)
    ensures r.value == AppliedAsIs <==>
      forall k, e :: 0 <= k < |patch| && e in Landed(files, patch[k]) ==> e.exact
    ensures r.value == AppliedContextMoved <==>
      exists k, e :: 0 <= k < |patch| && e in Landed(files, patch[k]) && !e.exact
  {
    hide EditsMatchHunks, OrderedRanges, ApplyTail, EditsOf, ReversedPatch, FailsFirst;
    forall k | 0 <= k < |patch|
      ensures patch[k].path in files && Tried(files, patch[k]).Ok?
      ensures EditsMatchHunks(files[patch[k].path], Landed(files, patch[k]), patch[k].hunks, 0)
      ensures OrderedRanges(files[patch[k].path], Landed(files, patch[k]), 0)
      ensures Tried(files, patch[k]).value.lines == Splice(files[patch[k].path], Landed(files, patch[k]), 0)
      ensures Tried(files, patch[k]).value.exact <==> forall e :: e in Landed(files, patch[k]) ==> e.exact
    {
      assert Applies(files, patch) || AppliesExactly(files, patch);
      PlacementIsSimultaneousEdit(files[patch[k].path], patch[k].hunks);
    }
  }

  /** The reversed patch is reported present exactly when the patch would be applied, and the other
      way round; a patch that fails also fails reversed, for the same kind of reason. */
  lemma {:induction false} OutcomesAreSymmetric(files: Files, patch: Patch, r: Result<PatchOutcome, PatchError>,
                                                s: Result<PatchOutcome, PatchError>)
    requires Classified(files, patch, r) && Classified(files, ReversedPatch(patch), s)
    ensures Writes(r) <==> s == Ok(AlreadyPresent)
    ensures Writes(s) <==> r == Ok(AlreadyPresent)
    ensures r.Err? <==> s.Err?
    ensures r.Err? && r.error == NotAFile <==> s.Err? && s.error == NotAFile
    ensures r.Err? && r.error == BothWays <==> s.Err? && s.error == BothWays
  {
    hide Applies, AppliesExactly, FailsFirst, Readable, ReversedPatch;
    ReversedPatchTwice(patch);
    ReadableReversed(files, patch);
    ExactlyIsApplies(files, patch);
    ExactlyIsApplies(files, ReversedPatch(patch));
    if Readable(files, patch) {
      FirstFailure(files, patch);
      FirstFailure(files, ReversedPatch(patch));
    }
  }

  /** Placement itself never reports the two errors that belong to the whole patch. */
  lemma {:induction false} FirstFailure(files: Files, patch: Patch)
    requires Readable(files, patch)
    ensures !FailsFirst(files, patch, BothWays) && !FailsFirst(files, patch, NotAFile)
  {
    forall k | 0 <= k < |patch|
      ensures Tried(files, patch[k]) != Err(BothWays) && Tried(files, patch[k]) != Err(NotAFile)
    {
      PlacementErrors(files[patch[k].path], patch[k].hunks);
    }
  }

  lemma {:induction false} PlacementErrors(tail: seq<Line>, hs: seq<Hunk>)
    ensures ApplyTail(tail, hs).Err? ==> ApplyTail(tail, hs).error in {NoOldText, Ambiguous, NotPresent}
    decreases |hs|
  {
    hide Place;
    if hs != [] {
      PlaceErrors(tail, hs[0]);
      if Place(tail, hs[0], 0).Ok? {
        ApplyCons(tail, hs);
        var p := Place(tail, hs[0], 0).value;
        PlacementErrors(tail[p.start + p.length..], hs[1..]);
      }
    }
  }

  lemma {:induction false} PlaceErrors(tail: seq<Line>, h: Hunk)
    ensures Place(tail, h, 0).Err? ==> Place(tail, h, 0).error in {NoOldText, Ambiguous, NotPresent}
  {
    hide Find, OneSided;
  }

  // ---- Undoing a patch ----

  ghost predicate CoresClear(files: Files, patch: Patch) {
    forall k :: 0 <= k < |patch| ==>
      patch[k].path in files && CoresClearContext(EditsOf(files[patch[k].path], patch[k].hunks, 0), patch[k].hunks)
  }

  /** If a patch applies exactly with clear cores, and its reversal applies exactly to the patched
      tree, then the reversal restores the tree. */
  lemma {:induction false} UndoRestoresTree(files: Files, patch: Patch, patched: Files, undone: Files)
    requires DistinctPaths(patch) && AppliesExactly(files, patch) && CoresClear(files, patch)
    requires IsPatched(files, patch, patched)
    requires AppliesExactly(files + patched, ReversedPatch(patch))
    requires IsPatched(files + patched, ReversedPatch(patch), undone)
    ensures (files + patched) + undone == files
  {
    hide Tried, ReversedPatch, CoresClear, AppliesExactly, IsPatched, DistinctPaths;
    PatchedKeys(files, patch, patched, files + patched, undone);
    forall path | path in patched ensures path in files && path in undone && undone[path] == files[path] {
      UndoRestoresFile(files, patch, patched, undone, path);
    }
  }

  lemma {:induction false} UndoRestoresFile(files: Files, patch: Patch, patched: Files, undone: Files, path: string)
    requires AppliesExactly(files, patch) && CoresClear(files, patch)
    requires IsPatched(files, patch, patched) && path in patched
    requires AppliesExactly(files + patched, ReversedPatch(patch))
    requires IsPatched(files + patched, ReversedPatch(patch), undone)
    ensures path in files && path in undone && undone[path] == files[path]
  {
    hide ApplyTail, CoresClearContext, EditsOf, ReversedAll;
    var k :| 0 <= k < |patch| && patch[k].path == path;
    var back := ReversedPatch(patch);
    assert back[k] == ReversedFile(patch[k]);
    assert (files + patched)[path] == patched[path] == ApplyTail(files[path], patch[k].hunks).value.lines;
    RoundTrip(files[path], patch[k].hunks);
  }

  lemma {:induction false} PatchedKeys(files: Files, patch: Patch, patched: Files, all: Files, undone: Files)
    requires IsPatched(files, patch, patched) && IsPatched(all, ReversedPatch(patch), undone)
    ensures undone.Keys == patched.Keys
  {
    var back := ReversedPatch(patch);
    assert forall k :: 0 <= k < |patch| ==> back[k].path == patch[k].path;
  }
}
