/** Discovery decisions, the release gate, and the runs of generations they allow. */
module Lifecycle {
  import opened Outcome
  import opened DebianVersions
  import opened Naming
  import opened NamingOrder

  datatype LtoMode = NoLto | ThinLto | FullLto

  datatype Retention = Series(maxBytes: Option<int>) | SeriesSize(maxBytes: Option<int>)

  /** Series retention carries no byte limit; size retention a positive one. */
  predicate ValidRetention(r: Retention) {
    if r.Series? then r.maxBytes.None? else r.maxBytes.Some? && r.maxBytes.value >= 1
  }

  datatype Inputs = Inputs(
    sourceVersion: string, dscDigest: string, revision: int, policyDigest: string, lto: LtoMode,
    retention: Retention, now: int, horizon: int, readSucceeded: bool, bootstrapAllowed: bool)

  /** The signed manifest, its pointer, and the measured storage size. */
  datatype Published = Published(
    sourceVersion: string, dscDigest: string, dkcVersion: string, revision: int, policyDigest: string, lto: LtoMode,
    retention: Retention, validUntil: int, generation: nat, publicationId: string, previous: Option<(string, nat)>)

  datatype State = State(manifest: Published, storageSize: int)

  datatype Verdict = NoOp | Build | Maintenance | Qualification | Blocked

  datatype Reason =
    | Unreadable | AbsentWithoutBootstrap | Bootstrap | OlderSource | ChangedDescriptor | NewerSource
    | OlderRevision | HigherRevision | PolicyChanged | RetentionConverges | RefreshDue | Fresh

  datatype DecisionRecord = DecisionRecord(
    verdict: Verdict, inputs: Inputs, buildRequired: bool, maintenanceRequired: bool, publishAllowed: bool,
    stateRead: bool, state: Option<(nat, string)>, reason: Reason)

  datatype DecideError = BadVersion | BadHorizon | BadRetention | BadRevision

  /** The checks of the decision record's constructor. */
  predicate RecordOk(d: DecisionRecord) {
    && d.inputs.revision >= 1 && ValidRetention(d.inputs.retention)
    && (d.publishAllowed ==> d.stateRead)
    && (d.verdict == Blocked ==> !d.buildRequired && !d.publishAllowed)
    && (d.buildRequired, d.maintenanceRequired, d.publishAllowed) == (match d.verdict
        case NoOp => (false, false, false)
        case Build => (true, false, true)
        case Maintenance => (false, true, true)
        case Qualification => (true, false, false)
        case Blocked => (false, false, false))
    && (d.verdict in {NoOp, Build, Maintenance} ==> d.stateRead)
    && (d.verdict in {NoOp, Maintenance} ==> d.state.Some?)
    && (d.verdict == Qualification ==> d.state.None?)
  }

  function Checked(d: DecisionRecord): Result<DecisionRecord, DecideError> {
    if d.inputs.revision < 1 then Err(BadRevision) else Ok(d)
  }

  function Decide(i: Inputs, state: Option<State>): Result<DecisionRecord, DecideError> {
    var source := Parse(i.sourceVersion);
    if source.None? then Err(BadVersion)
    else if i.horizon < 3600 then Err(BadHorizon)
    else if !ValidRetention(i.retention) then Err(BadRetention)
    else if !i.readSucceeded then Checked(DecisionRecord(Blocked, i, false, false, false, false, None, Unreadable))
    else if state.None? then
      if !i.bootstrapAllowed then
        Checked(DecisionRecord(Blocked, i, false, false, false, true, None, AbsentWithoutBootstrap))
      else Checked(DecisionRecord(Build, i, true, false, true, true, None, Bootstrap))
    else
      var m := state.value.manifest;
      var seen := Some((m.generation, m.publicationId));
      var published := Parse(m.sourceVersion);
      if published.None? then Err(BadVersion)
      else
        var ordering := Compare(source.value, published.value);
        if ordering < 0 then Checked(DecisionRecord(Blocked, i, false, false, false, true, seen, OlderSource))
        else if ordering == 0 && i.dscDigest != m.dscDigest then
          Checked(DecisionRecord(Blocked, i, false, false, false, true, seen, ChangedDescriptor))
        else if ordering > 0 then Checked(DecisionRecord(Build, i, true, false, true, true, seen, NewerSource))
        else if i.revision < m.revision then
          Checked(DecisionRecord(Blocked, i, false, false, false, true, seen, OlderRevision))
        else if i.revision > m.revision then
          Checked(DecisionRecord(Build, i, true, false, true, true, seen, HigherRevision))
        else if i.policyDigest != m.policyDigest || i.lto != m.lto then
          Checked(DecisionRecord(Blocked, i, false, false, false, true, seen, PolicyChanged))
        else if i.retention != m.retention || ExceedsLimit(i.retention, state.value.storageSize) then
          Checked(DecisionRecord(Maintenance, i, false, true, true, true, seen, RetentionConverges))
        else if m.validUntil <= i.now + i.horizon then
          Checked(DecisionRecord(Maintenance, i, false, true, true, true, seen, RefreshDue))
        else Checked(DecisionRecord(NoOp, i, false, false, false, true, seen, Fresh))
  }

  predicate ExceedsLimit(r: Retention, size: int) {
    r.SeriesSize? && r.maxBytes.Some? && size > r.maxBytes.value
  }

  /** Well-formed inputs give a decision, and it satisfies every invariant of the record: the
      constructor can only object to the revision. */
  lemma {:induction false} DecisionIsTotalAndValid(i: Inputs, state: Option<State>)
    ensures Decide(i, state).Ok? <==>
      && Parse(i.sourceVersion).Some? && i.horizon >= 3600 && i.revision >= 1
      && (if i.retention.Series? then i.retention.maxBytes == None else i.retention.maxBytes.Some? && i.retention.maxBytes.value > 0)
      && (i.readSucceeded && state.Some? ==> Parse(state.value.manifest.sourceVersion).Some?)
    ensures Decide(i, state).Ok? ==> RecordOk(Decide(i, state).value) && Decide(i, state).value.inputs == i
  {
    hide Compare, Parse;
  }

  /** The order of the published pair of source version and revision and the offered one. */
  function Offered(m: Published, i: Inputs): int {
    if Parse(m.sourceVersion).None? || Parse(i.sourceVersion).None? || m.revision < 0 || i.revision < 0 then 0
    else ComparePairs(Parse(m.sourceVersion).value, m.revision, Parse(i.sourceVersion).value, i.revision)
  }

  function OfferedSource(m: Published, i: Inputs): int {
    if Parse(m.sourceVersion).None? || Parse(i.sourceVersion).None? then 0
    else Compare(Parse(m.sourceVersion).value, Parse(i.sourceVersion).value)
  }

  /** Over a published state, by the order of the pairs: only what lies above is built, whatever its
      descriptor and policy; what lies below is blocked, and so are another descriptor of the published
      source and another policy of the published pair; the rest is maintained or left alone. */
  lemma {:induction false} VerdictFollowsOrder(i: Inputs, s: State)
    requires i.readSucceeded && Decide(i, Some(s)).Ok? && s.manifest.revision >= 1
    ensures var d, m := Decide(i, Some(s)).value, s.manifest;
      var source, pair := OfferedSource(m, i), Offered(m, i);
      var sameBuild := i.dscDigest == m.dscDigest && i.policyDigest == m.policyDigest && i.lto == m.lto;
      var converged := i.retention == m.retention && (i.retention.SeriesSize? ==> s.storageSize <= i.retention.maxBytes.value);
      var lasting := m.validUntil > i.now + i.horizon;
      && (d.verdict == Build <==> pair < 0 && (source < 0 || i.dscDigest == m.dscDigest))
      && (d.verdict == Blocked <==> pair > 0 || (source == 0 && i.dscDigest != m.dscDigest) || (pair == 0 && !sameBuild))
      && (d.verdict == Maintenance <==> pair == 0 && sameBuild && !(converged && lasting))
      && (d.verdict == NoOp <==> pair == 0 && sameBuild && converged && lasting)
      && d.stateRead && d.state == Some((m.generation, m.publicationId))
  {
    hide Parse, Compare;
    CompareAntisymmetric(Parse(s.manifest.sourceVersion).value, Parse(i.sourceVersion).value);
  }

  /** Every reason is given exactly for its cause. */
  lemma {:induction false} ReasonNamesCause(i: Inputs, s: State)
    requires i.readSucceeded && Decide(i, Some(s)).Ok?
    ensures var r, m, source := Decide(i, Some(s)).value.reason, s.manifest, OfferedSource(s.manifest, i);
      var same := source == 0 && i.dscDigest == m.dscDigest;
      var alike := same && i.revision == m.revision && i.policyDigest == m.policyDigest && i.lto == m.lto;
      var converged := i.retention == m.retention && (i.retention.SeriesSize? ==> s.storageSize <= i.retention.maxBytes.value);
      && (r == OlderSource <==> source > 0) && (r == NewerSource <==> source < 0)
      && (r == ChangedDescriptor <==> source == 0 && i.dscDigest != m.dscDigest)
      && (r == OlderRevision <==> same && i.revision < m.revision) && (r == HigherRevision <==> same && i.revision > m.revision)
      && (r == PolicyChanged <==> same && i.revision == m.revision && (i.policyDigest != m.policyDigest || i.lto != m.lto))
      && (r == RetentionConverges <==> alike && !converged)
      && (r == RefreshDue <==> alike && converged && m.validUntil <= i.now + i.horizon)
      && (r == Fresh <==> alike && converged && m.validUntil > i.now + i.horizon)
  {
    hide Parse, Compare;
    CompareAntisymmetric(Parse(s.manifest.sourceVersion).value, Parse(i.sourceVersion).value);
  }

  /** An unreadable state is never taken for an empty repository, and an empty one is built only when
      bootstrapping is allowed. */
  lemma {:induction false} VerdictWithoutState(i: Inputs, state: Option<State>)
    requires Decide(i, state).Ok? && (i.readSucceeded ==> state.None?)
    ensures var d := Decide(i, state).value;
      && (d.verdict == Build <==> i.readSucceeded && i.bootstrapAllowed) && (d.verdict == Blocked <==> d.verdict != Build)
      && d.stateRead == i.readSucceeded && d.state == None
      && d.reason == if !i.readSucceeded then Unreadable else if i.bootstrapAllowed then Bootstrap else AbsentWithoutBootstrap
  {
  }

  // ---- The release gate ----

  function NextGeneration(d: DecisionRecord): nat {
    if d.state.None? then 0 else d.state.value.0 + 1
  }

  /** What ties a published manifest to the decision that authorized it. */
  predicate MatchesDecision(d: DecisionRecord, m: Published) {
    && d.verdict in {Build, Maintenance} && d.publishAllowed
    && m.sourceVersion == d.inputs.sourceVersion && m.dscDigest == d.inputs.dscDigest
    && m.revision == d.inputs.revision && m.policyDigest == d.inputs.policyDigest && m.lto == d.inputs.lto
    && m.retention == d.inputs.retention && m.generation == NextGeneration(d)
    && Some(m.dkcVersion) == DerivedVersion(m.sourceVersion, m.revision)
    && m.previous == (if d.state.None? then None else Some((d.state.value.1, d.state.value.0)))
  }

  function DerivedVersion(source: string, revision: int): Option<string> {
    if Parse(source).None? || revision < 1 then None
    else
      var derived := PackageVersion(Parse(source).value, revision);
      if derived.None? then None else Some(derived.value.raw)
  }

  /** One publication: a decision on the current state and a manifest that matches it. */
  predicate Publishes(state: Option<State>, i: Inputs, m: Published) {
    Decide(i, state).Ok? && MatchesDecision(Decide(i, state).value, m)
  }

  /** A manifest that some publication produced. */
  predicate Sound(m: Published) { Parse(m.sourceVersion).Some? && m.revision >= 1 }

  /** The order of the pair of source version and downstream revision. */
  function OrderOf(a: Published, b: Published): int {
    if !Sound(a) || !Sound(b) then 0
    else ComparePairs(Parse(a.sourceVersion).value, a.revision, Parse(b.sourceVersion).value, b.revision)
  }

  lemma {:induction false} PublicationMovesForward(state: Option<State>, i: Inputs, m: Published)
    requires Publishes(state, i, m) && (state.Some? ==> Sound(state.value.manifest))
    ensures Sound(m) && m.generation == if state.Some? then state.value.manifest.generation + 1 else 0
    ensures state.Some? ==>
      var p := state.value.manifest;
      && OrderOf(p, m) <= 0
      && (Decide(i, state).value.verdict == Build ==> OrderOf(p, m) < 0)
      && (Decide(i, state).value.verdict == Maintenance ==> OrderOf(p, m) == 0)
      && (m.policyDigest != p.policyDigest || m.lto != p.lto ==> OrderOf(p, m) < 0)
      && m.previous == Some((p.publicationId, p.generation))
  {
    hide Parse, Compare;
    if state.Some? {
      CompareAntisymmetric(Parse(i.sourceVersion).value, Parse(state.value.manifest.sourceVersion).value);
    } else {
      assert i.readSucceeded;
    }
  }

  // ---- Runs ----

  /** A decision that was taken on some state and may be carried out later, or never. */
  datatype Taken = Taken(inputs: Inputs, on: Option<State>)

  datatype Repository = Repository(state: Option<State>, taken: map<nat, Taken>)

  /** Somebody decides, somebody publishes what was decided, or the storage is measured again. */
  datatype Event =
    | Decides(id: nat, inputs: Inputs)
    | Publish(id: nat, manifest: Published, storageSize: int)
    | Measure(storageSize: int)

  /** The authoritative state is the one with this generation and publication. */
  predicate SameHead(a: Option<State>, b: Option<State>) {
    && (a.Some? <==> b.Some?)
    && (a.Some? ==>
          && a.value.manifest.generation == b.value.manifest.generation
          && a.value.manifest.publicationId == b.value.manifest.publicationId)
  }

  /** A publication matches its decision, however old, and the predecessor it names is authoritative. */
  predicate Enabled(r: Repository, e: Event) {
    e.Publish? ==>
      && e.id in r.taken && Publishes(r.taken[e.id].on, r.taken[e.id].inputs, e.manifest)
      && SameHead(r.state, r.taken[e.id].on)
  }

  function Next(r: Repository, e: Event): Repository {
    match e
    case Decides(id, inputs) => r.(taken := r.taken[id := Taken(inputs, r.state)])
    case Publish(_, m, size) => r.(state := Some(State(m, size)))
    case Measure(size) => r.(state := if r.state.Some? then Some(r.state.value.(storageSize := size)) else None)
  }

  function Run(r: Repository, es: seq<Event>): Repository
    decreases |es|
  {
    if es == [] then r else Run(Next(r, es[0]), es[1..])
  }

  predicate AllEnabled(r: Repository, es: seq<Event>)
    decreases |es|
  {
    es == [] || (Enabled(r, es[0]) && AllEnabled(Next(r, es[0]), es[1..]))
  }

  function Publications(es: seq<Event>): nat {
    if es == [] then 0 else (if es[0].Publish? then 1 else 0) + Publications(es[1..])
  }

  /** Decisions were taken on this history: an equal generation is the same manifest. */
  predicate TakenHere(r: Repository, t: Taken) {
    t.on.Some? ==>
      && r.state.Some? && t.on.value.manifest.generation <= r.state.value.manifest.generation
      && (t.on.value.manifest.generation == r.state.value.manifest.generation ==> t.on.value.manifest == r.state.value.manifest)
  }

  ghost predicate Tracked(r: Repository) { forall id :: id in r.taken ==> TakenHere(r, r.taken[id]) }

  /** Before the first decision. */
  lemma {:induction false} TrackedAtStart(state: Option<State>)
    ensures Tracked(Repository(state, map[]))
  {
  }

  /** A publication that is admitted was decided on the manifest that it replaces. */
  lemma {:induction false} AdmittedOnlyOverItsState(r: Repository, e: Event)
    requires Tracked(r) && e.Publish? && Enabled(r, e) && r.state.Some?
    ensures var on := r.taken[e.id].on; on.Some? && on.value.manifest == r.state.value.manifest
  {
    hide Publishes;
    assert TakenHere(r, r.taken[e.id]);
  }

  lemma {:induction false} EventMovesForward(r: Repository, e: Event)
    requires Tracked(r) && Enabled(r, e) && r.state.Some? && Sound(r.state.value.manifest)
    ensures Tracked(Next(r, e)) && Next(r, e).state.Some?
    ensures var m, n := r.state.value.manifest, Next(r, e).state.value.manifest;
            && Sound(n) && OrderOf(m, n) <= 0 && n.generation == m.generation + (if e.Publish? then 1 else 0)
            && (n.policyDigest != m.policyDigest || n.lto != m.lto ==> OrderOf(m, n) < 0)
            && (Some(m.dkcVersion) == DerivedVersion(m.sourceVersion, m.revision) ==>
                  Some(n.dkcVersion) == DerivedVersion(n.sourceVersion, n.revision))
  {
    hide Sound, OrderOf, Decide, DerivedVersion;
    if e.Publish? {
      AdmittedOnlyOverItsState(r, e);
      PublicationMovesForward(r.taken[e.id].on, r.taken[e.id].inputs, e.manifest);
    } else {
      PairsAreReflexive(r.state.value.manifest);
    }
    var next := Next(r, e);
    forall id | id in next.taken ensures TakenHere(next, next.taken[id]) {
      assert id in r.taken ==> TakenHere(r, r.taken[id]);
    }
  }

  lemma {:induction false} PairsAreTransitive(a: Published, b: Published, c: Published)
    requires Sound(a) && Sound(b) && Sound(c) && OrderOf(a, b) <= 0 && OrderOf(b, c) <= 0
    ensures OrderOf(a, c) <= 0
    ensures OrderOf(a, b) < 0 || OrderOf(b, c) < 0 ==> OrderOf(a, c) < 0
  {
    hide Parse, Compare;
    var x, y, z := Parse(a.sourceVersion).value, Parse(b.sourceVersion).value, Parse(c.sourceVersion).value;
    CompareTransitive(x, y, z);
    if Compare(x, y) == 0 && Compare(y, z) == 0 {
      CompareAntisymmetric(x, y);
      CompareAntisymmetric(y, z);
      CompareAntisymmetric(x, z);
      CompareTransitive(z, y, x);
    }
  }

  lemma {:induction false} PairsAreReflexive(a: Published)
    requires Sound(a)
    ensures OrderOf(a, a) == 0
  {
    CompareReflexive(Parse(a.sourceVersion).value);
  }

  /** Over every run, however decisions and publications interleave, the published pair never
      decreases, a changed build policy or LTO mode means it increased, and every publication raises the
      generation by exactly one. */
  lemma {:induction false} RunsNeverGoBack(r: Repository, es: seq<Event>)
    requires Tracked(r) && r.state.Some? && Sound(r.state.value.manifest) && AllEnabled(r, es)
    ensures Run(r, es).state.Some? && Sound(Run(r, es).state.value.manifest)
    ensures var s, m := r.state.value.manifest, Run(r, es).state.value.manifest;
            && OrderOf(s, m) <= 0
            && (m.policyDigest != s.policyDigest || m.lto != s.lto ==> OrderOf(s, m) < 0)
            && m.generation == s.generation + Publications(es)
            && (Some(s.dkcVersion) == DerivedVersion(s.sourceVersion, s.revision) ==>
                  Some(m.dkcVersion) == DerivedVersion(m.sourceVersion, m.revision))
    decreases |es|
  {
    hide Decide, OrderOf, Sound, Tracked, Enabled, Next, DerivedVersion;
    if es == [] {
      PairsAreReflexive(r.state.value.manifest);
    } else {
      var next := Next(r, es[0]);
      EventMovesForward(r, es[0]);
      RunsNeverGoBack(next, es[1..]);
      PairsAreTransitive(r.state.value.manifest, next.state.value.manifest, Run(r, es).state.value.manifest);
    }
  }

  /** Every build on a published repository strictly raises the pair, over whole runs. */
  lemma {:induction false} BuildsRaiseThePair(r: Repository, e: Event, es: seq<Event>)
    requires Tracked(r) && r.state.Some? && Sound(r.state.value.manifest) && e.Publish?
    requires Enabled(r, e) && Decide(r.taken[e.id].inputs, r.taken[e.id].on).value.verdict == Build
    requires AllEnabled(Next(r, e), es)
    ensures var last := Run(Next(r, e), es).state; last.Some? && OrderOf(r.state.value.manifest, last.value.manifest) < 0
  {
    hide OrderOf, MatchesDecision, Sound, Decide, Run, AllEnabled, Tracked;
    AdmittedOnlyOverItsState(r, e);
    PublicationMovesForward(r.taken[e.id].on, r.taken[e.id].inputs, e.manifest);
    EventMovesForward(r, e);
    RunsNeverGoBack(Next(r, e), es);
    PairsAreTransitive(r.state.value.manifest, e.manifest, Run(Next(r, e), es).state.value.manifest);
  }

  /** Whatever lies above the published pair can be decided on and published: a newer source in every
      case, a higher revision if the source's descriptor is the published one. */
  lemma {:induction false} WhatLiesAboveIsPublished(r: Repository, id: nat, i: Inputs, publication: string, validUntil: int, size: int)
    returns (m: Published)
    requires r.state.Some? && Sound(r.state.value.manifest) && i.readSucceeded && i.revision >= 1
    requires Parse(i.sourceVersion).Some? && i.horizon >= 3600 && ValidRetention(i.retention)
    requires Offered(r.state.value.manifest, i) < 0
    requires OfferedSource(r.state.value.manifest, i) < 0 || i.dscDigest == r.state.value.manifest.dscDigest
    ensures var es := [Decides(id, i), Publish(id, m, size)];
      && AllEnabled(r, es) && Run(r, es).state == Some(State(m, size)) && m.publicationId == publication
      && m.sourceVersion == i.sourceVersion && m.revision == i.revision
      && m.generation == r.state.value.manifest.generation + 1
  {
    hide Parse, Compare, DerivedVersion, Offered, OfferedSource;
    DecisionIsTotalAndValid(i, r.state);
    VerdictFollowsOrder(i, r.state.value);
    DerivedVersionExists(i.sourceVersion, i.revision);
    var d, p := Decide(i, r.state).value, r.state.value.manifest;
    m := Published(i.sourceVersion, i.dscDigest, DerivedVersion(i.sourceVersion, i.revision).value, i.revision, i.policyDigest,
                   i.lto, i.retention, validUntil, p.generation + 1, publication, Some((p.publicationId, p.generation)));
    assert MatchesDecision(d, m);
    hide Decide, MatchesDecision;
    var es := [Decides(id, i), Publish(id, m, size)];
    var decided := Next(r, es[0]);
    assert es[1..] == [es[1]] && es[1..][1..] == [] && decided.taken[id] == Taken(i, r.state);
    assert Enabled(decided, es[1]) && AllEnabled(Next(decided, es[1]), []);
    assert AllEnabled(decided, [es[1]]);
    assert Run(r, es) == Run(decided, [es[1]]) == Run(Next(decided, es[1]), []);
  }

  lemma {:induction false} DerivedVersionExists(source: string, revision: int)
    requires Parse(source).Some? && revision >= 1
    ensures DerivedVersion(source, revision).Some?
  {
    ParsedAgain(source);
    hide Parse;
    PackageVersionAboveSource(Parse(source).value, revision);
  }

  /** From an empty repository the first publication is generation 0, and the run continues from it. */
  lemma {:induction false} FirstPublicationIsGenerationZero(i: Inputs, m: Published)
    requires Publishes(None, i, m)
    ensures m.generation == 0 && m.previous == None && Sound(m) && i.bootstrapAllowed && i.readSucceeded
  {
    hide Parse, Compare;
  }

  /** After a publication the same inputs, at any later time, have nothing to do exactly while the
      storage is within its limit and the metadata is beyond the horizon. */
  lemma {:induction false} PublishedInputsConverge(state: Option<State>, i: Inputs, m: Published, size: int, later: int)
    requires Publishes(state, i, m)
    ensures var again := Decide(i.(now := later), Some(State(m, size)));
            && again.Ok? && again.value.verdict in {NoOp, Maintenance}
            && (again.value.verdict == NoOp <==> !ExceedsLimit(i.retention, size) && m.validUntil > later + i.horizon)
  {
    hide Parse, Compare;
    DecisionIsTotalAndValid(i, state);
    CompareReflexive(Parse(i.sourceVersion).value);
    assert i.readSucceeded;
  }

  /** Wherever a run has led from safe versions to safe versions, the package versions order like the
      pairs, so that they have not gone back. */
  lemma {:induction false} PackageVersionsNeverGoBack(r: Repository, es: seq<Event>)
    requires Tracked(r) && r.state.Some? && Sound(r.state.value.manifest) && AllEnabled(r, es)
    requires Some(r.state.value.manifest.dkcVersion)
          == DerivedVersion(r.state.value.manifest.sourceVersion, r.state.value.manifest.revision)
    ensures Run(r, es).state.Some? && Sound(Run(r, es).state.value.manifest)
    ensures var s, m := r.state.value.manifest, Run(r, es).state.value.manifest;
            PairIsSafe(Parse(s.sourceVersion).value, Parse(m.sourceVersion).value) ==>
              && Parse(s.dkcVersion).Some? && Parse(m.dkcVersion).Some?
              && Compare(Parse(s.dkcVersion).value, Parse(m.dkcVersion).value) == OrderOf(s, m)
              && OrderOf(s, m) <= 0
  {
    hide Compare, PairIsSafe, Parse, Run, AllEnabled, Tracked, DerivedVersion, OrderOf;
    RunsNeverGoBack(r, es);
    var s, m := r.state.value.manifest, Run(r, es).state.value.manifest;
    if PairIsSafe(Parse(s.sourceVersion).value, Parse(m.sourceVersion).value) {
      DerivedVersionsCompare(s, m);
    }
  }

  /** The package versions of two manifests are the derived versions of their sources. */
  lemma {:induction false} DerivedVersionIs(a: Published)
    requires Sound(a) && Some(a.dkcVersion) == DerivedVersion(a.sourceVersion, a.revision)
    ensures Parsed(Parse(a.sourceVersion).value)
    ensures Parse(a.dkcVersion) == Some(Extended(Parse(a.sourceVersion).value, a.revision))
  {
    var v := Parse(a.sourceVersion).value;
    ParsedAgain(a.sourceVersion);
    ParsedAgain(v.raw + Suffix(a.revision));
    hide Parse;
    PackageVersionExtends(v, a.revision);
  }

  lemma {:induction false} DerivedVersionsCompare(a: Published, b: Published)
    requires Sound(a) && Sound(b)
    requires PairIsSafe(Parse(a.sourceVersion).value, Parse(b.sourceVersion).value)
    requires Some(a.dkcVersion) == DerivedVersion(a.sourceVersion, a.revision)
    requires Some(b.dkcVersion) == DerivedVersion(b.sourceVersion, b.revision)
    ensures Parse(a.dkcVersion).Some? && Parse(b.dkcVersion).Some?
    ensures Compare(Parse(a.dkcVersion).value, Parse(b.dkcVersion).value) == OrderOf(a, b)
  {
    hide Compare, PairIsSafe, Parse, Parsed, Extended;
    DerivedVersionIs(a);
    DerivedVersionIs(b);
    PairOrderIsKeptIff(Parse(a.sourceVersion).value, Parse(b.sourceVersion).value);
  }

  /** A build that takes a repository from one source version to another. */
  ghost predicate BuildsFrom(s: State, i: Inputs, m: Published, v: DebianVersion, w: DebianVersion) {
    && Sound(s.manifest) && s.manifest.sourceVersion == v.raw && m.sourceVersion == w.raw
    && Some(s.manifest.dkcVersion) == DerivedVersion(v.raw, s.manifest.revision)
    && Publishes(Some(s), i, m) && Decide(i, Some(s)).value.verdict == Build
  }

  predicate RaisesPackageVersion(a: Published, b: Published) {
    && Parse(a.dkcVersion).Some? && Parse(b.dkcVersion).Some?
    && Compare(Parse(a.dkcVersion).value, Parse(b.dkcVersion).value) < 0
  }

  /** For a newer source version: every build onto it raises the package version if and only if the two
      versions are safe; otherwise some build, with its decision and matching publication, goes back. */
  lemma {:induction false} BuildsRaisePackageVersionIff(v: DebianVersion, w: DebianVersion)
    requires Parsed(v) && Parsed(w) && Compare(v, w) < 0
    ensures PairIsSafe(v, w) <==>
      forall s: State, i: Inputs, m: Published :: BuildsFrom(s, i, m, v, w) ==> RaisesPackageVersion(s.manifest, m)
  {
    hide Compare, PairIsSafe, Parse, Decide, BuildsFrom, RaisesPackageVersion;
    PairOrderIsKeptIff(v, w);
    if PairIsSafe(v, w) {
      forall s: State, i: Inputs, m: Published | BuildsFrom(s, i, m, v, w) ensures RaisesPackageVersion(s.manifest, m) {
        SafeBuildRaises(s, i, m, v, w);
      }
    } else {
      var n: nat, k: nat :| n >= 1 && k >= 1 && Compare(Extended(v, n), Extended(w, k)) != ComparePairs(v, n, w, k);
      var s, i, m := UnsafeBuild(v, w, n, k);
    }
  }

  lemma {:induction false} SafeBuildRaises(s: State, i: Inputs, m: Published, v: DebianVersion, w: DebianVersion)
    requires Parsed(v) && Parsed(w) && Compare(v, w) < 0 && PairIsSafe(v, w) && BuildsFrom(s, i, m, v, w)
    ensures RaisesPackageVersion(s.manifest, m)
  {
    hide Compare, PairIsSafe, Decide;
    assert Sound(m) && Parse(v.raw) == Some(v) && Parse(w.raw) == Some(w) by { MatchIsSound(s, i, m); }
    hide Parse;
    DerivedVersionsCompare(s.manifest, m);
  }

  lemma {:induction false} MatchIsSound(s: State, i: Inputs, m: Published)
    requires Publishes(Some(s), i, m)
    ensures Sound(m) && Some(m.dkcVersion) == DerivedVersion(m.sourceVersion, m.revision)
  {
    hide Compare, Parse;
  }

  /** A build from one source version onto a newer one whose derived version does not lie above. */
  lemma {:induction false} UnsafeBuild(v: DebianVersion, w: DebianVersion, n: nat, k: nat)
    returns (s: State, i: Inputs, m: Published)
    requires Parsed(v) && Parsed(w) && Compare(v, w) < 0 && n >= 1 && k >= 1
    requires Compare(Extended(v, n), Extended(w, k)) != ComparePairs(v, n, w, k)
    ensures BuildsFrom(s, i, m, v, w) && !RaisesPackageVersion(s.manifest, m)
  {
    hide *;
    s, i, m := Before(v, n), Offer(w, k), Onto(w, k);
    PackageVersionExtends(v, n);
    PackageVersionExtends(w, k);
    SimpleBuild(v, w, n, k);
    SimpleOrder(v, w, n, k);
  }

  /** A stable security update is such a build: the repository would offer a lower package version. */
  lemma {:induction false} SecurityUpdateGoesBack() returns (s: State, i: Inputs, m: Published)
    ensures BuildsFrom(s, i, m, Released, SecurityUpdate) && !RaisesPackageVersion(s.manifest, m)
  {
    hide *;
    SecurityUpdateReverses();
    UpdateOrders();
    s, i, m := UnsafeBuild(Released, SecurityUpdate, 1, 1);
  }

  lemma {:induction false} UpdateOrders()
    ensures Compare(Extended(Released, 1), Extended(SecurityUpdate, 1)) != ComparePairs(Released, 1, SecurityUpdate, 1)
  {
    hide Compare, Extended;
    SecurityUpdateReverses();
  }

  function Before(v: DebianVersion, n: nat): State {
    State(Published(v.raw, "dsc", Extended(v, n).raw, n, "policy", NoLto, Series(None), 0, 0, "first", None), 0)
  }

  function Offer(w: DebianVersion, k: nat): Inputs {
    Inputs(w.raw, "dsc", k, "policy", NoLto, Series(None), 0, 3600, true, true)
  }

  function Onto(w: DebianVersion, k: nat): Published {
    Published(w.raw, "dsc", Extended(w, k).raw, k, "policy", NoLto, Series(None), 0, 1, "second", Some(("first", 0)))
  }

  lemma {:induction false} SimpleBuild(v: DebianVersion, w: DebianVersion, n: nat, k: nat)
    requires Parsed(v) && Parsed(w) && Compare(v, w) < 0 && n >= 1 && k >= 1
    requires PackageVersion(v, n) == Some(Extended(v, n)) && PackageVersion(w, k) == Some(Extended(w, k))
    ensures BuildsFrom(Before(v, n), Offer(w, k), Onto(w, k), v, w)
  {
    hide Compare, Parse, Extended, PackageVersion;
    CompareAntisymmetric(v, w);
  }

  lemma {:induction false} SimpleOrder(v: DebianVersion, w: DebianVersion, n: nat, k: nat)
    requires Parsed(v) && Parsed(w) && Compare(v, w) < 0
    requires PackageVersion(v, n) == Some(Extended(v, n)) && PackageVersion(w, k) == Some(Extended(w, k))
    requires Compare(Extended(v, n), Extended(w, k)) != ComparePairs(v, n, w, k)
    ensures !RaisesPackageVersion(Before(v, n).manifest, Onto(w, k))
  {
    hide Compare, Parse;
    ParsedAgain(v.raw + Suffix(n));
    ParsedAgain(w.raw + Suffix(k));
    hide Extended;
    ComparesSign(v, w);
    ComparesSign(Extended(v, n), Extended(w, k));
  }

  lemma {:induction false} ComparesSign(v: DebianVersion, w: DebianVersion)
    ensures -1 <= Compare(v, w) <= 1
  {
    FragmentSign(v.upstream, w.upstream);
    FragmentSign(v.revision, w.revision);
  }

  lemma {:induction false} ParsedAgain(text: string)
    ensures Parse(text).Some? ==> Parse(text).value.raw == text && Parsed(Parse(text).value)
  {
  }
}
