/** One publication run: lease, checks, plan, projection, execution, collection, release. */
module StoragePublish {
  import opened Outcome
  import opened Keys
  import opened Store
  import opened Publication
  import opened PublicationRuns
  import opened PublicationPlanning
  import Collector
  import Lease
  import StorageBudget

  datatype StatePointer = StatePointer(generation: nat, publicationId: string, previous: Option<nat>)

  /** The signed result to publish: its pointer, the pointer's bytes, and its manifest. */
  datatype Desired = Desired(
    pointer: StatePointer, body: Body, manifest: Collector.Manifest, previousPublication: Option<(string, nat)>,
    maxBytes: Option<int>)

  datatype Caps = Caps(objectBytes: int, gcObjects: int, gcBytes: int)

  datatype PublishError =
    | AcquireFailed(lease: Lease.LeaseError) | DoesNotFollow | PlanFailed(plan: PlanError)
    | GcPlanFailed(gc: Collector.GcError) | BudgetFailed(budget: StorageBudget.BudgetError) | ProjectedOverLimit
    | ExecutionFailed(failure: Failure) | GcFailed(gc: Collector.GcError) | ReleaseFailed(lease: Lease.LeaseError)
    | CommittedOverLimit

  /** Refusals before the first write of the publication. */
  predicate IsRefusal(e: PublishError) {
    e.DoesNotFollow? || e.PlanFailed? || e.GcPlanFailed? || e.BudgetFailed? || e.ProjectedOverLimit?
  }

  datatype Summary = Summary(objectCount: nat, size: int, deleted: seq<Key>)

  const PointerCacheControl: string := "public, max-age=0, must-revalidate"

  /** The desired generation is already published or directly follows the authoritative one. */
  predicate FollowsCurrent(s: StoreState, d: Desired, decode: Body -> Option<StatePointer>) {
    var current := s.Get(StateKey);
    if current.None? then d.pointer.generation == 0 && d.pointer.previous == None
    else if current.value.content.body == d.body then current.value.content.metadata.cacheControl == PointerCacheControl
    else
      var observed := decode(current.value.content.body);
      && observed.Some?
      && d.pointer.generation == observed.value.generation + 1
      && d.pointer.previous == Some(observed.value.generation)
      && d.previousPublication == Some((observed.value.publicationId, observed.value.generation))
  }

  predicate WithinLimit(d: Desired, size: int) { d.maxBytes.Some? ==> size <= d.maxBytes.value }

  function Sizes(inventory: seq<RepositoryObject>): seq<StorageBudget.Sized> {
    seq(|inventory|, i requires 0 <= i < |inventory| => StorageBudget.Sized(inventory[i].key, StorageBudget.SizeOf(inventory[i].content)))
  }

  /** Equal up to the lease object. */
  predicate SameButLease(a: map<Key, Object>, b: map<Key, Object>) { a - {Lease.LeaseKey} == b - {Lease.LeaseKey} }

  /** What the namespace must hold afterwards: the inventory over what was there, without the
      tombstoned objects that still existed. */
  function Intended(s: StoreState, inventory: seq<RepositoryObject>, m: Collector.Manifest): map<Key, Object> {
    s.Contents() + Objects(inventory) - set k | k in StorageBudget.KeysOf(Collector.Complete(m, s))
  }

  // ---- One publication after another ----

  /** The authoritative pointer is the one of this publication. */
  predicate IsPublished(s: StoreState, d: Desired) {
    s.Get(StateKey).Some? && s.Get(StateKey).value.content.body == d.body
    && s.Get(StateKey).value.content.metadata.cacheControl == PointerCacheControl
  }

  /** Behind a publication only the same one goes on, or one that is numbered next and names it, by its
      generation in the pointer and by identifier and generation in the manifest. */
  lemma {:induction false} OnlySuccessorsFollow(s: StoreState, d: Desired, next: Desired, decode: Body -> Option<StatePointer>)
    requires IsPublished(s, d) && decode(d.body) == Some(d.pointer)
    ensures FollowsCurrent(s, next, decode) <==>
      next.body == d.body ||
      (next.pointer == StatePointer(d.pointer.generation + 1, next.pointer.publicationId, Some(d.pointer.generation))
       && next.previousPublication == Some((d.pointer.publicationId, d.pointer.generation)))
  {
  }

  /** Publications one behind the other, from an empty namespace. */
  ghost predicate Chain(ds: seq<Desired>, ss: seq<StoreState>, decode: Body -> Option<StatePointer>) {
    && |ss| == |ds| + 1 && ss[0].Get(StateKey).None?
    && forall i :: 0 <= i < |ds| ==>
         && FollowsCurrent(ss[i], ds[i], decode) && IsPublished(ss[i + 1], ds[i]) && decode(ds[i].body) == Some(ds[i].pointer)
  }

  /** Their generations start at 0, never go back and leave none out, and one generation is one pointer. */
  lemma {:induction false} ChainsAreNumbered(ds: seq<Desired>, ss: seq<StoreState>, decode: Body -> Option<StatePointer>,
                                             i: nat, j: nat)
    requires Chain(ds, ss, decode) && i <= j < |ds|
    ensures ds[0].pointer.generation == 0 && ds[i].pointer.generation <= ds[j].pointer.generation <= ds[i].pointer.generation + (j - i)
    ensures ds[i].pointer.generation == ds[j].pointer.generation <==> ds[i].body == ds[j].body
    decreases j
  {
    hide FollowsCurrent;
    FirstIsZero(ss[0], ds[0], decode);
    if i < j {
      ChainsAreNumbered(ds, ss, decode, i, j - 1);
      OnlySuccessorsFollow(ss[j], ds[j - 1], ds[j], decode);
    }
  }

  lemma {:induction false} FirstIsZero(s: StoreState, d: Desired, decode: Body -> Option<StatePointer>)
    requires s.Get(StateKey).None? && FollowsCurrent(s, d, decode)
    ensures d.pointer.generation == 0 && d.pointer.previous == None
  {
  }

  // ---- When a publication goes through ----

  /** The tombstones can be collected within the caps. */
  ghost predicate Collectable(s: StoreState, m: Collector.Manifest, caps: Caps) {
    && caps.gcObjects >= 1 && caps.gcBytes >= 1
    && Collector.AllClean(Collector.Candidates(m.queue, m.live), s, caps.gcBytes)
    && |Collector.Complete(m, s)| <= caps.gcObjects && Collector.Total(Collector.Complete(m, s)) <= caps.gcBytes
  }

  /** Nothing is written and deleted at once. */
  predicate KeepsApart(s: StoreState, inventory: seq<RepositoryObject>, m: Collector.Manifest) {
    forall t :: t in Collector.Complete(m, s) ==> t.key !in Objects(inventory)
  }

  function ProjectedSizes(s: StoreState, inventory: seq<RepositoryObject>, m: Collector.Manifest): StorageBudget.Sizes {
    StorageBudget.Projected(StorageBudget.Listing(s.Contents()), Sizes(inventory), StorageBudget.KeysOf(Collector.Complete(m, s)))
  }

  predicate FitsLimit(s: StoreState, inventory: seq<RepositoryObject>, d: Desired) {
    d.maxBytes.Some? ==> StorageBudget.Sum(ProjectedSizes(s, inventory, d.manifest)) <= d.maxBytes.value
  }

  /** No immutable key of the inventory holds anything else. */
  predicate NothingForeign(s: StoreState, inventory: seq<RepositoryObject>) {
    forall k :: k in Objects(inventory) && !Required(k) && IsImmutable(Objects(inventory)[k]) && k in s.objects ==>
      s.Holds(k, Objects(inventory)[k])
  }

  /** The inventory holds the desired pointer, and pointer and manifest name one generation. */
  predicate NamesItself(inventory: seq<RepositoryObject>, d: Desired) {
    && d.pointer.generation == d.manifest.generation
    && StateKey in Objects(inventory) && Objects(inventory)[StateKey].body == d.body
  }

  /** The pointer behind which the tombstones are collected, if there are any, is the publication's own. */
  predicate CollectsBehind(s: StoreState, inventory: seq<RepositoryObject>, d: Desired) {
    Collector.Complete(d.manifest, s) == [] || NamesItself(inventory, d)
  }

  /** Everything that a publication asks of the store, the inventory and the signed result. */
  ghost predicate GoesThrough(s: StoreState, inventory: seq<RepositoryObject>, d: Desired, decode: Body -> Option<StatePointer>,
                              caps: Caps) {
    && FollowsCurrent(s, d, decode) && Plannable(inventory, caps.objectBytes) && Collectable(s, d.manifest, caps)
    && KeepsApart(s, inventory, d.manifest) && FitsLimit(s, inventory, d) && NothingForeign(s, inventory)
    && CollectsBehind(s, inventory, d)
  }

  /** An error names the first demand that is not met. */
  ghost predicate Answers(s: StoreState, inventory: seq<RepositoryObject>, d: Desired, decode: Body -> Option<StatePointer>,
                          caps: Caps, r: Result<Summary, PublishError>) {
    var follows, plannable := FollowsCurrent(s, d, decode), Plannable(inventory, caps.objectBytes);
    var collectable, apart := Collectable(s, d.manifest, caps), KeepsApart(s, inventory, d.manifest);
    var fits, own := FitsLimit(s, inventory, d), NothingForeign(s, inventory);
    match r
    case Ok(_) => GoesThrough(s, inventory, d, decode, caps)
    case Err(DoesNotFollow) => !follows
    case Err(PlanFailed(_)) => follows && !plannable
    case Err(GcPlanFailed(_)) => follows && plannable && !collectable
    case Err(BudgetFailed(_)) => follows && plannable && collectable && !apart
    case Err(ProjectedOverLimit) => follows && plannable && collectable && apart && !fits
    case Err(ExecutionFailed(_)) => follows && plannable && collectable && apart && fits && !own
    case Err(GcFailed(_)) =>
      follows && plannable && collectable && apart && fits && own && !CollectsBehind(s, inventory, d)
    case Err(_) => false
  }

  lemma {:induction false} SuccessIsGoingThrough(s: StoreState, inventory: seq<RepositoryObject>, d: Desired,
                                                 decode: Body -> Option<StatePointer>, caps: Caps)
    ensures forall r: Result<Summary, PublishError> ::
      Answers(s, inventory, d, decode, caps, r) ==> (r.Ok? <==> GoesThrough(s, inventory, d, decode, caps))
    ensures forall r: Result<Summary, PublishError> ::
      r.Ok? ==> (Answers(s, inventory, d, decode, caps, r) <==> GoesThrough(s, inventory, d, decode, caps))
  {
    hide FollowsCurrent, Plannable, Collectable, KeepsApart, FitsLimit, NothingForeign, CollectsBehind;
  }

  // ---- Each demand is what the step really needs ----

  predicate DistinctTargets(targets: seq<Collector.GcTarget>) {
    forall i, j :: 0 <= i < j < |targets| ==> targets[i].key != targets[j].key
  }

  lemma {:induction false} ExistingAreDistinct(ks: seq<Key>, candidates: map<Key, Collector.GcTarget>, s: StoreState)
    requires Distinct(ks) && forall k :: k in ks ==> k in candidates && candidates[k].key == k
    ensures DistinctTargets(Collector.Existing(ks, candidates, s))
    ensures forall t :: t in Collector.Existing(ks, candidates, s) ==> t.key in ks && t == candidates[t.key] && t.key in s.objects
  {
    if ks != [] {
      var rest, last := ks[..|ks| - 1], ks[|ks| - 1];
      ExistingAreDistinct(rest, candidates, s);
      var some := Collector.Existing(rest, candidates, s);
      assert some + [] == some && ks == rest + [last];
      assert last !in rest;
      forall i | 0 <= i < |some| ensures some[i].key != last {
        assert some[i] in some;
        assert some[i].key in rest;
      }
      assert DistinctTargets(some + [candidates[last]]);
    }
  }

  lemma {:induction false} CompleteIs(m: Collector.Manifest, s: StoreState)
    ensures Distinct(StorageBudget.KeysOf(Collector.Complete(m, s)))
    ensures var candidates := Collector.Candidates(m.queue, m.live);
      forall t :: t in Collector.Complete(m, s) ==> t.key in candidates && t == candidates[t.key] && t.key in s.objects
  {
    hide Collector.Candidates, Collector.Existing;
    var candidates := Collector.Candidates(m.queue, m.live);
    forall l | l in candidates.Keys ensures candidates[l].key == l { Collector.CandidateKeys(m.queue, m.live, l); }
    ExistingAreDistinct(Sorted(candidates.Keys), candidates, s);
    var targets, ks := Collector.Complete(m, s), StorageBudget.KeysOf(Collector.Complete(m, s));
    forall i, j | 0 <= i < j < |ks| ensures ks[i] != ks[j] { assert targets[i].key != targets[j].key; }
  }

  lemma {:induction false} SizesAreWellFormed(inventory: seq<RepositoryObject>, maxBytes: int)
    requires Fits(inventory, maxBytes)
    ensures StorageBudget.WellFormed(Sizes(inventory))
  {
  }

  /** A budget can be drawn up for a planned publication unless it writes and deletes one key. */
  lemma {:induction false} BudgetDemands(s: StoreState, inventory: seq<RepositoryObject>, m: Collector.Manifest, maxBytes: int)
    requires Fits(inventory, maxBytes)
    ensures StorageBudget.WellFormed(StorageBudget.Listing(s.Contents())) && StorageBudget.WellFormed(Sizes(inventory))
    ensures Distinct(StorageBudget.KeysOf(Collector.Complete(m, s)))
    ensures KeepsApart(s, inventory, m) <==>
      forall k :: k in StorageBudget.KeysOf(Collector.Complete(m, s)) ==> k !in StorageBudget.Table(Sizes(inventory))
  {
    hide Collector.Complete, StorageBudget.Listing, StorageBudget.Table, StorageBudget.WellFormed, Sizes, Objects;
    hide StorageBudget.SizeOf, Fits;
    StorageBudget.ListingIsFaithful(s.Contents());
    SizesAreWellFormed(inventory, maxBytes);
    SizesAreTable(inventory);
    CompleteIs(m, s);
    var targets := Collector.Complete(m, s);
    var ks := StorageBudget.KeysOf(targets);
    forall t | t in targets ensures t.key in ks {
      var i :| 0 <= i < |targets| && targets[i] == t;
      assert ks[i] == t.key;
    }
    forall k | k in ks ensures exists t :: t in targets && t.key == k {
      var i :| 0 <= i < |ks| && ks[i] == k;
      assert targets[i] in targets;
    }
    assert forall k :: k in StorageBudget.Table(Sizes(inventory)) <==> k in Objects(inventory);
  }

  /** A fresh plan is carried out without error unless an immutable key holds other bytes. */
  lemma {:induction false} ExecutionDemands(s: StoreState, p: Plan, inventory: seq<RepositoryObject>)
    requires s.Valid() && p.Separated() && Splits(Objects(inventory), p) && p == Recaptured(s, p)
    ensures RunOps(s, p, UpTo(p, 12)).error.None? <==> NothingForeign(s, inventory)
  {
    hide *;
    ProgramIsUpTo(p);
    RunSucceedsIffRecoverable(s, p);
    FreshPlanIsRecoverable(s, p);
    ForeignMeans(s, p, inventory);
  }

  lemma {:induction false} ForeignMeans(s: StoreState, p: Plan, inventory: seq<RepositoryObject>)
    requires Splits(Objects(inventory), p)
    ensures NothingForeign(s, inventory) <==> forall k :: k in p.immutable ==> k !in s.objects || s.Holds(k, p.immutable[k])
  {
    hide Objects, Required, IsImmutable;
  }

  /** Behind its own pointer a collection that was planned before the publication meets no error, since the
      publication changes none of its targets. */
  lemma {:induction false} CollectionDemands(s: StoreState, published: StoreState, inventory: seq<RepositoryObject>, d: Desired,
                                             caps: Caps)
    requires published.Contents() == s.Contents() + Objects(inventory)
    requires Collectable(s, d.manifest, caps) && KeepsApart(s, inventory, d.manifest) && StateKey in Objects(inventory)
    ensures forall t :: t in Collector.Complete(d.manifest, s) ==>
      t.key != StateKey && t.key in published.objects && Collector.Matches(published.objects[t.key].content, t)
    ensures Collector.Observed(published, StateKey, d.body, d.pointer.generation) == d.manifest.generation
       <==> NamesItself(inventory, d)
  {
    hide Collector.Matches, Collector.Complete, Collector.Candidates, Objects;
    var candidates := Collector.Candidates(d.manifest.queue, d.manifest.live);
    CompleteIs(d.manifest, s);
    forall t | t in Collector.Complete(d.manifest, s)
      ensures t.key != StateKey && t.key in published.objects && Collector.Matches(published.objects[t.key].content, t)
    {
      assert Collector.Clean(t.key, candidates, s, caps.gcBytes);
      assert published.Contents()[t.key] == s.Contents()[t.key];
    }
    assert published.Contents()[StateKey] == Objects(inventory)[StateKey];
  }

  lemma {:induction false} PlanIsInventory(p: Plan, inventory: seq<RepositoryObject>, m: Collector.Manifest)
    requires Splits(Objects(inventory), p)
    ensures StateKey in Objects(inventory) && (LeavesLeaseAlone(inventory, m) ==> !p.Has(Lease.LeaseKey))
  {
    hide Objects, Required, IsImmutable, Conveniences;
    ObjectsKeys(inventory, Lease.LeaseKey);
  }

  /** No other key is touched, whatever stops the run. */
  lemma {:induction false} RunLeavesOthers(s: StoreState, p: Plan, k: Key)
    requires p.Separated()
    ensures !p.Has(k) ==> RunOps(s, p, UpTo(p, 12)).state.Get(k) == s.Get(k)
  {
    hide Plan.Has, Touches, RunOps, UpTo;
    ProgramOrder(p);
    ProgramIsUpTo(p);
    if !p.Has(k) { OpsLeaveOthers(s, p, UpTo(p, 12), k); }
  }

  lemma {:induction false} OpsLeaveOthers(s: StoreState, p: Plan, ops: seq<Op>, k: Key)
    requires !Touches(ops, k)
    ensures RunOps(s, p, ops).state.Get(k) == s.Get(k)
    decreases |ops|
  {
    if ops != [] {
      assert ops[0].key != k;
      forall i | 0 <= i < |ops[1..]| ensures ops[1..][i].key != k { assert ops[1..][i] == ops[i + 1]; }
      var r := Step(s, p, ops[0]);
      if r.Ok? { OpsLeaveOthers(r.value, p, ops[1..], k); }
    }
  }

  lemma {:induction false} CollectionLeavesLease(s: StoreState, published: StoreState, inventory: seq<RepositoryObject>,
                                                 m: Collector.Manifest, done: nat)
    requires done <= |Collector.Complete(m, s)|
    ensures LeavesLeaseAlone(inventory, m) ==>
      Collector.Swept(published, Collector.Complete(m, s)[..done]).Get(Lease.LeaseKey) == published.Get(Lease.LeaseKey)
  {
    hide Collector.Complete, Collector.Swept, Collector.Queued;
    var targets := Collector.Complete(m, s);
    Collector.PlanTargetsTombstones(m, s, Lease.LeaseKey);
    Collector.SweptObjects(published, targets[..done], Lease.LeaseKey);
    if i :| 0 <= i < done && targets[..done][i].key == Lease.LeaseKey { assert targets[i].key == Lease.LeaseKey; }
  }

  /** So its execution ends without error exactly behind its own pointer. */
  lemma {:induction false} NothingStopsCollection(published: StoreState, t: StoreState, plan: Collector.GcPlan, done: nat, d: Desired,
                                                  r: Result<seq<Key>, Collector.GcError>)
    requires forall i :: 0 <= i < |plan.targets| ==>
      && plan.targets[i].key != StateKey && plan.targets[i].key in published.objects
      && Collector.Matches(published.objects[plan.targets[i].key].content, plan.targets[i])
    requires done <= |plan.targets| && t == Collector.Swept(published, plan.targets[..done])
    requires r.Ok? && plan.targets != [] ==>
      Collector.Observed(published, StateKey, d.body, d.pointer.generation) == plan.generation
    requires r.Err? ==> r.error == Collector.GenerationChanged || r.error == Collector.Differs
    requires r.Err? && r.error == Collector.GenerationChanged ==>
      Collector.Observed(t, StateKey, d.body, d.pointer.generation) != plan.generation
    requires r.Err? && r.error == Collector.Differs ==>
      && done < |plan.targets| && plan.targets[done].key in t.objects
      && !Collector.Matches(t.objects[plan.targets[done].key].content, plan.targets[done])
    requires r.Err? ==> plan.targets != []
    ensures r.Ok? <==>
      plan.targets == [] || Collector.Observed(published, StateKey, d.body, d.pointer.generation) == plan.generation
  {
    hide Collector.Matches, Collector.Swept;
    Collector.SweptObjects(published, plan.targets[..done], StateKey);
    assert !Collector.Targets(plan.targets[..done], StateKey);
    if r.Err? && r.error == Collector.Differs {
      Collector.SweptObjects(published, plan.targets[..done], plan.targets[done].key);
    }
  }

  /** Between acquiring and releasing, without other writers and with the lease renewals left out. */
  method Mutate(store: ConditionalObjectStore, inventory: seq<RepositoryObject>, d: Desired,
                decode: Body -> Option<StatePointer>, caps: Caps)
    returns (r: Result<Summary, PublishError>)
    requires store.State().Valid() && Lease.LeaseKey in store.State().objects
    modifies store
    ensures r.Ok? ==>
      && store.State().Contents() == Intended(old(store.State()), inventory, d.manifest)
      && var projected := ProjectedSizes(old(store.State()), inventory, d.manifest);
      && StorageBudget.SizesOf(store.State().Contents()) == projected
      && r.value.objectCount == |projected| && r.value.size == StorageBudget.Sum(projected)
      && (d.maxBytes.Some? ==> r.value.size <= d.maxBytes.value)
    ensures r.Ok? <==> GoesThrough(old(store.State()), inventory, d, decode, caps)
    ensures Answers(old(store.State()), inventory, d, decode, caps, r)
    ensures r.Err? && IsRefusal(r.error) ==> store.State() == old(store.State())
    ensures LeavesLeaseAlone(inventory, d.manifest) ==>
      store.State().Get(Lease.LeaseKey) == old(store.State()).Get(Lease.LeaseKey)
  {
    hide FollowsCurrent, WithinLimit, Plannable, Objects, Splits, Recaptured, Fits, Sizes, Intended, IsOnlyTransaction, UpTo, RunOps;
    hide FitsLimit, ProjectedSizes, OnlyAt, StoreState.Holds, IsRestOf, Conveniences, SameButLease;
    hide LeavesLeaseAlone, Required, IsImmutable, KeepsApart, NothingForeign, NamesItself, Plan.Separated, StoreState.Valid;
    hide Collector.AllClean, Collector.Candidates, Collector.Complete, Collector.Total, Collector.Changed, Collector.Swept;
    hide Collector.Observed, Collector.Matches, Collector.Targets, Collector.Describes, Distinct, StoreState.Contents;
    hide StorageBudget.KeysOf, StorageBudget.Projected, StorageBudget.Listing, StorageBudget.Table, StorageBudget.WellFormed;
    hide StorageBudget.SizesOf, StorageBudget.Sum;
    Refusals();
    WithinMeans(d);
    ghost var before := store.State();
    var pointer := store.Get(StateKey);
    if !FollowsCurrent(store.State(), d, decode) {
      return Err(DoesNotFollow);
    }
    var planned := PlanRepository(inventory, store, caps.objectBytes);
    if planned.Err? {
      return Err(PlanFailed(planned.error));
    }
    var plan := planned.value;
    var collection := Collector.PlanGc(d.manifest, store, caps.gcObjects, caps.gcBytes);
    if collection.Err? {
      return Err(GcPlanFailed(collection.error));
    }
    var targets := collection.value.targets;
    var contents := store.State().Contents();
    var listing := StorageBudget.Listing(contents);
    PlannableNeeds(inventory, caps.objectBytes);
    BudgetDemands(before, inventory, d.manifest, caps.objectBytes);
    var projection := StorageBudget.ProjectStorage(listing, Sizes(inventory), StorageBudget.KeysOf(targets));
    if projection.Err? {
      return Err(BudgetFailed(projection.error));
    }
    ProjectedSizesMean(before, inventory, d.manifest);
    FitsProjection(before, inventory, d);
    if !WithinLimit(d, projection.value.size) {
      return Err(ProjectedOverLimit);
    }
    ExecutionDemands(before, plan, inventory);
    PlanIsInventory(plan, inventory, d.manifest);
    var executor := new PublicationExecutor(store);
    var failure := executor.Execute(plan, None);
    RunLeavesOthers(before, plan, Lease.LeaseKey);
    if failure.Some? {
      return Err(ExecutionFailed(failure.value));
    }
    Executed(before, store.State(), plan, inventory);
    ghost var published := store.State();
    CollectionDemands(before, published, inventory, d, caps);
    var deleted, done := Collector.ExecuteGc(collection.value, store, StateKey, d.body, d.pointer.generation);
    NothingStopsCollection(published, store.State(), collection.value, done, d, deleted);
    CollectionLeavesLease(before, published, inventory, d.manifest, done);
    if deleted.Err? {
      return Err(GcFailed(deleted.error));
    }
    assert targets[..|targets|] == targets;
    Collected(before, published, inventory, d.manifest);
    return Ok(Summary(projection.value.objectCount, projection.value.size, deleted.value));
  }

  lemma {:induction false} Refusals()
    ensures forall e: PublishError :: IsRefusal(e) <==>
      e.DoesNotFollow? || e.PlanFailed? || e.GcPlanFailed? || e.BudgetFailed? || e.ProjectedOverLimit?
  {
  }

  lemma {:induction false} Executed(s: StoreState, t: StoreState, p: Plan, inventory: seq<RepositoryObject>)
    requires s.Valid() && p.Separated() && Splits(Objects(inventory), p)
    requires Run(t, None) == RunOps(s, p, UpTo(p, 12))
    ensures Recoverable(s, p) && t.Contents() == s.Contents() + Objects(inventory)
  {
    hide *;
    ProgramIsUpTo(p);
    RunSucceedsIffRecoverable(s, p);
    NothingHappens(s, p);
    CrashRecovery(s, p, []);
    PlanWritesInventory(Objects(inventory), p);
  }

  lemma {:induction false} ProgramIsUpTo(p: Plan)
    ensures Program(p) == UpTo(p, 12)
  {
    hide UpTo;
  }

  lemma {:induction false} NothingHappens(s: StoreState, p: Plan)
    ensures PublicationRuns.AllEnabled(Config(s, p, 0), [])
  {
  }

  lemma {:induction false} SizesAreTable(inventory: seq<RepositoryObject>)
    ensures StorageBudget.Table(Sizes(inventory)) == StorageBudget.SizesOf(Objects(inventory))
  {
    if inventory != [] {
      var rest, last := inventory[..|inventory| - 1], inventory[|inventory| - 1];
      SizesAreTable(rest);
      assert Sizes(inventory)[..|rest|] == Sizes(rest);
      assert StorageBudget.SizesOf(Objects(rest)[last.key := last.content])
          == StorageBudget.SizesOf(Objects(rest))[last.key := StorageBudget.SizeOf(last.content)];
    }
  }

  lemma {:induction false} Collected(s: StoreState, published: StoreState, inventory: seq<RepositoryObject>, m: Collector.Manifest)
    requires published.Contents() == s.Contents() + Objects(inventory)
    ensures Collector.Swept(published, Collector.Complete(m, s)).Contents() == Intended(s, inventory, m)
    ensures StorageBudget.SizesOf(Intended(s, inventory, m)) == ProjectedSizes(s, inventory, m)
  {
    hide *;
    StorageBudget.SweptContents(published, Collector.Complete(m, s));
    IntendedMeans(s, inventory, m);
    ProjectionIsIntended(s, inventory, m);
  }

  /** The projection counts exactly the intended namespace. */
  lemma {:induction false} ProjectionIsIntended(s: StoreState, inventory: seq<RepositoryObject>, m: Collector.Manifest)
    ensures StorageBudget.SizesOf(Intended(s, inventory, m)) == ProjectedSizes(s, inventory, m)
  {
    hide *;
    var targets := Collector.Complete(m, s);
    IntendedMeans(s, inventory, m);
    StorageBudget.ListingIsFaithful(s.Contents());
    SizesAreTable(inventory);
    ProjectedSizesMean(s, inventory, m);
    StorageBudget.ProjectedMeans(StorageBudget.Listing(s.Contents()), Sizes(inventory), StorageBudget.KeysOf(targets));
    SizesOfOutcome(s.Contents(), Objects(inventory), set k | k in StorageBudget.KeysOf(targets));
  }

  lemma {:induction false} ProjectedSizesMean(s: StoreState, inventory: seq<RepositoryObject>, m: Collector.Manifest)
    ensures ProjectedSizes(s, inventory, m) == StorageBudget.Projected(
              StorageBudget.Listing(s.Contents()), Sizes(inventory), StorageBudget.KeysOf(Collector.Complete(m, s)))
  {
  }

  lemma {:induction false} IntendedMeans(s: StoreState, inventory: seq<RepositoryObject>, m: Collector.Manifest)
    ensures Intended(s, inventory, m)
         == s.Contents() + Objects(inventory) - set k | k in StorageBudget.KeysOf(Collector.Complete(m, s))
  {
  }

  lemma {:induction false} SizesOfOutcome(a: map<Key, Object>, b: map<Key, Object>, deleted: set<Key>)
    ensures StorageBudget.SizesOf(a + b - deleted) == StorageBudget.SizesOf(a) + StorageBudget.SizesOf(b) - deleted
  {
    hide StorageBudget.SizeOf;
  }

  // ---- With the lease around it ----

  /** The inventory and the tombstones have nothing to do with the lease object. */
  predicate LeavesLeaseAlone(inventory: seq<RepositoryObject>, m: Collector.Manifest) {
    (forall i :: 0 <= i < |inventory| ==> inventory[i].key != Lease.LeaseKey) && !Collector.Queued(m.queue, Lease.LeaseKey)
  }

  predicate IsFree(s: StoreState) {
    s.Get(Lease.LeaseKey).Some? && Lease.Exact(s.Get(Lease.LeaseKey).value).Some?
    && Lease.Exact(s.Get(Lease.LeaseKey).value).value.Free?
  }

  /** An absent or free lease, the caller's own while it lasts, or somebody else's with the proof that its
      run has ended and after the grace. */
  predicate CanAcquire(current: Option<Stored>, owner: LeaseOwner, now: int, limits: Lease.Limits, terminal: bool) {
    current.None? || (Lease.Exact(current.value).Some? &&
      var record := Lease.Exact(current.value).value;
      || record.Free?
      || (record.owner == owner && Lease.Seconds(now) < record.expires)
      || (record.owner != owner && terminal && Lease.Seconds(now) >= record.expires + limits.grace))
  }

  /** Without other writers a run succeeds if and only if the lease can be acquired and every demand is
      met. It then leaves, apart from the lease, exactly the intended namespace and reports its measured
      count and size. A lease that cannot be acquired stays as it is, and otherwise it ends free, also after
      an error; refusals before the first write change nothing else. */
  method Publish(manager: Lease.LeaseManager, owner: LeaseOwner, terminal: bool, now: int, later: int,
                 inventory: seq<RepositoryObject>, d: Desired, decode: Body -> Option<StatePointer>, caps: Caps)
    returns (r: Result<Summary, PublishError>)
    requires manager.store.State().Valid() && LeavesLeaseAlone(inventory, d.manifest)
    modifies manager.store
    ensures r.Ok? <==>
      && CanAcquire(old(manager.store.State()).Get(Lease.LeaseKey), owner, now, manager.limits, terminal)
      && GoesThrough(old(manager.store.State()), inventory, d, decode, caps)
    ensures if CanAcquire(old(manager.store.State()).Get(Lease.LeaseKey), owner, now, manager.limits, terminal)
            then Answers(old(manager.store.State()), inventory, d, decode, caps, r) && IsFree(manager.store.State())
            else r.Err? && r.error.AcquireFailed? && manager.store.State() == old(manager.store.State())
    ensures r.Ok? ==>
      && SameButLease(manager.store.State().Contents(), Intended(old(manager.store.State()), inventory, d.manifest))
      && r.value.objectCount == |manager.store.State().Contents()|
      && r.value.size == StorageBudget.Sum(StorageBudget.SizesOf(manager.store.State().Contents()))
      && (d.maxBytes.Some? ==> r.value.size <= d.maxBytes.value)
    ensures r.Err? && IsRefusal(r.error) ==>
      SameButLease(manager.store.State().Contents(), old(manager.store.State()).Contents())
  {
    hide *;
    WithinMeans(d);
    var store := manager.store;
    ghost var start := store.State();
    var acquired := manager.Acquire(owner, now, terminal, []);
    ghost var held := store.State();
    AcquiredIff(start, held, owner, now, manager.limits, terminal, acquired);
    if acquired.Err? {
      Refusals();
      return Err(AcquireFailed(acquired.error));
    }
    Acquired(start, held, owner, now, manager.limits, terminal, acquired);
    r := Mutate(store, inventory, d, decode, caps);
    ghost var mutated := store.State();
    SameAnswers(start, held, inventory, d, decode, caps, r);
    IgnoresLease(start, held, inventory, d, decode);
    var released := manager.Release(acquired.value, later, []);
    Released(mutated, store.State(), acquired.value, later, released);
    Refusals();
    SuccessIsGoingThrough(start, inventory, d, decode, caps);
    if r.Err? {
      SameTwice(store.State().Contents(), held.Contents(), start.Contents());
      return;
    }
    OnlyLeaseDiffers(mutated, store.State(), Intended(held, inventory, d.manifest), Intended(start, inventory, d.manifest));
    match released {
      case Err(e) => return Err(ReleaseFailed(e));
      case Ok(_) =>
    }
    var contents := store.State().Contents();
    var size := StorageBudget.Add(StorageBudget.SizesOf(contents));
    FreeIsWeightless(store.State());
    SameSum(mutated, store.State());
    if !WithinLimit(d, size) {
      return Err(CommittedOverLimit);
    }
    return Ok(Summary(|contents|, size, r.value.deleted));
  }

  /** The lease object does not count. */
  predicate Weightless(contents: map<Key, Object>) {
    Lease.LeaseKey in contents ==> StorageBudget.SizeOf(contents[Lease.LeaseKey]) == 0
  }

  lemma {:induction false} FreeIsWeightless(s: StoreState)
    ensures Lease.IsHeld(s.Get(Lease.LeaseKey)) || IsFree(s) ==> Weightless(s.Contents())
  {
  }

  lemma {:induction false} SumIgnoresLease(a: map<Key, Object>, b: map<Key, Object>)
    requires SameButLease(a, b) && Weightless(a) && Weightless(b)
    ensures StorageBudget.Sum(StorageBudget.SizesOf(a)) == StorageBudget.Sum(StorageBudget.SizesOf(b))
  {
    hide StorageBudget.Sum, StorageBudget.SizeOf;
    SumWithoutLease(a);
    SumWithoutLease(b);
  }

  lemma {:induction false} SumWithoutLease(a: map<Key, Object>)
    requires Weightless(a)
    ensures StorageBudget.Sum(StorageBudget.SizesOf(a)) == StorageBudget.Sum(StorageBudget.SizesOf(a - {Lease.LeaseKey}))
  {
    hide StorageBudget.Sum, StorageBudget.SizeOf;
    assert StorageBudget.SizesOf(a - {Lease.LeaseKey}) == StorageBudget.SizesOf(a) - {Lease.LeaseKey};
    if Lease.LeaseKey in a {
      StorageBudget.SumWithout(StorageBudget.SizesOf(a), Lease.LeaseKey);
    } else {
      assert a - {Lease.LeaseKey} == a;
    }
  }

  lemma {:induction false} SameSum(s: StoreState, t: StoreState)
    requires SameButLease(t.Contents(), s.Contents()) && Weightless(s.Contents()) && Weightless(t.Contents())
    ensures StorageBudget.Sum(StorageBudget.SizesOf(t.Contents())) == StorageBudget.Sum(StorageBudget.SizesOf(s.Contents()))
  {
    hide StorageBudget.Sum, SameButLease, Weightless, StoreState.Contents;
    SumIgnoresLease(t.Contents(), s.Contents());
  }

  lemma {:induction false} AcquiredIff(s: StoreState, t: StoreState, owner: LeaseOwner, now: int, limits: Lease.Limits,
                                       terminal: bool, r: Result<Lease.LeaseHandle, Lease.LeaseError>)
    requires s.Valid()
    requires Lease.CarriedOut(s, [], t, Lease.DecideAcquire(s.Get(Lease.LeaseKey), owner, now, limits, terminal), owner, r)
    ensures r.Ok? <==> CanAcquire(s.Get(Lease.LeaseKey), owner, now, limits, terminal)
    ensures r.Err? ==> t == s
    ensures r.Ok? ==> Weightless(s.Contents()) && Lease.IsHolder(t.Get(Lease.LeaseKey), r.value)
  {
  }

  /** Whether the lease is held or not, a publication gets the same answer. */
  lemma {:induction false} SameAnswers(s: StoreState, t: StoreState, inventory: seq<RepositoryObject>, d: Desired,
                                       decode: Body -> Option<StatePointer>, caps: Caps, r: Result<Summary, PublishError>)
    requires OnlyAt(s, t, Lease.LeaseKey) && LeavesLeaseAlone(inventory, d.manifest)
    requires Weightless(s.Contents()) && Weightless(t.Contents())
    ensures Answers(s, inventory, d, decode, caps, r) <==> Answers(t, inventory, d, decode, caps, r)
  {
    hide FollowsCurrent, Plannable, LeavesLeaseAlone, NothingForeign, Collector.Complete, FitsLimit, NamesItself, OnlyAt;
    hide Collectable, Weightless, StoreState.Contents;
    SamePointer(s, t, d, decode);
    NotAmongObjects(inventory, d.manifest);
    SameTargets(s, t, d.manifest);
    SameCollectable(s, t, d.manifest, caps);
    SameForeign(s, t, inventory);
    SameProjection(s, t, inventory, d);
  }

  lemma {:induction false} SameCollectable(s: StoreState, t: StoreState, m: Collector.Manifest, caps: Caps)
    requires OnlyAt(s, t, Lease.LeaseKey) && !Collector.Queued(m.queue, Lease.LeaseKey)
    ensures Collectable(s, m, caps) <==> Collectable(t, m, caps)
  {
    hide Collector.Candidates, Collector.Queued, Collector.Complete, Collector.Matches;
    SameTargets(s, t, m);
    Collector.CandidateKeys(m.queue, m.live, Lease.LeaseKey);
    var candidates := Collector.Candidates(m.queue, m.live);
    forall k | k in candidates
      ensures Collector.Clean(k, candidates, s, caps.gcBytes) <==> Collector.Clean(k, candidates, t, caps.gcBytes)
    {
      assert s.Get(k) == t.Get(k);
    }
  }

  lemma {:induction false} SameForeign(s: StoreState, t: StoreState, inventory: seq<RepositoryObject>)
    requires OnlyAt(s, t, Lease.LeaseKey) && Lease.LeaseKey !in Objects(inventory)
    ensures NothingForeign(s, inventory) <==> NothingForeign(t, inventory)
  {
    hide Objects, Required, IsImmutable;
    forall k | k in Objects(inventory)
      ensures k in s.objects <==> k in t.objects
      ensures k in s.objects ==> s.objects[k] == t.objects[k]
    {
      assert s.Get(k) == t.Get(k);
    }
  }

  lemma {:induction false} SameProjection(s: StoreState, t: StoreState, inventory: seq<RepositoryObject>, d: Desired)
    requires OnlyAt(s, t, Lease.LeaseKey) && Lease.LeaseKey !in Objects(inventory)
    requires !Collector.Queued(d.manifest.queue, Lease.LeaseKey)
    requires Weightless(s.Contents()) && Weightless(t.Contents())
    ensures FitsLimit(s, inventory, d) <==> FitsLimit(t, inventory, d)
  {
    hide *;
    FitsMeans(s, inventory, d);
    FitsMeans(t, inventory, d);
    SameContents(s, t);
    SameTargets(s, t, d.manifest);
    IntendedMeans(s, inventory, d.manifest);
    IntendedMeans(t, inventory, d.manifest);
    IntendedAgree(s.Contents(), t.Contents(), Objects(inventory), set k | k in StorageBudget.KeysOf(Collector.Complete(d.manifest, s)));
    IntendedIsWeightless(s, inventory, d.manifest);
    IntendedIsWeightless(t, inventory, d.manifest);
    SumIgnoresLease(Intended(t, inventory, d.manifest), Intended(s, inventory, d.manifest));
  }

  lemma {:induction false} IntendedIsWeightless(s: StoreState, inventory: seq<RepositoryObject>, m: Collector.Manifest)
    requires Weightless(s.Contents()) && Lease.LeaseKey !in Objects(inventory)
    ensures Weightless(Intended(s, inventory, m))
  {
    hide Objects, Collector.Complete, StorageBudget.SizeOf, StoreState.Contents;
  }

  lemma {:induction false} FitsMeans(s: StoreState, inventory: seq<RepositoryObject>, d: Desired)
    ensures FitsLimit(s, inventory, d) <==>
      WithinLimit(d, StorageBudget.Sum(StorageBudget.SizesOf(Intended(s, inventory, d.manifest))))
  {
    hide *;
    ProjectionIsIntended(s, inventory, d.manifest);
    FitsProjection(s, inventory, d);
  }

  lemma {:induction false} WithinMeans(d: Desired)
    ensures forall size :: WithinLimit(d, size) <==> (d.maxBytes.Some? ==> size <= d.maxBytes.value)
  {
  }

  lemma {:induction false} FitsProjection(s: StoreState, inventory: seq<RepositoryObject>, d: Desired)
    ensures FitsLimit(s, inventory, d) <==> WithinLimit(d, StorageBudget.Sum(ProjectedSizes(s, inventory, d.manifest)))
  {
  }

  lemma {:induction false} Acquired(s: StoreState, t: StoreState, owner: LeaseOwner, now: int, limits: Lease.Limits,
                                    terminal: bool, r: Result<Lease.LeaseHandle, Lease.LeaseError>)
    requires s.Valid() && r.Ok?
    requires Lease.CarriedOut(s, [], t, Lease.DecideAcquire(s.Get(Lease.LeaseKey), owner, now, limits, terminal), owner, r)
    ensures t.Valid() && Lease.LeaseKey in t.objects && OnlyAt(s, t, Lease.LeaseKey)
    ensures Weightless(t.Contents())
  {
  }

  lemma {:induction false} Released(s: StoreState, t: StoreState, handle: Lease.LeaseHandle, later: int,
                                    r: Result<Lease.LeaseHandle, Lease.LeaseError>)
    requires Lease.CarriedOut(s, [], t, Lease.DecideRelease(s.Get(Lease.LeaseKey), handle, later), handle.owner, r)
    requires Lease.IsHolder(s.Get(Lease.LeaseKey), handle)
    ensures r.Ok? && IsFree(t) && SameButLease(t.Contents(), s.Contents()) && Weightless(s.Contents())
  {
  }

  /** Holding the lease changes nothing that the run looks at. */
  lemma {:induction false} IgnoresLease(s: StoreState, t: StoreState, inventory: seq<RepositoryObject>, d: Desired,
                                        decode: Body -> Option<StatePointer>)
    requires OnlyAt(s, t, Lease.LeaseKey) && LeavesLeaseAlone(inventory, d.manifest)
    ensures FollowsCurrent(s, d, decode) <==> FollowsCurrent(t, d, decode)
    ensures SameButLease(t.Contents(), s.Contents())
    ensures SameButLease(Intended(t, inventory, d.manifest), Intended(s, inventory, d.manifest))
  {
    hide *;
    SamePointer(s, t, d, decode);
    SameContents(s, t);
    NotAmongObjects(inventory, d.manifest);
    SameTargets(s, t, d.manifest);
    IntendedMeans(s, inventory, d.manifest);
    IntendedMeans(t, inventory, d.manifest);
    IntendedAgree(s.Contents(), t.Contents(), Objects(inventory), set k | k in StorageBudget.KeysOf(Collector.Complete(d.manifest, s)));
  }

  lemma {:induction false} SameTwice(a: map<Key, Object>, b: map<Key, Object>, c: map<Key, Object>)
    ensures SameButLease(a, b) && SameButLease(b, c) ==> SameButLease(a, c)
  {
  }

  lemma {:induction false} SamePointer(s: StoreState, t: StoreState, d: Desired, decode: Body -> Option<StatePointer>)
    requires OnlyAt(s, t, Lease.LeaseKey)
    ensures FollowsCurrent(s, d, decode) <==> FollowsCurrent(t, d, decode)
  {
    assert StateKey != Lease.LeaseKey;
    assert s.Get(StateKey) == t.Get(StateKey);
  }

  lemma {:induction false} SameContents(s: StoreState, t: StoreState)
    requires OnlyAt(s, t, Lease.LeaseKey)
    ensures SameButLease(t.Contents(), s.Contents())
  {
    forall k | k != Lease.LeaseKey
      ensures k in s.objects <==> k in t.objects
      ensures k in s.objects ==> s.objects[k] == t.objects[k]
    {
      assert s.Get(k) == t.Get(k);
    }
  }

  lemma {:induction false} SameTargets(s: StoreState, t: StoreState, m: Collector.Manifest)
    requires OnlyAt(s, t, Lease.LeaseKey) && !Collector.Queued(m.queue, Lease.LeaseKey)
    ensures Collector.Complete(m, s) == Collector.Complete(m, t)
  {
    hide Collector.Candidates, Collector.Queued;
    var candidates := Collector.Candidates(m.queue, m.live);
    Collector.CandidateKeys(m.queue, m.live, Lease.LeaseKey);
    SameExisting(Sorted(candidates.Keys), candidates, s, t);
  }

  lemma {:induction false} SameExisting(ks: seq<Key>, candidates: map<Key, Collector.GcTarget>, s: StoreState, t: StoreState)
    requires OnlyAt(s, t, Lease.LeaseKey) && Lease.LeaseKey !in ks && forall k :: k in ks ==> k in candidates
    ensures Collector.Existing(ks, candidates, s) == Collector.Existing(ks, candidates, t)
  {
    if ks != [] {
      SameExisting(ks[..|ks| - 1], candidates, s, t);
      assert s.Get(ks[|ks| - 1]) == t.Get(ks[|ks| - 1]);
    }
  }

  lemma {:induction false} NotAmongObjects(inventory: seq<RepositoryObject>, m: Collector.Manifest)
    requires LeavesLeaseAlone(inventory, m)
    ensures Lease.LeaseKey !in Objects(inventory) && !Collector.Queued(m.queue, Lease.LeaseKey)
  {
    ObjectsKeys(inventory, Lease.LeaseKey);
  }

  lemma {:induction false} IntendedAgree(a: map<Key, Object>, b: map<Key, Object>, written: map<Key, Object>, deleted: set<Key>)
    requires SameButLease(b, a)
    ensures SameButLease(b + written - deleted, a + written - deleted)
  {
    forall k | k != Lease.LeaseKey
      ensures k in a <==> k in b
      ensures k in a ==> a[k] == b[k]
    {
      assert k in a <==> k in a - {Lease.LeaseKey};
      assert k in b <==> k in b - {Lease.LeaseKey};
      if k in a { assert a[k] == (a - {Lease.LeaseKey})[k] == (b - {Lease.LeaseKey})[k]; }
    }
  }

  lemma {:induction false} OnlyLeaseDiffers(s: StoreState, t: StoreState, intended: map<Key, Object>, wanted: map<Key, Object>)
    requires SameButLease(t.Contents(), s.Contents()) && s.Contents() == intended && SameButLease(intended, wanted)
    ensures SameButLease(t.Contents(), wanted)
  {
  }
}
