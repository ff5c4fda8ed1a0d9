/** The operations of a publication and of a collection on the store are events of the generations. */
module GenerationSteps {
  import opened Outcome
  import opened Keys
  import opened Store
  import opened Publication
  import PublicationRuns
  import Collector
  import Generations

  /** The immutable objects as the generations see them. */
  function View(s: StoreState): map<Key, Collector.Digest> {
    map k | k in s.objects && Collector.ImmutableKey(k) && s.objects[k].content.body.Bytes? :: s.objects[k].content.body.data
  }

  /** Bytes that caches may keep for good. */
  predicate Lasting(o: Object) { o.body.Bytes? && EndsWith(o.metadata.cacheControl, "immutable") }

  ghost predicate Plain(s: StoreState) {
    forall k :: k in s.objects && Collector.ImmutableKey(k) ==> Lasting(s.objects[k].content)
  }

  /** The plan publishes the manifest: its pool and by-hash objects are the live ones, byte for byte. */
  ghost predicate Carries(p: Plan, m: Collector.Manifest) {
    && (forall k :: p.IsMutable(k) ==> !Collector.ImmutableKey(k))
    && (forall k :: Collector.ImmutableKey(k) ==> (k in p.immutable <==> k in m.live))
    && forall k :: k in p.immutable && Collector.ImmutableKey(k) ==>
         Lasting(p.immutable[k]) && Generations.HasDigest(m, k, p.immutable[k].body.data)
  }

  /** The store of a publisher and the world it is part of. */
  ghost predicate Related(s: StoreState, w: Generations.World, p: Plan, id: Generations.Id, m: Collector.Manifest) {
    && s.Valid() && Plain(s) && View(s) == w.objects
    && id in w.publishers && w.publishers[id].desired == m
    && PointerAgrees(s, w, p, id, m)
  }

  /** The pointer shows the manifest only if that is authoritative, and the publisher's precondition
      holds only if it captured the present version. */
  predicate PointerAgrees(s: StoreState, w: Generations.World, p: Plan, id: Generations.Id, m: Collector.Manifest) {
    if s.Holds(p.stateKey, p.pointer) then w.head == Some(m)
    else Met(s, p.stateKey, p.Precondition(p.stateKey)) ==>
           id in w.publishers && w.publishers[id].captured == Some(w.version)
  }

  ghost predicate Uploaded(w: Generations.World, id: Generations.Id, ops: seq<Op>) {
    forall k :: Touches(ops, k) && Collector.ImmutableKey(k) ==> id in w.publishers && k in w.publishers[id].uploaded
  }

  predicate InTime(w: Generations.World, id: Generations.Id) {
    id in w.publishers && Generations.CapturedInTime(w.publishers[id])
  }

  /** What a simulating sequence of events has to achieve. */
  ghost predicate Simulates(w: Generations.World, es: seq<Generations.Event>, t: StoreState, p: Plan, id: Generations.Id,
                            m: Collector.Manifest, ops: seq<Op>) {
    && Generations.AllEnabled(w, es) && Related(t, Generations.Run(w, es), p, id, m)
    && Uploaded(Generations.Run(w, es), id, ops)
    && (InTime(w, id) ==> Generations.AllTimely(w, es) && InTime(Generations.Run(w, es), id))
  }

  lemma {:induction false} NoEvent(w: Generations.World)
    ensures Generations.AllEnabled(w, []) && Generations.AllTimely(w, []) && Generations.Run(w, []) == w
  {
  }

  lemma {:induction false} UploadedMore(w: Generations.World, id: Generations.Id, ops: seq<Op>, op: Op)
    requires Uploaded(w, id, ops)
    requires Collector.ImmutableKey(op.key) ==> id in w.publishers && op.key in w.publishers[id].uploaded
    ensures Uploaded(w, id, ops + [op])
  {
    forall k | Touches(ops + [op], k) && Collector.ImmutableKey(k) ensures id in w.publishers && k in w.publishers[id].uploaded {
      TouchesAppended(ops, [op], k);
    }
  }

  /** Writing a key that is not immutable changes nothing that the generations see. */
  lemma {:induction false} MutableIsInvisible(s: StoreState, t: StoreState, k: Key)
    requires PublicationRuns.OnlyAt(s, t, k) && !Collector.ImmutableKey(k) && Plain(s)
    ensures View(t) == View(s) && Plain(t)
  {
    hide Collector.ImmutableKey;
    forall l | Collector.ImmutableKey(l)
      ensures l in s.objects <==> l in t.objects
      ensures l in s.objects ==> s.objects[l] == t.objects[l]
    {
      assert s.Get(l) == t.Get(l);
    }
  }

  lemma {:induction false} PointerElsewhere(s: StoreState, t: StoreState, w: Generations.World, p: Plan, id: Generations.Id,
                                            m: Collector.Manifest, k: Key)
    requires PublicationRuns.OnlyAt(s, t, k) && k != p.stateKey && PointerAgrees(s, w, p, id, m)
    ensures PointerAgrees(t, w, p, id, m)
  {
    assert s.Get(p.stateKey) == t.Get(p.stateKey);
  }

  /** Creating an immutable object is an upload. */
  lemma {:induction false} CreateIsUpload(s: StoreState, w: Generations.World, p: Plan, id: Generations.Id, m: Collector.Manifest, k: Key)
    requires Related(s, w, p, id, m) && p.Separated() && Carries(p, m) && k in p.immutable && Collector.ImmutableKey(k)
    requires CreateStep(s, k, p.immutable[k]).Ok?
    ensures p.immutable[k].body.Bytes?
    ensures var e, t := Generations.Upload(id, k, p.immutable[k].body.data), CreateStep(s, k, p.immutable[k]).value;
      && Generations.Enabled(w, e) && Generations.Timely(w, e)
      && Related(t, Generations.Next(w, e), p, id, m) && PublicationRuns.OnlyAt(s, t, k)
  {
    hide Collector.ImmutableKey, Generations.HasDigest, View;
    WrittenIsValid(s, k, p.immutable[k]);
    var t := CreateStep(s, k, p.immutable[k]).value;
    CreationIsVisible(s, k, p.immutable[k]);
    assert p.stateKey != k;
    hide Plain;
    assert PublicationRuns.OnlyAt(s, t, k);
    hide StoreState.Valid;
    UploadKeepsPointer(s, t, w, p, id, m, k, p.immutable[k].body.data);
  }

  lemma {:induction false} UploadKeepsPointer(s: StoreState, t: StoreState, w: Generations.World, p: Plan, id: Generations.Id,
                                              m: Collector.Manifest, k: Key, d: Collector.Digest)
    requires PublicationRuns.OnlyAt(s, t, k) && k != p.stateKey && PointerAgrees(s, w, p, id, m)
    ensures PointerAgrees(t, Generations.Next(w, Generations.Upload(id, k, d)), p, id, m)
  {
    assert s.Get(p.stateKey) == t.Get(p.stateKey);
  }

  lemma {:induction false} CreationIsVisible(s: StoreState, k: Key, o: Object)
    requires CreateStep(s, k, o).Ok? && Collector.ImmutableKey(k) && Lasting(o) && Plain(s)
    ensures var t := CreateStep(s, k, o).value;
      View(t) == View(s)[k := o.body.data] && Plain(t) && (k in View(s) ==> View(s)[k] == o.body.data)
  {
    hide Collector.ImmutableKey;
    if k in s.objects { assert View(s)[k] == o.body.data; }
  }

  lemma {:induction false} DeletionIsVisible(s: StoreState, k: Key)
    requires Plain(s)
    ensures View(s.Without(k)) == View(s) - {k} && Plain(s.Without(k))
  {
    hide Collector.ImmutableKey;
  }

  /** Writing the pointer is a commit. */
  lemma {:induction false} PointerIsCommit(s: StoreState, w: Generations.World, p: Plan, id: Generations.Id, m: Collector.Manifest,
                                           earlier: seq<Op>)
    requires Related(s, w, p, id, m) && p.Separated() && Carries(p, m) && Uploaded(w, id, earlier)
    requires Allowed(p, earlier, Op(Replace, p.stateKey))
    requires !s.Holds(p.stateKey, p.pointer) && Met(s, p.stateKey, p.Precondition(p.stateKey))
    ensures var e, t := Generations.Commit(id), s.Written(p.stateKey, p.pointer);
      && Generations.Enabled(w, e) && (InTime(w, id) ==> Generations.Timely(w, e))
      && Related(t, Generations.Next(w, e), p, id, m) && PublicationRuns.OnlyAt(s, t, p.stateKey)
  {
    hide Collector.ImmutableKey, Generations.HasDigest, Touches;
    var t := s.Written(p.stateKey, p.pointer);
    WrittenIsValid(s, p.stateKey, p.pointer);
    MutableIsInvisible(s, t, p.stateKey);
    forall k | Generations.LiveImmutable(m, k) ensures k in w.publishers[id].uploaded {
      assert p.Has(k) && k != p.stateKey;
    }
  }

  /** Every operation of a publication that succeeds is at most one event: an upload, the commit, or
      nothing that the generations see. */
  lemma {:induction false} StepSimulates(s: StoreState, w: Generations.World, p: Plan, id: Generations.Id, m: Collector.Manifest,
                                         earlier: seq<Op>, op: Op) returns (es: seq<Generations.Event>)
    requires Related(s, w, p, id, m) && p.Separated() && Carries(p, m) && Uploaded(w, id, earlier)
    requires Allowed(p, earlier, op) && Step(s, p, op).Ok?
    ensures |es| <= 1 && Simulates(w, es, Step(s, p, op).value, p, id, m, earlier + [op])
  {
    hide *;
    var t := Step(s, p, op).value;
    NoEvent(w);
    OpFacts(s, w, p, id, m, earlier, op);
    RelatedPublisher(s, w, p, id, m);
    if op.kind == Create && Collector.ImmutableKey(op.key) {
      CreateIsUpload(s, w, p, id, m, op.key);
      es := [Generations.Upload(id, op.key, p.immutable[op.key].body.data)];
      UploadCounts(w, id, earlier, op, p.immutable[op.key].body.data);
      Generations.RunSingle(w, es[0]);
    } else if op == Op(Replace, p.stateKey) && !s.Holds(p.stateKey, p.pointer) {
      PointerIsCommit(s, w, p, id, m, earlier);
      es := [Generations.Commit(id)];
      CommitCounts(w, id, earlier, op);
      Generations.RunSingle(w, es[0]);
    } else {
      es := [];
      QuietStep(s, w, p, id, m, earlier, op);
    }
    SimulatesMeans(w, es, t, p, id, m, earlier + [op]);
  }

  lemma {:induction false} RelatedPublisher(s: StoreState, w: Generations.World, p: Plan, id: Generations.Id, m: Collector.Manifest)
    requires Related(s, w, p, id, m)
    ensures id in w.publishers && s.Valid()
  {
  }

  lemma {:induction false} SimulatesMeans(w: Generations.World, es: seq<Generations.Event>, t: StoreState, p: Plan, id: Generations.Id,
                                          m: Collector.Manifest, ops: seq<Op>)
    ensures Simulates(w, es, t, p, id, m, ops) <==>
      && Generations.AllEnabled(w, es) && Related(t, Generations.Run(w, es), p, id, m)
      && Uploaded(Generations.Run(w, es), id, ops)
      && (InTime(w, id) ==> Generations.AllTimely(w, es) && InTime(Generations.Run(w, es), id))
  {
    hide Generations.AllEnabled, Generations.AllTimely, Generations.Run, Related, Uploaded, InTime;
  }

  lemma {:induction false} OpFacts(s: StoreState, w: Generations.World, p: Plan, id: Generations.Id, m: Collector.Manifest,
                                   earlier: seq<Op>, op: Op)
    requires p.Separated() && Carries(p, m) && Allowed(p, earlier, op) && Step(s, p, op).Ok?
    ensures op.kind == Create ==>
      op.key in p.immutable && Step(s, p, op).value == CreateStep(s, op.key, p.immutable[op.key]).value
      && CreateStep(s, op.key, p.immutable[op.key]).Ok?
    ensures op == Op(Replace, p.stateKey) && !s.Holds(p.stateKey, p.pointer) ==>
      Met(s, p.stateKey, p.Precondition(p.stateKey)) && Step(s, p, op).value == s.Written(p.stateKey, p.pointer)
      && !Collector.ImmutableKey(op.key)
    ensures op.kind == Replace ==> !Collector.ImmutableKey(op.key)
  {
    hide Collector.ImmutableKey, Generations.HasDigest, Touches;
  }

  lemma {:induction false} UploadCounts(w: Generations.World, id: Generations.Id, earlier: seq<Op>, op: Op, d: Collector.Digest)
    requires Uploaded(w, id, earlier) && id in w.publishers
    ensures var next := Generations.Next(w, Generations.Upload(id, op.key, d));
      Uploaded(next, id, earlier + [op]) && (InTime(w, id) ==> InTime(next, id))
  {
    hide Collector.ImmutableKey, Touches;
    UploadedMore(Generations.Next(w, Generations.Upload(id, op.key, d)), id, earlier, op);
  }

  lemma {:induction false} CommitCounts(w: Generations.World, id: Generations.Id, earlier: seq<Op>, op: Op)
    requires Uploaded(w, id, earlier) && !Collector.ImmutableKey(op.key)
    ensures var next := Generations.Next(w, Generations.Commit(id));
      Uploaded(next, id, earlier + [op]) && (InTime(w, id) ==> InTime(next, id))
  {
    hide Collector.ImmutableKey, Touches;
    UploadedMore(Generations.Next(w, Generations.Commit(id)), id, earlier, op);
  }

  lemma {:induction false} QuietStep(s: StoreState, w: Generations.World, p: Plan, id: Generations.Id, m: Collector.Manifest,
                                     earlier: seq<Op>, op: Op)
    requires Related(s, w, p, id, m) && p.Separated() && Carries(p, m) && Uploaded(w, id, earlier)
    requires Allowed(p, earlier, op) && Step(s, p, op).Ok?
    requires !(op.kind == Create && Collector.ImmutableKey(op.key))
    requires !(op == Op(Replace, p.stateKey) && !s.Holds(p.stateKey, p.pointer))
    ensures Related(Step(s, p, op).value, w, p, id, m) && Uploaded(w, id, earlier + [op])
  {
    hide Collector.ImmutableKey, Generations.HasDigest, Touches;
    var t := Step(s, p, op).value;
    UploadedMore(w, id, earlier, op);
    WrittenIsValid(s, op.key, p.Wanted(op.key));
    if t != s {
      assert PublicationRuns.OnlyAt(s, t, op.key) && !Collector.ImmutableKey(op.key) && op.key != p.stateKey;
      MutableIsInvisible(s, t, op.key);
      PointerElsewhere(s, t, w, p, id, m, op.key);
    }
  }

  lemma {:induction false} Chained(w: Generations.World, a: seq<Generations.Event>, b: seq<Generations.Event>)
    ensures Generations.Run(w, a + b) == Generations.Run(Generations.Run(w, a), b)
    ensures Generations.AllEnabled(w, a + b) <==> Generations.AllEnabled(w, a) && Generations.AllEnabled(Generations.Run(w, a), b)
    ensures Generations.AllTimely(w, a + b) <==> Generations.AllTimely(w, a) && Generations.AllTimely(Generations.Run(w, a), b)
  {
    hide Generations.Run, Generations.AllEnabled, Generations.AllTimely;
    Generations.RunSplit(w, a + b, |a|);
    assert (a + b)[..|a|] == a && (a + b)[|a|..] == b;
  }

  lemma {:induction false} SimulatesChained(w: Generations.World, a: seq<Generations.Event>, b: seq<Generations.Event>, s: StoreState,
                                            t: StoreState, p: Plan, id: Generations.Id, m: Collector.Manifest, ops: seq<Op>, more: seq<Op>)
    requires Simulates(w, a, s, p, id, m, ops) && Simulates(Generations.Run(w, a), b, t, p, id, m, more)
    ensures Simulates(w, a + b, t, p, id, m, more)
  {
    hide Generations.Run, Generations.AllEnabled, Generations.AllTimely, Related, Uploaded, InTime;
    Chained(w, a, b);
  }

  /** The first `n` operations of a publication that meet no error are a run of events in which every
      one is enabled; with a timely capture the run is timely, so what holds of generations holds here. */
  lemma {:induction false} PublicationIsARun(s: StoreState, w: Generations.World, p: Plan, id: Generations.Id, m: Collector.Manifest,
                                             n: nat) returns (es: seq<Generations.Event>)
    requires Related(s, w, p, id, m) && p.Separated() && Carries(p, m)
    requires n <= |Program(p)| && RunOps(s, p, Program(p)[..n]).error.None?
    ensures Simulates(w, es, RunOps(s, p, Program(p)[..n]).state, p, id, m, Program(p)[..n])
  {
    hide *;
    if n == 0 {
      es := [];
      NoEvent(w);
      NothingUploaded(w, id);
      assert Program(p)[..0] == [];
      NoOps(s, p);
      SimulatesMeans(w, es, s, p, id, m, []);
    } else {
      var ops, op := Program(p)[..n - 1], Program(p)[n - 1];
      assert Program(p)[..n] == ops + [op];
      RunAppended(s, p, ops, [op]);
      var a := PublicationIsARun(s, w, p, id, m, n - 1);
      var mid := RunOps(s, p, ops).state;
      OneOp(mid, p, op);
      SimulatesMeans(w, a, mid, p, id, m, ops);
      ProgramOrder(p);
      var b := StepSimulates(mid, Generations.Run(w, a), p, id, m, ops, op);
      SimulatesChained(w, a, b, mid, Step(mid, p, op).value, p, id, m, ops, ops + [op]);
      es := a + b;
    }
  }

  lemma {:induction false} NothingUploaded(w: Generations.World, id: Generations.Id)
    ensures Uploaded(w, id, [])
  {
  }

  lemma {:induction false} OneOp(s: StoreState, p: Plan, op: Op)
    ensures RunOps(s, p, [op]).error.None? <==> Step(s, p, op).Ok?
    ensures Step(s, p, op).Ok? ==> RunOps(s, p, [op]).state == Step(s, p, op).value
  {
    hide Step;
    assert [op][1..] == [];
  }

  // ---- Collection ----

  /** Deleting a tombstoned object behind the published pointer is arming and deleting it. */
  lemma {:induction false} DeletionIsArmed(s: StoreState, w: Generations.World, p: Plan, id: Generations.Id, m: Collector.Manifest,
                                           ops: seq<Op>, k: Key)
    requires Related(s, w, p, id, m) && Carries(p, m) && Uploaded(w, id, ops) && s.Holds(p.stateKey, p.pointer)
    requires Collector.ImmutableKey(k) && Collector.Queued(m.queue, k)
    ensures var es := [Generations.Arm(id, k), Generations.Delete(k)];
      Simulates(w, es, s.Without(k), p, id, m, ops) && s.Without(k).Holds(p.stateKey, p.pointer)
  {
    hide Collector.ImmutableKey, Collector.Queued, Generations.HasDigest, Touches;
    var armed := Generations.Next(w, Generations.Arm(id, k));
    Chained(w, [Generations.Arm(id, k)], [Generations.Delete(k)]);
    Generations.RunSingle(w, Generations.Arm(id, k));
    Generations.RunSingle(armed, Generations.Delete(k));
    WithoutIsValid(s, k);
    assert p.stateKey != k && s.Get(p.stateKey) == s.Without(k).Get(p.stateKey);
    DeletionIsVisible(s, k);
    assert [Generations.Arm(id, k)] + [Generations.Delete(k)] == [Generations.Arm(id, k), Generations.Delete(k)];
    hide Generations.Run, Generations.AllEnabled, Generations.AllTimely, View, Plain, StoreState.Valid;
  }

  /** A whole collection behind the published pointer is a run of events. */
  lemma {:induction false} CollectionIsARun(s: StoreState, w: Generations.World, p: Plan, id: Generations.Id, m: Collector.Manifest,
                                            ops: seq<Op>, targets: seq<Collector.GcTarget>) returns (es: seq<Generations.Event>)
    requires Related(s, w, p, id, m) && Carries(p, m) && Uploaded(w, id, ops) && s.Holds(p.stateKey, p.pointer)
    requires forall i :: 0 <= i < |targets| ==> Collector.ImmutableKey(targets[i].key) && Collector.Queued(m.queue, targets[i].key)
    ensures Simulates(w, es, Collector.Swept(s, targets), p, id, m, ops)
    ensures Collector.Swept(s, targets).Holds(p.stateKey, p.pointer)
    decreases |targets|
  {
    hide Related, Carries, Uploaded, Simulates, Collector.ImmutableKey, Collector.Queued, Generations.Run;
    if targets == [] {
      es := [];
      NoEvent(w);
      SimulatesMeans(w, es, s, p, id, m, ops);
    } else {
      var rest, t := targets[..|targets| - 1], targets[|targets| - 1];
      var a := CollectionIsARun(s, w, p, id, m, ops, rest);
      var mid := Collector.Swept(s, rest);
      SimulatesMeans(w, a, mid, p, id, m, ops);
      DeletionIsArmed(mid, Generations.Run(w, a), p, id, m, ops, t.key);
      var b := [Generations.Arm(id, t.key), Generations.Delete(t.key)];
      SimulatesChained(w, a, b, mid, mid.Without(t.key), p, id, m, ops, ops);
      es := a + b;
    }
  }

  /** So a publisher that captured in time and finishes leaves, in the store itself, every live immutable
      object of its manifest, and keeps the invariant of the generations for everybody else. */
  lemma {:induction false} PublishedStoreIsComplete(s: StoreState, w: Generations.World, p: Plan, id: Generations.Id,
                                                    m: Collector.Manifest, k: Key) returns (es: seq<Generations.Event>)
    requires Related(s, w, p, id, m) && p.Separated() && Carries(p, m) && InTime(w, id)
    requires Generations.Inv(w) && Generations.UploadsOk(w) && RunOps(s, p, Program(p)).error.None?
    ensures var t, now := RunOps(s, p, Program(p)).state, Generations.Run(w, es);
      && Generations.AllEnabled(w, es) && Generations.Inv(now) && View(t) == now.objects && now.head == Some(m)
      && (Generations.LiveImmutable(m, k) ==> k in View(t) && Generations.HasDigest(m, k, View(t)[k]))
  {
    hide *;
    assert Program(p)[..|Program(p)|] == Program(p);
    es := PublicationIsARun(s, w, p, id, m, |Program(p)|);
    var t, now := RunOps(s, p, Program(p)).state, Generations.Run(w, es);
    SimulatesMeans(w, es, t, p, id, m, Program(p));
    Generations.RunKeepsInv(w, es);
    RelatedPublisher(s, w, p, id, m);
    PublicationRuns.RunSucceedsIffRecoverable(s, p);
    StoragePointer(s, p);
    LiveIsVisible(t, now, p, id, m, k);
  }

  /** A run that succeeds ends with its pointer. */
  lemma {:induction false} StoragePointer(s: StoreState, p: Plan)
    requires s.Valid() && p.Separated() && PublicationRuns.Recoverable(s, p)
    ensures RunOps(s, p, Program(p)).state.Holds(p.stateKey, p.pointer)
  {
    hide *;
    NoEvents(s, p);
    PublicationRuns.CrashRecovery(s, p, []);
    PublicationRuns.TargetKeys(p);
    PointerIsTarget(RunOps(s, p, Program(p)).state, s.Contents(), p);
  }

  lemma {:induction false} NoEvents(s: StoreState, p: Plan)
    ensures PublicationRuns.AllEnabled(PublicationRuns.Config(s, p, 0), [])
  {
  }

  lemma {:induction false} PointerIsTarget(t: StoreState, contents: map<Key, Object>, p: Plan)
    requires t.Contents() == contents + p.Target()
    requires forall k :: k in p.Target() <==> p.Has(k)
    requires forall k :: k in p.Target() ==> p.Target()[k] == p.Wanted(k)
    ensures t.Holds(p.stateKey, p.pointer)
  {
    hide Plan.Target;
    assert p.Has(p.stateKey) && p.Wanted(p.stateKey) == p.pointer;
    assert p.stateKey in t.Contents();
  }

  lemma {:induction false} LiveIsVisible(t: StoreState, w: Generations.World, p: Plan, id: Generations.Id, m: Collector.Manifest, k: Key)
    requires Related(t, w, p, id, m) && Generations.Inv(w)
    ensures View(t) == w.objects
    ensures t.Holds(p.stateKey, p.pointer) ==> w.head == Some(m)
    ensures t.Holds(p.stateKey, p.pointer) && Generations.LiveImmutable(m, k) ==>
      k in View(t) && Generations.HasDigest(m, k, View(t)[k])
  {
    hide Collector.ValidManifest, Generations.HasDigest, Collector.ImmutableKey, View;
    if t.Holds(p.stateKey, p.pointer) && Generations.LiveImmutable(m, k) {
      assert Generations.Present(w, m, k);
    }
  }

  // ---- Planning a collection ----

  lemma {:induction false} CandidateIsEntry(m: Collector.Manifest, i: nat)
    requires Collector.ValidManifest(m) && i < |m.queue|
    ensures var e, candidates := m.queue[i], Collector.Candidates(m.queue, m.live);
      e.key in candidates && candidates[e.key] == Collector.GcTarget(e.key, e.digest, e.size)
  {
    hide Collector.Candidates, Collector.Lists;
    var e := m.queue[i];
    Collector.CandidateKeys(m.queue, m.live, e.key);
    assert Collector.Queued(m.queue, e.key);
    var d :| d in m.queue && Collector.Candidates(m.queue, m.live)[e.key] == Collector.GcTarget(d.key, d.digest, d.size);
    var j :| 0 <= j < |m.queue| && m.queue[j] == d;
  }

  /** What a tombstone says of the generations is what the planning of a collection compares in the store. */
  lemma {:induction false} HoldsIffMatches(s: StoreState, e: Collector.QueueEntry)
    requires Plain(s) && Collector.ImmutableKey(e.key) && e.size == |e.digest|
    ensures Generations.Holds(View(s), e) <==>
      (e.key in s.objects ==> Collector.Matches(s.objects[e.key].content, Collector.GcTarget(e.key, e.digest, e.size)))
  {
    hide Collector.ImmutableKey;
  }

  ghost predicate Describing(m: Collector.Manifest) {
    forall i :: 0 <= i < |m.queue| ==> Collector.ImmutableKey(m.queue[i].key) && m.queue[i].size == |m.queue[i].digest|
  }

  /** Planning a collection finds no changed object if and only if all tombstones hold. */
  lemma {:induction false} NothingChangedIffAllHold(s: StoreState, m: Collector.Manifest)
    requires Plain(s) && Collector.ValidManifest(m) && Describing(m)
    ensures Generations.AllHold(View(s), m.queue) <==> !Collector.Changed(Collector.Candidates(m.queue, m.live), s)
  {
    hide Collector.Candidates, Collector.Matches, Generations.Holds, View, Plain, Collector.ImmutableKey;
    var candidates := Collector.Candidates(m.queue, m.live);
    forall i | 0 <= i < |m.queue|
      ensures var e := m.queue[i]; e.key in candidates && (Generations.Holds(View(s), e) <==>
                (e.key in s.objects ==> Collector.Matches(s.objects[e.key].content, candidates[e.key])))
    {
      CandidateIsEntry(m, i);
      HoldsIffMatches(s, m.queue[i]);
    }
    forall k | k in candidates ensures exists i :: 0 <= i < |m.queue| && m.queue[i].key == k {
      Collector.CandidateKeys(m.queue, m.live, k);
    }
  }

  /** As long as tombstones hold, a publisher whose manifest follows, or is, the authoritative one never
      finds a changed object when it plans its collection, be it before its first write. */
  lemma {:induction false} CollectionNeverDiffers(s: StoreState, w: Generations.World, m: Collector.Manifest)
    requires Plain(s) && View(s) == w.objects && Generations.Inv(w) && Generations.TombstonesHold(w)
    requires Generations.Follows(w.head, m) || w.head == Some(m)
    ensures !Collector.Changed(Collector.Candidates(m.queue, m.live), s)
  {
    hide *;
    DesiredHolds(w, m);
    HoldingIsDescribing(w, m);
    NothingChangedIffAllHold(s, m);
  }

  lemma {:induction false} DesiredHolds(w: Generations.World, m: Collector.Manifest)
    requires Generations.Inv(w) && Generations.TombstonesHold(w)
    requires Generations.Follows(w.head, m) || w.head == Some(m)
    ensures Generations.AllHold(w.objects, m.queue) && Collector.ValidManifest(m)
  {
    hide Generations.AllHold, Collector.ValidManifest, Generations.PublishersOk, Generations.Measured, Collector.NextQueue;
    if w.head != Some(m) { Generations.FollowingHolds(w, m); }
  }

  lemma {:induction false} HoldingIsDescribing(w: Generations.World, m: Collector.Manifest)
    requires Generations.AllHold(w.objects, m.queue)
    ensures Describing(m)
  {
  }
}
