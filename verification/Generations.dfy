/** Assembling, publishing and collecting generations, with any number of publishers and deletions
    suspended for any time after their last check. */
module Generations {
  import opened Outcome
  import opened Keys
  import opened Collector
  import Store

  /** Publishers are named like the lease owners they run as. */
  type Id = Store.LeaseOwner

  /** A publisher that has verified its desired manifest against the pointer, at the version it saw
      then, and captured the pointer's version by a second read, perhaps later. */
  datatype Publisher = Publisher(desired: Manifest, verified: nat, captured: Option<nat>, uploaded: set<Key>)

  /** Immutable objects, the authoritative manifest, the version of its pointer, deletions that
      passed all their checks, and every immutable key that was ever live. */
  datatype World = World(
    objects: map<Key, Digest>, head: Option<Manifest>, version: nat,
    publishers: map<Id, Publisher>, armed: set<Key>, served: set<Key>)

  datatype Event =
    | Verify(id: Id, desired: Manifest)
    | Capture(id: Id)
    | Upload(id: Id, key: Key, digest: Digest)
    | Commit(id: Id)
    | Arm(id: Id, key: Key)
    | Delete(key: Key)
    | Crash(id: Id)

  function KeySet(m: Manifest): set<Key> { set i | 0 <= i < |m.artifacts| :: m.artifacts[i].key }

  /** Artifacts are described by measuring them. */
  predicate Measured(m: Manifest) { forall i :: 0 <= i < |m.artifacts| ==> m.artifacts[i].size == |m.artifacts[i].digest| }

  /** What assembly and signing make of the previous generation: every artifact is live. */
  ghost predicate Follows(base: Option<Manifest>, m: Manifest) {
    && ValidManifest(m) && Measured(m) && (forall k :: k in m.live <==> Collector.Lists(m.artifacts, k))
    && m.generation == (if base.Some? then base.value.generation + 1 else 0)
    && m.queue == if base.Some? then NextQueue(base.value, KeySet(m)) else []
  }

  predicate LiveImmutable(m: Manifest, k: Key) { k in m.live && ImmutableKey(k) }

  predicate HasDigest(m: Manifest, k: Key, d: Digest) {
    exists i :: 0 <= i < |m.artifacts| && m.artifacts[i].key == k && m.artifacts[i].digest == d
  }

  predicate Present(w: World, m: Manifest, k: Key) { k in w.objects && HasDigest(m, k, w.objects[k]) }

  ghost predicate Enabled(w: World, e: Event) {
    match e
    case Verify(_, desired) => Follows(w.head, desired) || w.head == Some(desired)
    case Capture(id) => id in w.publishers && w.publishers[id].captured.None?
    case Upload(id, k, d) =>
      && id in w.publishers && LiveImmutable(w.publishers[id].desired, k) && HasDigest(w.publishers[id].desired, k, d)
      && (k in w.objects ==> w.objects[k] == d)
    case Commit(id) =>
      && id in w.publishers && w.publishers[id].captured == Some(w.version)
      && forall k :: LiveImmutable(w.publishers[id].desired, k) ==> k in w.publishers[id].uploaded
    case Arm(id, k) =>
      && id in w.publishers && w.head == Some(w.publishers[id].desired)
      && Queued(w.publishers[id].desired.queue, k)
    case Delete(k) => k in w.armed
    case Crash(_) => true
  }

  function Next(w: World, e: Event): World {
    match e
    case Verify(id, desired) => w.(publishers := w.publishers[id := Publisher(desired, w.version, None, {})])
    case Capture(id) =>
      if id !in w.publishers then w
      else w.(publishers := w.publishers[id := w.publishers[id].(captured := Some(w.version))])
    case Upload(id, k, d) =>
      if id !in w.publishers then w
      else
        var p := w.publishers[id];
        w.(objects := w.objects[k := d], publishers := w.publishers[id := p.(uploaded := p.uploaded + {k})])
    case Commit(id) =>
      if id !in w.publishers || w.head == Some(w.publishers[id].desired) then w
      else
        var desired := w.publishers[id].desired;
        w.(head := Some(desired), version := w.version + 1,
           served := w.served + set k | k in desired.live && ImmutableKey(k))
    case Arm(_, k) => w.(armed := w.armed + {k})
    case Delete(k) => w.(objects := w.objects - {k})
    case Crash(id) => w.(publishers := w.publishers - {id})
  }

  function Run(w: World, es: seq<Event>): World
    decreases |es|
  {
    if es == [] then w else Run(Next(w, es[0]), es[1..])
  }

  ghost predicate AllEnabled(w: World, es: seq<Event>)
    decreases |es|
  {
    es == [] || (Enabled(w, es[0]) && AllEnabled(Next(w, es[0]), es[1..]))
  }

  // ---- A commit between the two reads ----

  /** No commit has fallen between the publisher's two reads: it captured the version it had verified. */
  predicate CapturedInTime(p: Publisher) { p.captured == Some(p.verified) }

  /** Committing publishers captured in time. */
  predicate Timely(w: World, e: Event) {
    e.Commit? && e.id in w.publishers ==> CapturedInTime(w.publishers[e.id]) || w.head == Some(w.publishers[e.id].desired)
  }

  ghost predicate AllTimely(w: World, es: seq<Event>)
    decreases |es|
  {
    es == [] || (Timely(w, es[0]) && AllTimely(Next(w, es[0]), es[1..]))
  }

  // ---- One generation after another ----

  /** Tombstones are permanent, and whatever was live stays live or becomes a tombstone. */
  lemma {:induction false} FollowingKeepsTrack(b: Manifest, m: Manifest)
    requires ValidManifest(b) && Follows(Some(b), m)
    ensures b.queue <= m.queue
    ensures forall k :: Queued(b.queue, k) ==> Queued(m.queue, k)
    ensures forall k :: LiveImmutable(b, k) ==> LiveImmutable(m, k) || Queued(m.queue, k)
  {
    hide Queued, ImmutableKey;
    ExtendedKeys(b.queue, b.artifacts, b.live, KeySet(m));
    forall k | k in KeySet(m) ensures k in m.live {
      var i :| 0 <= i < |m.artifacts| && m.artifacts[i].key == k;
      assert Collector.Lists(m.artifacts, k);
    }
  }

  /** The constructor's check never fails on what assembly returns: a valid predecessor and distinct
      artifacts that avoid its tombstones give a valid successor. */
  lemma {:induction false} AssemblyIsValid(b: Manifest, m: Manifest)
    requires ValidManifest(b)
    requires forall i, j :: 0 <= i < j < |m.artifacts| ==> m.artifacts[i].key != m.artifacts[j].key
    requires forall i, j :: 0 <= i < j < |m.live| ==> m.live[i] != m.live[j]
    requires forall k :: k in m.live <==> Collector.Lists(m.artifacts, k)
    requires m.queue == NextQueue(b, KeySet(m)) && forall k :: k in KeySet(m) ==> !Queued(b.queue, k)
    ensures ValidManifest(m)
  {
    hide Queued, ImmutableKey;
    ExtendedKeys(b.queue, b.artifacts, b.live, KeySet(m));
    forall k | k in m.live ensures k in KeySet(m) {
      var i :| 0 <= i < |m.artifacts| && m.artifacts[i].key == k;
    }
  }

  // ---- What every step keeps ----

  ghost predicate HeadOk(w: World) {
    w.head.Some? ==> ValidManifest(w.head.value) && forall k :: LiveImmutable(w.head.value, k) ==> Present(w, w.head.value, k)
  }

  predicate Tombstoned(w: World, k: Key) { w.head.Some? && Queued(w.head.value.queue, k) }

  ghost predicate ArmedOk(w: World) { forall k :: k in w.armed ==> Tombstoned(w, k) }

  ghost predicate ServedOk(w: World) {
    forall k :: k in w.served ==> Tombstoned(w, k) || (w.head.Some? && LiveImmutable(w.head.value, k))
  }

  /** A publisher that could still commit in time follows the head, and its uploads are there. */
  ghost predicate PublisherOk(w: World, p: Publisher) {
    && p.verified <= w.version
    && (p.captured.Some? ==> p.verified <= p.captured.value <= w.version)
    && (p.verified == w.version ==>
          && (Follows(w.head, p.desired) || w.head == Some(p.desired))
          && forall k :: k in p.uploaded ==> Present(w, p.desired, k))
  }

  ghost predicate PublishersOk(w: World) { forall id :: id in w.publishers ==> PublisherOk(w, w.publishers[id]) }

  ghost predicate Inv(w: World) { HeadOk(w) && ArmedOk(w) && ServedOk(w) && PublishersOk(w) }

  lemma {:induction false} VerifyKeepsInv(w: World, id: Id, desired: Manifest)
    requires Inv(w) && Enabled(w, Verify(id, desired))
    ensures Inv(Next(w, Verify(id, desired)))
  {
    hide Follows, ValidManifest, Queued, LiveImmutable, HasDigest;
    var next := Next(w, Verify(id, desired));
    forall i | i in next.publishers ensures PublisherOk(next, next.publishers[i]) {
      if i != id { assert PublisherOk(w, w.publishers[i]); }
    }
  }

  lemma {:induction false} CaptureKeepsInv(w: World, id: Id)
    requires Inv(w) && Enabled(w, Capture(id))
    ensures Inv(Next(w, Capture(id)))
  {
    hide Follows, ValidManifest, Queued, LiveImmutable, HasDigest;
    var next := Next(w, Capture(id));
    forall i | i in next.publishers ensures PublisherOk(next, next.publishers[i]) {
      assert PublisherOk(w, w.publishers[i]);
    }
  }

  lemma {:induction false} UploadKeepsInv(w: World, id: Id, k: Key, d: Digest)
    requires Inv(w) && Enabled(w, Upload(id, k, d))
    ensures Inv(Next(w, Upload(id, k, d)))
  {
    hide Follows, ValidManifest, Queued, LiveImmutable, HasDigest;
    var next := Next(w, Upload(id, k, d));
    forall i | i in next.publishers ensures PublisherOk(next, next.publishers[i]) {
      assert PublisherOk(w, w.publishers[i]);
    }
  }

  /** A tombstoned key is live in no manifest that could become authoritative. */
  lemma {:induction false} TombstonesAreNotLive(w: World, p: Publisher, k: Key)
    requires HeadOk(w) && Tombstoned(w, k) && PublisherOk(w, p) && p.verified == w.version
    ensures k !in p.desired.live && k !in w.head.value.live
  {
    hide Queued;
    if Follows(w.head, p.desired) {
      FollowingKeepsTrack(w.head.value, p.desired);
    }
  }

  lemma {:induction false} DeleteKeepsInv(w: World, k: Key)
    requires Inv(w) && k in w.armed && forall i :: i in w.publishers ==> UploadsAreLive(w.publishers[i])
    ensures Inv(Next(w, Delete(k)))
  {
    hide Follows, Queued, HasDigest;
    var next := Next(w, Delete(k));
    assert Tombstoned(w, k) && k !in w.head.value.live;
    forall i | i in next.publishers ensures PublisherOk(next, next.publishers[i]) {
      var p := w.publishers[i];
      assert PublisherOk(w, p) && UploadsAreLive(p);
      if p.verified == w.version { TombstonesAreNotLive(w, p, k); }
    }
  }

  predicate UploadsAreLive(p: Publisher) { forall k :: k in p.uploaded ==> k in p.desired.live }

  ghost predicate UploadsOk(w: World) { forall i :: i in w.publishers ==> UploadsAreLive(w.publishers[i]) }

  lemma {:induction false} CommitKeepsInv(w: World, id: Id)
    requires Inv(w) && Enabled(w, Commit(id)) && Timely(w, Commit(id))
    ensures Inv(Next(w, Commit(id)))
  {
    hide Queued, ImmutableKey, HasDigest, ValidManifest, NextQueue;
    var next, p := Next(w, Commit(id)), w.publishers[id];
    assert PublisherOk(w, p);
    if w.head != Some(p.desired) {
      if w.head.Some? { FollowingKeepsTrack(w.head.value, p.desired); }
      forall i | i in next.publishers ensures PublisherOk(next, next.publishers[i]) {
        assert PublisherOk(w, w.publishers[i]);
      }
    }
  }

  lemma {:induction false} EventKeepsInv(w: World, e: Event)
    requires Inv(w) && UploadsOk(w) && Enabled(w, e) && Timely(w, e)
    ensures Inv(Next(w, e)) && UploadsOk(Next(w, e))
  {
    hide HeadOk, ServedOk, PublishersOk, Follows, HasDigest, Queued, ImmutableKey;
    match e {
      case Verify(id, desired) => VerifyKeepsInv(w, id, desired);
      case Capture(id) => CaptureKeepsInv(w, id);
      case Upload(id, k, d) => UploadKeepsInv(w, id, k, d);
      case Commit(id) => CommitKeepsInv(w, id);
      case Arm(id, k) => ArmKeepsInv(w, id, k);
      case Delete(k) => DeleteKeepsInv(w, k);
      case Crash(id) => CrashKeepsInv(w, id);
    }
  }

  lemma {:induction false} ArmKeepsInv(w: World, id: Id, k: Key)
    requires Inv(w) && Enabled(w, Arm(id, k))
    ensures Inv(Next(w, Arm(id, k)))
  {
    hide Follows, ValidManifest, Queued, LiveImmutable, HasDigest;
    var next := Next(w, Arm(id, k));
    forall i | i in next.publishers ensures PublisherOk(next, next.publishers[i]) {
      assert PublisherOk(w, w.publishers[i]);
    }
  }

  lemma {:induction false} CrashKeepsInv(w: World, id: Id)
    requires Inv(w)
    ensures Inv(Next(w, Crash(id)))
  {
    hide Follows, ValidManifest, Queued, LiveImmutable, HasDigest;
    var next := Next(w, Crash(id));
    forall i | i in next.publishers ensures PublisherOk(next, next.publishers[i]) {
      assert PublisherOk(w, w.publishers[i]);
    }
  }

  // ---- Over whole runs ----

  /** Later authoritative manifests extend the tombstones of earlier ones. */
  predicate Extends(w: World, next: World) {
    && w.served <= next.served
    && (w.head.Some? ==>
          next.head.Some? && w.head.value.queue <= next.head.value.queue
          && w.head.value.generation <= next.head.value.generation)
  }

  lemma {:induction false} EventExtends(w: World, e: Event)
    requires Inv(w) && Enabled(w, e) && Timely(w, e)
    ensures Extends(w, Next(w, e))
    ensures Next(w, e).head != w.head ==>
      Next(w, e).head.Some? && Next(w, e).head.value.generation == (if w.head.Some? then w.head.value.generation + 1 else 0)
  {
    hide Queued, ImmutableKey, HasDigest, ValidManifest, NextQueue, LiveImmutable;
    if e.Commit? {
      assert PublisherOk(w, w.publishers[e.id]);
      if Follows(w.head, w.publishers[e.id].desired) && w.head.Some? {
        FollowingKeepsTrack(w.head.value, w.publishers[e.id].desired);
      }
    }
  }

  lemma {:induction false} RunKeepsInv(w: World, es: seq<Event>)
    requires Inv(w) && UploadsOk(w) && AllEnabled(w, es) && AllTimely(w, es)
    ensures Inv(Run(w, es)) && UploadsOk(Run(w, es)) && Extends(w, Run(w, es))
    decreases |es|
  {
    hide Inv, UploadsOk, Next, Enabled, Timely;
    if es != [] {
      EventKeepsInv(w, es[0]);
      EventExtends(w, es[0]);
      RunKeepsInv(Next(w, es[0]), es[1..]);
    }
  }

  /** Over every run in which committing publishers captured in time: the tombstones only grow, every
      immutable key that was ever live is live or tombstoned, and all live immutable objects of the
      authoritative manifest are present. */
  lemma {:induction false} GenerationsLoseNothing(w: World, es: seq<Event>)
    requires Inv(w) && UploadsOk(w) && AllEnabled(w, es) && AllTimely(w, es)
    ensures var now := Run(w, es);
      && (w.head.Some? ==> now.head.Some? && w.head.value.queue <= now.head.value.queue)
      && (forall k :: k in w.served ==> Tombstoned(now, k) || (now.head.Some? && LiveImmutable(now.head.value, k)))
      && (now.head.Some? ==> forall k :: LiveImmutable(now.head.value, k) ==> Present(now, now.head.value, k))
  {
    hide Run, Queued, ImmutableKey, HasDigest, ValidManifest, PublishersOk, AllEnabled, AllTimely;
    RunKeepsInv(w, es);
  }

  /** A deletion of any past plan, however long it was suspended after its checks, hits no object of
      the manifest that is authoritative when it finally runs, nor of any later one. */
  lemma {:induction false} SuspendedCollectorIsHarmless(w: World, es: seq<Event>, k: Key)
    requires Inv(w) && UploadsOk(w) && AllEnabled(w, es) && AllTimely(w, es) && k in w.armed
    ensures Run(w, es).head.Some? && k !in Run(w, es).head.value.live
  {
    hide Run, ImmutableKey, HasDigest, PublishersOk, AllEnabled, AllTimely;
    RunKeepsInv(w, es);
    var before, after := w.head.value.queue, Run(w, es).head.value.queue;
    assert Tombstoned(w, k);
    var i :| 0 <= i < |before| && before[i].key == k;
    assert after[i] == before[i];
    assert Queued(after, k);
  }

  // ---- What tombstones say ----

  /** The object, if it still exists, is the one that the tombstone describes. */
  predicate Holds(objects: map<Key, Digest>, e: QueueEntry) {
    ImmutableKey(e.key) && e.size == |e.digest| && (e.key in objects ==> objects[e.key] == e.digest)
  }

  predicate AllHold(objects: map<Key, Digest>, queue: seq<QueueEntry>) {
    forall i :: 0 <= i < |queue| ==> Holds(objects, queue[i])
  }

  predicate TombstonesHold(w: World) { w.head.Some? ==> Measured(w.head.value) && AllHold(w.objects, w.head.value.queue) }

  /** No object is created under a tombstone of other bytes. */
  predicate RespectsTombstones(w: World, e: Event) {
    e.Upload? && w.head.Some? ==>
      forall i :: 0 <= i < |w.head.value.queue| && w.head.value.queue[i].key == e.key ==> w.head.value.queue[i].digest == e.digest
  }

  /** The tombstones of the next generation hold as soon as those of this one do. */
  lemma {:induction false} FollowingHolds(w: World, m: Manifest)
    requires HeadOk(w) && TombstonesHold(w) && Follows(w.head, m)
    ensures AllHold(w.objects, m.queue) && Measured(m)
  {
    hide Queued, ImmutableKey;
    if w.head.Some? {
      var b := w.head.value;
      ExtendedKeys(b.queue, b.artifacts, b.live, KeySet(m));
      ExtendedEntries(b.queue, b.artifacts, b.live, KeySet(m));
      forall i | 0 <= i < |m.queue| ensures Holds(w.objects, m.queue[i]) {
        if i < |b.queue| {
          assert m.queue[i] == b.queue[i];
        } else {
          RetiredHolds(w, KeySet(m), m.queue[i]);
        }
      }
    }
  }

  lemma {:induction false} RetiredHolds(w: World, current: set<Key>, e: QueueEntry)
    requires HeadOk(w) && TombstonesHold(w) && w.head.Some?
    requires Retired(w.head.value.artifacts, w.head.value.live, current, e)
    ensures Holds(w.objects, e)
  {
    hide Queued, ImmutableKey;
    var b := w.head.value;
    var i :| 0 <= i < |b.artifacts| && b.artifacts[i] == Artifact(e.key, e.digest, e.size);
    assert LiveImmutable(b, e.key) && Present(w, b, e.key);
    var j :| 0 <= j < |b.artifacts| && b.artifacts[j].key == e.key && b.artifacts[j].digest == w.objects[e.key];
    assert i == j;
  }

  /** One event keeps what the tombstones say exactly if it creates no other object under one of them. */
  lemma {:induction false} TombstonesHoldIff(w: World, e: Event)
    requires Inv(w) && Enabled(w, e) && Timely(w, e) && TombstonesHold(w)
    ensures TombstonesHold(Next(w, e)) <==> RespectsTombstones(w, e)
  {
    hide Follows, ValidManifest, HasDigest, ImmutableKey, ServedOk, ArmedOk, NextQueue, Queued, LiveImmutable;
    var next := Next(w, e);
    if e.Commit? {
      assert PublisherOk(w, w.publishers[e.id]);
      if w.head != Some(w.publishers[e.id].desired) { FollowingHolds(w, w.publishers[e.id].desired); }
    } else if e.Upload? && w.head.Some? {
      var queue := w.head.value.queue;
      if !RespectsTombstones(w, e) {
        var i :| 0 <= i < |queue| && queue[i].key == e.key && queue[i].digest != e.digest;
        assert !Holds(next.objects, queue[i]);
      }
    }
  }

  ghost predicate AlwaysHold(w: World, es: seq<Event>)
    decreases |es|
  {
    TombstonesHold(w) && (es == [] || AlwaysHold(Next(w, es[0]), es[1..]))
  }

  predicate AllRespectTombstones(w: World, es: seq<Event>)
    decreases |es|
  {
    es == [] || (RespectsTombstones(w, es[0]) && AllRespectTombstones(Next(w, es[0]), es[1..]))
  }

  /** Over every run with timely commits: at every moment each tombstoned object that still exists is the
      one its tombstone describes, if and only if nobody creates another object under a tombstone. */
  lemma {:induction false} TombstonesAlwaysHoldIff(w: World, es: seq<Event>)
    requires Inv(w) && UploadsOk(w) && TombstonesHold(w) && AllEnabled(w, es) && AllTimely(w, es)
    ensures AlwaysHold(w, es) <==> AllRespectTombstones(w, es)
    ensures AlwaysHold(w, es) ==> TombstonesHold(Run(w, es))
    decreases |es|
  {
    hide Inv, UploadsOk, Next, Enabled, Timely, TombstonesHold, RespectsTombstones;
    if es != [] {
      TombstonesHoldIff(w, es[0]);
      if TombstonesHold(Next(w, es[0])) {
        EventKeepsInv(w, es[0]);
        TombstonesAlwaysHoldIff(Next(w, es[0]), es[1..]);
      }
    }
  }

  /** A publisher that has verified the present generation, or published it, respects its tombstones. */
  lemma {:induction false} CurrentPublishersRespect(w: World, e: Event)
    requires Inv(w) && Enabled(w, e)
    requires e.Upload? ==> w.publishers[e.id].verified == w.version || w.head == Some(w.publishers[e.id].desired)
    ensures RespectsTombstones(w, e)
  {
    hide Follows, ValidManifest, HasDigest, ImmutableKey, ServedOk, ArmedOk, NextQueue;
    if e.Upload? && w.head.Some? {
      assert PublisherOk(w, w.publishers[e.id]);
      NothingLiveIsTombstoned(w, w.publishers[e.id], e.key);
    }
  }

  lemma {:induction false} NothingLiveIsTombstoned(w: World, p: Publisher, k: Key)
    requires HeadOk(w) && PublisherOk(w, p) && k in p.desired.live
    requires p.verified == w.version || w.head == Some(p.desired)
    ensures !Tombstoned(w, k)
  {
    hide Queued, Follows, ImmutableKey, HasDigest;
    if Tombstoned(w, k) && p.verified == w.version { TombstonesAreNotLive(w, p, k); }
  }

  // ---- Exactly when the generations step ----

  lemma {:induction false} OnlyCommitsChangeTheVersion(w: World, es: seq<Event>)
    requires forall i :: 0 <= i < |es| ==> !es[i].Commit?
    ensures Run(w, es).version == w.version
    decreases |es|
  {
    if es != [] { OnlyCommitsChangeTheVersion(Next(w, es[0]), es[1..]); }
  }

  predicate Concerns(e: Event, id: Id) {
    (e.Verify? || e.Capture? || e.Crash?) && e.id == id
  }

  lemma {:induction false} PublisherWaits(w: World, es: seq<Event>, id: Id)
    requires id in w.publishers && forall i :: 0 <= i < |es| ==> !Concerns(es[i], id)
    ensures id in Run(w, es).publishers && Run(w, es).publishers[id].verified == w.publishers[id].verified
    decreases |es|
  {
    if es != [] { PublisherWaits(Next(w, es[0]), es[1..], id); }
  }

  /** A publisher between whose two reads nobody commits has captured in time. */
  lemma {:induction false} QuietReadsAreInTime(w: World, id: Id, desired: Manifest, es: seq<Event>)
    requires forall i :: 0 <= i < |es| ==> !es[i].Commit? && !Concerns(es[i], id)
    ensures var now := Next(Run(Next(w, Verify(id, desired)), es), Capture(id));
            id in now.publishers && CapturedInTime(now.publishers[id])
  {
    hide Run;
    PublisherWaits(Next(w, Verify(id, desired)), es, id);
    OnlyCommitsChangeTheVersion(Next(w, Verify(id, desired)), es);
  }

  /** Generations count versions, and a publisher's desired generation is the one after, or the one,
      that it verified against. */
  ghost predicate Numbered(w: World) {
    && w.version == (if w.head.Some? then w.head.value.generation + 1 else 0)
    && forall id :: id in w.publishers ==>
         var p := w.publishers[id];
         p.desired.generation == p.verified || p.desired.generation + 1 == p.verified
  }

  /** A commit that changes the head makes the next generation authoritative. */
  predicate StepsByOne(w: World, e: Event) {
    var next := Next(w, e);
    next.head != w.head ==>
      next.head.Some? && next.head.value.generation == (if w.head.Some? then w.head.value.generation + 1 else 0)
  }

  ghost predicate AllStepByOne(w: World, es: seq<Event>)
    decreases |es|
  {
    es == [] || (StepsByOne(w, es[0]) && AllStepByOne(Next(w, es[0]), es[1..]))
  }

  lemma {:induction false} StepsIffTimely(w: World, e: Event)
    requires Inv(w) && Numbered(w) && Enabled(w, e)
    ensures StepsByOne(w, e) <==> Timely(w, e)
    ensures Timely(w, e) ==> Numbered(Next(w, e))
  {
    hide Queued, ImmutableKey, HasDigest, ValidManifest, NextQueue, LiveImmutable, HeadOk, ArmedOk, ServedOk;
    if e.Commit? {
      assert PublisherOk(w, w.publishers[e.id]);
    }
  }

  /** Over every run: each commit steps the generation by exactly one if and only if each committing
      publisher captured in time. So a commit between the two reads of a publisher that then commits is
      always visible as a generation that repeats or goes back. */
  lemma {:induction false} GenerationsStepIffTimely(w: World, es: seq<Event>)
    requires Inv(w) && UploadsOk(w) && Numbered(w) && AllEnabled(w, es)
    ensures AllStepByOne(w, es) <==> AllTimely(w, es)
    decreases |es|
  {
    hide Inv, UploadsOk, Next, Enabled, Timely, StepsByOne, Numbered;
    if es != [] {
      StepsIffTimely(w, es[0]);
      if Timely(w, es[0]) {
        EventKeepsInv(w, es[0]);
        GenerationsStepIffTimely(Next(w, es[0]), es[1..]);
      }
    }
  }

  // ---- A run that loses an object ----

  const NobodyYet: World := World(map[], None, 0, map[], {}, {})

  lemma {:induction false} NumberedAtStart()
    ensures Inv(NobodyYet) && UploadsOk(NobodyYet) && Numbered(NobodyYet) && TombstonesHold(NobodyYet)
  {
  }

  function Only(k: Key): Manifest { Manifest(0, [Artifact(k, [1], 1)], [k], []) }

  function Late(a: Id, b: Id): seq<Event> {
    [Verify(a, Only("pool/a")), Capture(a), Upload(a, "pool/a", [1]), Verify(b, Only("pool/b")), Commit(a), Capture(b),
     Upload(b, "pool/b", [1]), Commit(b)]
  }

  lemma {:induction false} OnlyFollows(k: Key)
    requires ImmutableKey(k)
    ensures Follows(None, Only(k)) && HasDigest(Only(k), k, [1])
    ensures forall l :: LiveImmutable(Only(k), l) <==> l == k
    ensures forall l :: !Queued(Only(k).queue, l)
  {
    var m := Only(k);
    forall l ensures l in m.live <==> Collector.Lists(m.artifacts, l) {
      if l == k { assert m.artifacts[0].key == l; }
    }
    assert m.artifacts[0].key == k && m.artifacts[0].digest == [1];
  }

  lemma {:induction false} RunSplit(w: World, es: seq<Event>, n: nat)
    requires n <= |es|
    ensures Run(w, es) == Run(Run(w, es[..n]), es[n..])
    ensures AllEnabled(w, es) <==> AllEnabled(w, es[..n]) && AllEnabled(Run(w, es[..n]), es[n..])
    ensures AllTimely(w, es) <==> AllTimely(w, es[..n]) && AllTimely(Run(w, es[..n]), es[n..])
    decreases n
  {
    hide Enabled, Timely, Next;
    if n == 0 {
      assert es[..0] == [] && es[0..] == es;
    } else {
      assert es[..n][1..] == es[1..][..n - 1] && es[1..][n - 1..] == es[n..];
      RunSplit(Next(w, es[0]), es[1..], n - 1);
    }
  }

  lemma {:induction false} RunOne(w: World, es: seq<Event>, i: nat)
    requires i < |es| && AllEnabled(NobodyYet, es[..i]) && Run(NobodyYet, es[..i]) == w && Enabled(w, es[i])
    ensures AllEnabled(NobodyYet, es[..i + 1]) && Run(NobodyYet, es[..i + 1]) == Next(w, es[i])
    ensures AllTimely(NobodyYet, es[..i]) && Timely(w, es[i]) ==> AllTimely(NobodyYet, es[..i + 1])
  {
    hide Enabled, Next, Timely;
    var upTo := es[..i + 1];
    assert upTo[..i] == es[..i] && upTo[i..] == [es[i]];
    RunSplit(NobodyYet, upTo, i);
    RunSingle(w, es[i]);
  }

  lemma {:induction false} RunSingle(w: World, e: Event)
    ensures Run(w, [e]) == Next(w, e) && (AllEnabled(w, [e]) <==> Enabled(w, e)) && (AllTimely(w, [e]) <==> Timely(w, e))
  {
    assert [e][1..] == [];
  }

  /** The world before each event of the run, and the last one. */
  function LateWorld(a: Id, b: Id, i: nat): World {
    var d: Digest := [1];
    var pa, pb := Publisher(Only("pool/a"), 0, None, {}), Publisher(Only("pool/b"), 0, None, {});
    var ready := pa.(captured := Some(0), uploaded := {"pool/a"});
    if i == 0 then NobodyYet
    else if i == 1 then World(map[], None, 0, map[a := pa], {}, {})
    else if i == 2 then World(map[], None, 0, map[a := pa.(captured := Some(0))], {}, {})
    else if i == 3 then World(map["pool/a" := d], None, 0, map[a := ready], {}, {})
    else if i == 4 then World(map["pool/a" := d], None, 0, map[a := ready, b := pb], {}, {})
    else if i == 5 then World(map["pool/a" := d], Some(Only("pool/a")), 1, map[a := ready, b := pb], {}, {"pool/a"})
    else if i == 6 then
      World(map["pool/a" := d], Some(Only("pool/a")), 1, map[a := ready, b := pb.(captured := Some(1))], {}, {"pool/a"})
    else
      var late := pb.(captured := Some(1), uploaded := {"pool/b"});
      var objects := map["pool/a" := d, "pool/b" := d];
      if i == 7 then World(objects, Some(Only("pool/a")), 1, map[a := ready, b := late], {}, {"pool/a"})
      else World(objects, Some(Only("pool/b")), 2, map[a := ready, b := late], {}, {"pool/a", "pool/b"})
  }

  lemma {:induction false} PoolKeys()
    ensures ImmutableKey("pool/a") && ImmutableKey("pool/b") && "pool/a" != "pool/b"
  {
    assert "pool/a"[..5] == "pool/" && "pool/b"[..5] == "pool/" && "pool/a"[5] != "pool/b"[5];
  }

  lemma {:induction false} LateEnabled(a: Id, b: Id, i: nat)
    requires a != b && i < 8
    ensures Enabled(LateWorld(a, b, i), Late(a, b)[i])
  {
    hide Follows, Queued, HasDigest, ImmutableKey, ValidManifest;
    PoolKeys();
    OnlyFollows("pool/a");
    OnlyFollows("pool/b");
    hide LiveImmutable;
  }

  lemma {:induction false} LateNext(a: Id, b: Id, i: nat)
    requires a != b && i < 8
    ensures Next(LateWorld(a, b, i), Late(a, b)[i]) == LateWorld(a, b, i + 1)
  {
    hide ImmutableKey;
    PoolKeys();
    if i == 4 { OneServed("pool/a"); }
    if i == 7 { OneServed("pool/b"); }
    var none: set<Key> := {};
    assert none + {"pool/a"} == {"pool/a"} && none + {"pool/b"} == {"pool/b"};
    var now, next := Next(LateWorld(a, b, i), Late(a, b)[i]), LateWorld(a, b, i + 1);
    assert now.publishers == next.publishers;
    assert now.objects == next.objects && now.served == next.served;
  }

  lemma {:induction false} OneServed(k: Key)
    requires ImmutableKey(k)
    ensures (set l | l in Only(k).live && ImmutableKey(l)) == {k}
  {
    hide ImmutableKey;
    assert Only(k).live == [k];
  }

  lemma {:induction false} LateRun(a: Id, b: Id, i: nat)
    requires a != b && i <= 8
    ensures AllEnabled(NobodyYet, Late(a, b)[..i]) && Run(NobodyYet, Late(a, b)[..i]) == LateWorld(a, b, i)
  {
    hide Enabled, Next;
    if i > 0 {
      LateRun(a, b, i - 1);
      LateEnabled(a, b, i - 1);
      LateNext(a, b, i - 1);
      RunOne(LateWorld(a, b, i - 1), Late(a, b), i - 1);
    }
  }

  /** A commit between the reads of another publisher loses an object for good: it was served, and is
      neither live nor tombstoned; the generation does not move. */
  lemma {:induction false} LateCaptureLosesObjects(a: Id, b: Id)
    requires a != b
    ensures AllEnabled(NobodyYet, Late(a, b)) && !AllTimely(NobodyYet, Late(a, b))
    ensures var now := Run(NobodyYet, Late(a, b));
      && now.head == Some(Only("pool/b")) && Only("pool/b").generation == Only("pool/a").generation && now.version == 2
      && "pool/a" in now.served && !LiveImmutable(Only("pool/b"), "pool/a") && !Tombstoned(now, "pool/a")
  {
    hide Enabled, Next, Run, AllEnabled, AllTimely, ImmutableKey, Queued;
    var es := Late(a, b);
    LateRun(a, b, 8);
    LateRun(a, b, 7);
    assert es[..8] == es && es[7..] == [es[7]];
    RunSplit(NobodyYet, es, 7);
    RunSingle(LateWorld(a, b, 7), es[7]);
    PoolKeys();
    OnlyFollows("pool/b");
  }

  // ---- A run that spoils a tombstone ----

  function Same(k: Key, d: Digest): Manifest { Manifest(0, [Artifact(k, d, |d|)], [k], []) }

  const Retiring: Manifest :=
    Manifest(1, [Artifact("pool/b", [1], 1)], ["pool/b"], [QueueEntry("pool/a", [1], 1)])

  /** `b` verifies and stalls; `a` publishes, retires and deletes an object; then `b` uploads its own. */
  function Stalled(a: Id, b: Id): seq<Event> {
    [Verify(b, Same("pool/a", [2])), Verify(a, Only("pool/a")), Capture(a), Upload(a, "pool/a", [1]), Commit(a),
     Verify(a, Retiring), Capture(a), Upload(a, "pool/b", [1]), Commit(a), Arm(a, "pool/a"), Delete("pool/a"),
     Upload(b, "pool/a", [2])]
  }

  function StalledWorld(a: Id, b: Id, i: nat): World {
    var d: Digest := [1];
    var pb := Publisher(Same("pool/a", [2]), 0, None, {});
    var pa, qa := Publisher(Only("pool/a"), 0, None, {}), Publisher(Retiring, 1, None, {});
    var ra, sa := pa.(captured := Some(0), uploaded := {"pool/a"}), qa.(captured := Some(1), uploaded := {"pool/b"});
    var one, two := map["pool/a" := d], map["pool/a" := d, "pool/b" := d];
    if i == 0 then NobodyYet
    else if i == 1 then World(map[], None, 0, map[b := pb], {}, {})
    else if i == 2 then World(map[], None, 0, map[b := pb, a := pa], {}, {})
    else if i == 3 then World(map[], None, 0, map[b := pb, a := pa.(captured := Some(0))], {}, {})
    else if i == 4 then World(one, None, 0, map[b := pb, a := ra], {}, {})
    else if i == 5 then World(one, Some(Only("pool/a")), 1, map[b := pb, a := ra], {}, {"pool/a"})
    else if i == 6 then World(one, Some(Only("pool/a")), 1, map[b := pb, a := qa], {}, {"pool/a"})
    else if i == 7 then World(one, Some(Only("pool/a")), 1, map[b := pb, a := qa.(captured := Some(1))], {}, {"pool/a"})
    else if i == 8 then World(two, Some(Only("pool/a")), 1, map[b := pb, a := sa], {}, {"pool/a"})
    else if i == 9 then World(two, Some(Retiring), 2, map[b := pb, a := sa], {}, {"pool/a", "pool/b"})
    else if i == 10 then World(two, Some(Retiring), 2, map[b := pb, a := sa], {"pool/a"}, {"pool/a", "pool/b"})
    else if i == 11 then World(map["pool/b" := d], Some(Retiring), 2, map[b := pb, a := sa], {"pool/a"}, {"pool/a", "pool/b"})
    else World(map["pool/b" := d, "pool/a" := [2]], Some(Retiring), 2,
               map[b := pb.(uploaded := {"pool/a"}), a := sa], {"pool/a"}, {"pool/a", "pool/b"})
  }

  lemma {:induction false} SameFollows()
    ensures Follows(None, Same("pool/a", [2])) && HasDigest(Same("pool/a", [2]), "pool/a", [2])
    ensures LiveImmutable(Same("pool/a", [2]), "pool/a")
  {
    PoolKeys();
    var m := Same("pool/a", [2]);
    forall l ensures l in m.live <==> Collector.Lists(m.artifacts, l) {
      if l == "pool/a" { assert m.artifacts[0].key == l; }
    }
    assert m.artifacts[0].key == "pool/a" && m.artifacts[0].digest == [2];
  }

  lemma {:induction false} RetiringFollows()
    ensures Follows(Some(Only("pool/a")), Retiring) && HasDigest(Retiring, "pool/b", [1])
    ensures Queued(Retiring.queue, "pool/a") && forall l :: LiveImmutable(Retiring, l) <==> l == "pool/b"
  {
    PoolKeys();
    hide ImmutableKey;
    var m, base := Retiring, Only("pool/a");
    forall l ensures l in m.live <==> Collector.Lists(m.artifacts, l) {
      if l == "pool/b" { assert m.artifacts[0].key == l; }
    }
    assert m.artifacts[0].key == "pool/b" && m.artifacts[0].digest == [1] && m.queue[0].key == "pool/a";
    assert KeySet(m) == {"pool/b"};
    var a := base.artifacts[0];
    assert Retires(base.live, KeySet(m), [], a) && base.artifacts[1..] == [];
    assert [] + [QueueEntry(a.key, a.digest, a.size)] == m.queue;
  }

  lemma {:induction false} StalledEnabled(a: Id, b: Id, i: nat)
    requires a != b && i < 12
    ensures Enabled(StalledWorld(a, b, i), Stalled(a, b)[i]) && Timely(StalledWorld(a, b, i), Stalled(a, b)[i])
  {
    hide Follows, Queued, HasDigest, ImmutableKey, ValidManifest;
    PoolKeys();
    OnlyFollows("pool/a");
    SameFollows();
    RetiringFollows();
    hide LiveImmutable;
  }

  lemma {:induction false} StalledNext(a: Id, b: Id, i: nat)
    requires a != b && i < 12
    ensures Next(StalledWorld(a, b, i), Stalled(a, b)[i]) == StalledWorld(a, b, i + 1)
  {
    hide *;
    if i < 4 {
      StalledBefore(a, b, i);
    } else if i < 8 {
      StalledMeanwhile(a, b, i);
    } else if i == 8 {
      StalledCommit(a, b);
    } else {
      StalledAfter(a, b, i);
    }
  }

  lemma {:induction false} StalledCommit(a: Id, b: Id)
    requires a != b
    ensures Next(StalledWorld(a, b, 8), Stalled(a, b)[8]) == StalledWorld(a, b, 9)
  {
    hide ImmutableKey;
    PoolKeys();
    assert (set l | l in Retiring.live && ImmutableKey(l)) == {"pool/b"};
    var now, next := Next(StalledWorld(a, b, 8), Stalled(a, b)[8]), StalledWorld(a, b, 9);
    assert now.served == next.served;
  }

  lemma {:induction false} StalledBefore(a: Id, b: Id, i: nat)
    requires a != b && i < 4
    ensures Next(StalledWorld(a, b, i), Stalled(a, b)[i]) == StalledWorld(a, b, i + 1)
  {
    var none: set<Key> := {};
    assert none + {"pool/a"} == {"pool/a"};
    var now, next := Next(StalledWorld(a, b, i), Stalled(a, b)[i]), StalledWorld(a, b, i + 1);
    assert now.publishers == next.publishers && now.objects == next.objects;
  }

  lemma {:induction false} StalledMeanwhile(a: Id, b: Id, i: nat)
    requires a != b && 4 <= i < 8
    ensures Next(StalledWorld(a, b, i), Stalled(a, b)[i]) == StalledWorld(a, b, i + 1)
  {
    hide ImmutableKey;
    PoolKeys();
    OneServed("pool/a");
    var none: set<Key> := {};
    assert none + {"pool/a"} == {"pool/a"} && none + {"pool/b"} == {"pool/b"};
    var now, next := Next(StalledWorld(a, b, i), Stalled(a, b)[i]), StalledWorld(a, b, i + 1);
    assert now.publishers == next.publishers;
    assert now.objects == next.objects && now.served == next.served;
  }

  lemma {:induction false} StalledAfter(a: Id, b: Id, i: nat)
    requires a != b && 9 <= i < 12
    ensures Next(StalledWorld(a, b, i), Stalled(a, b)[i]) == StalledWorld(a, b, i + 1)
  {
    PoolKeys();
    var none: set<Key> := {};
    assert none + {"pool/a"} == {"pool/a"};
    var now, next := Next(StalledWorld(a, b, i), Stalled(a, b)[i]), StalledWorld(a, b, i + 1);
    assert now.publishers == next.publishers && now.objects == next.objects;
  }

  lemma {:induction false} StalledRun(a: Id, b: Id, i: nat)
    requires a != b && i <= 12
    ensures AllEnabled(NobodyYet, Stalled(a, b)[..i]) && AllTimely(NobodyYet, Stalled(a, b)[..i])
    ensures Run(NobodyYet, Stalled(a, b)[..i]) == StalledWorld(a, b, i)
  {
    hide Enabled, Next, Timely;
    if i > 0 {
      var es := Stalled(a, b);
      StalledRun(a, b, i - 1);
      StalledEnabled(a, b, i - 1);
      StalledNext(a, b, i - 1);
      RunOne(StalledWorld(a, b, i - 1), es, i - 1);
    }
  }

  /** Timely commits alone do not keep what tombstones say: a stalled publisher creates its own object
      under a key that was retired and deleted meanwhile, and no later collection can be planned. */
  lemma {:induction false} StalledUploadSpoilsTombstone(a: Id, b: Id)
    requires a != b
    ensures AllEnabled(NobodyYet, Stalled(a, b)) && AllTimely(NobodyYet, Stalled(a, b))
    ensures !TombstonesHold(Run(NobodyYet, Stalled(a, b)))
  {
    hide Enabled, Next, Run, AllEnabled, AllTimely;
    StalledRun(a, b, 12);
    assert Stalled(a, b)[..12] == Stalled(a, b);
    var now := StalledWorld(a, b, 12);
    assert !Holds(now.objects, now.head.value.queue[0]);
  }
}
