/** Signed tombstones: how a generation retires objects, and their bounded exact deletion. */
module Collector {
  import opened Outcome
  import opened Keys
  import opened Store

  /** A digest is represented by the bytes it identifies. */
  type Digest = seq<bv8>

  datatype Artifact = Artifact(key: Key, digest: Digest, size: nat)

  datatype QueueEntry = QueueEntry(key: Key, digest: Digest, size: nat)

  datatype Manifest = Manifest(generation: nat, artifacts: seq<Artifact>, live: seq<Key>, queue: seq<QueueEntry>)

  /** The cache class of an artifact is a function of its key. */
  predicate ImmutableKey(k: Key) { StartsWith(k, "pool/") || Contains(k, "/by-hash/SHA256/") }

  /** Immutable is exactly what lies in the pool or is named by its digest. */
  lemma {:induction false} ImmutableKeysAre(k: Key)
    ensures ImmutableKey(k) <==>
      (exists name: string :: k == "pool/" + name) || (exists a: string, b: string :: k == a + "/by-hash/SHA256/" + b)
  {
    ContainsMeans(k, "/by-hash/SHA256/");
    hide Contains;
    if "pool/" <= k { assert k == "pool/" + k[5..]; }
  }

  predicate Queued(queue: seq<QueueEntry>, k: Key) { exists i :: 0 <= i < |queue| && queue[i].key == k }

  predicate Lists(artifacts: seq<Artifact>, k: Key) { exists i :: 0 <= i < |artifacts| && artifacts[i].key == k }

  /** The checks of the manifest's constructor on keys. */
  ghost predicate ValidManifest(m: Manifest) {
    && (forall i, j :: 0 <= i < j < |m.artifacts| ==> m.artifacts[i].key != m.artifacts[j].key)
    && (forall i, j :: 0 <= i < j < |m.live| ==> m.live[i] != m.live[j])
    && (forall k :: k in m.live ==> Lists(m.artifacts, k))
    && (forall i, j :: 0 <= i < j < |m.queue| ==> m.queue[i].key != m.queue[j].key)
    && forall k :: k in m.live ==> !Queued(m.queue, k)
  }

  // ---- Retiring objects ----

  predicate Retires(live: seq<Key>, current: set<Key>, queue: seq<QueueEntry>, a: Artifact) {
    ImmutableKey(a.key) && a.key in live && a.key !in current && !Queued(queue, a.key)
  }

  function Extended(queue: seq<QueueEntry>, artifacts: seq<Artifact>, live: seq<Key>, current: set<Key>): seq<QueueEntry>
    decreases |artifacts|
  {
    if artifacts == [] then queue
    else
      var a := artifacts[0];
      Extended(if Retires(live, current, queue, a) then queue + [QueueEntry(a.key, a.digest, a.size)] else queue,
               artifacts[1..], live, current)
  }

  /** The tombstones of the generation after `m` whose artifacts have the keys `current`. */
  function NextQueue(m: Manifest, current: set<Key>): seq<QueueEntry> {
    Extended(m.queue, m.artifacts, m.live, current)
  }

  /** A tombstone records key, digest and size of one of the artifacts. */
  predicate Records(artifacts: seq<Artifact>, e: QueueEntry) {
    exists i :: 0 <= i < |artifacts| && artifacts[i] == Artifact(e.key, e.digest, e.size)
  }

  /** An immutable object that was live, is not current any more, and was described as the entry says. */
  predicate Retired(artifacts: seq<Artifact>, live: seq<Key>, current: set<Key>, e: QueueEntry) {
    Records(artifacts, e) && ImmutableKey(e.key) && e.key in live && e.key !in current
  }

  /** The loop over the previous artifacts, or the refusal of a resurrected object. */
  method Assemble(previous: Option<Manifest>, current: set<Key>) returns (r: Option<seq<QueueEntry>>)
    ensures r.None? <==> previous.Some? && exists k :: k in current && Queued(previous.value.queue, k)
    ensures r.Some? ==> r.value == if previous.Some? then NextQueue(previous.value, current) else []
    ensures r.Some? && previous.Some? ==>
      var m := previous.value;
      && m.queue <= r.value
      && (forall i :: |m.queue| <= i < |r.value| ==> Retired(m.artifacts, m.live, current, r.value[i]))
      && forall k :: Queued(r.value, k) <==> Queued(m.queue, k) || (LiveAmong(m.artifacts, m.live, k) && k !in current)
  {
    hide Retires;
    if previous.None? {
      return Some([]);
    }
    var m := previous.value;
    ExtendedKeys(m.queue, m.artifacts, m.live, current);
    ExtendedEntries(m.queue, m.artifacts, m.live, current);
    hide Retired, Queued, LiveAmong;
    var queue := m.queue;
    for i := 0 to |queue|
      invariant forall j :: 0 <= j < i ==> m.queue[j].key !in current
    {
      if queue[i].key in current {
        return None;
      }
    }
    for i := 0 to |m.artifacts|
      invariant Extended(m.queue, m.artifacts, m.live, current) == Extended(queue, m.artifacts[i..], m.live, current)
    {
      var a := m.artifacts[i];
      assert m.artifacts[i..][0] == a && m.artifacts[i..][1..] == m.artifacts[i + 1..];
      if Retires(m.live, current, queue, a) {
        queue := queue + [QueueEntry(a.key, a.digest, a.size)];
      }
    }
    return Some(queue);
  }

  predicate LiveAmong(artifacts: seq<Artifact>, live: seq<Key>, k: Key) {
    Lists(artifacts, k) && k in live && ImmutableKey(k)
  }

  predicate DistinctQueue(queue: seq<QueueEntry>) {
    forall i, j :: 0 <= i < j < |queue| ==> queue[i].key != queue[j].key
  }

  lemma {:induction false} QueuedAppend(queue: seq<QueueEntry>, e: QueueEntry, k: Key)
    ensures Queued(queue + [e], k) <==> Queued(queue, k) || e.key == k
  {
    if i :| 0 <= i < |queue| && queue[i].key == k { assert (queue + [e])[i].key == k; }
    if e.key == k { assert (queue + [e])[|queue|].key == k; }
  }

  /** Tombstones are permanent; exactly the objects that were live, immutable and are not current any
      more join them. */
  lemma {:induction false} ExtendedKeys(queue: seq<QueueEntry>, artifacts: seq<Artifact>, live: seq<Key>, current: set<Key>)
    ensures var q := Extended(queue, artifacts, live, current);
      && queue <= q
      && (DistinctQueue(queue) ==> DistinctQueue(q))
      && forall k :: Queued(q, k) <==> Queued(queue, k) || (LiveAmong(artifacts, live, k) && k !in current)
    decreases |artifacts|
  {
    hide ImmutableKey, Queued;
    if artifacts != [] {
      var a, rest := artifacts[0], artifacts[1..];
      var e := QueueEntry(a.key, a.digest, a.size);
      var next := if Retires(live, current, queue, a) then queue + [e] else queue;
      if Retires(live, current, queue, a) { DistinctAppend(queue, e); }
      ExtendedKeys(next, rest, live, current);
      forall k
        ensures Queued(Extended(queue, artifacts, live, current), k) <==>
                Queued(queue, k) || (LiveAmong(artifacts, live, k) && k !in current)
      {
        QueuedAppend(queue, e, k);
        ListsCons(artifacts, k);
      }
    }
  }

  /** Every tombstone that joins records key, digest and size of an artifact that was retired. */
  lemma {:induction false} ExtendedEntries(queue: seq<QueueEntry>, artifacts: seq<Artifact>, live: seq<Key>, current: set<Key>)
    ensures var q := Extended(queue, artifacts, live, current);
      |queue| <= |q| && forall i :: |queue| <= i < |q| ==> Retired(artifacts, live, current, q[i])
    decreases |artifacts|
  {
    hide ImmutableKey, Queued;
    if artifacts != [] {
      var a, rest := artifacts[0], artifacts[1..];
      var next := if Retires(live, current, queue, a) then queue + [QueueEntry(a.key, a.digest, a.size)] else queue;
      ExtendedEntries(next, rest, live, current);
      ExtendedKeys(next, rest, live, current);
      var q := Extended(queue, artifacts, live, current);
      forall i | |queue| <= i < |q| ensures Retired(artifacts, live, current, q[i]) {
        if i < |next| {
          assert q[i] == next[i] && artifacts[0] == Artifact(q[i].key, q[i].digest, q[i].size);
        } else {
          var j :| 0 <= j < |rest| && rest[j] == Artifact(q[i].key, q[i].digest, q[i].size);
          assert artifacts[j + 1] == rest[j];
        }
      }
    }
  }

  lemma {:induction false} DistinctAppend(queue: seq<QueueEntry>, e: QueueEntry)
    requires !Queued(queue, e.key)
    ensures DistinctQueue(queue) ==> DistinctQueue(queue + [e])
  {
  }

  lemma {:induction false} ListsCons(artifacts: seq<Artifact>, k: Key)
    requires artifacts != []
    ensures Lists(artifacts, k) <==> artifacts[0].key == k || Lists(artifacts[1..], k)
  {
    if i :| 0 <= i < |artifacts[1..]| && artifacts[1..][i].key == k { assert artifacts[i + 1].key == k; }
    if i :| 0 <= i < |artifacts| && artifacts[i].key == k && i > 0 { assert artifacts[1..][i - 1].key == k; }
  }

  /** Keys that are not immutable, such as those of the signatures added after assembly, retire nothing. */
  lemma {:induction false} OnlyImmutableKeysCount(queue: seq<QueueEntry>, artifacts: seq<Artifact>, live: seq<Key>,
                                                  a: set<Key>, b: set<Key>)
    requires forall k :: ImmutableKey(k) ==> (k in a <==> k in b)
    ensures Extended(queue, artifacts, live, a) == Extended(queue, artifacts, live, b)
    decreases |artifacts|
  {
    hide ImmutableKey, Queued;
    if artifacts != [] {
      var e := QueueEntry(artifacts[0].key, artifacts[0].digest, artifacts[0].size);
      OnlyImmutableKeysCount(if Retires(live, a, queue, artifacts[0]) then queue + [e] else queue, artifacts[1..], live, a, b);
    }
  }

  // ---- Planning deletions ----

  datatype GcTarget = GcTarget(key: Key, digest: Digest, size: nat)

  datatype GcPlan = GcPlan(generation: nat, targets: seq<GcTarget>)

  datatype GcError = BadCaps | TargetTooLarge | Differs | OverCaps | GenerationChanged

  predicate Matches(o: Object, t: GcTarget) {
    o.body.Bytes? && |o.body.data| == t.size && o.body.data == t.digest && EndsWith(o.metadata.cacheControl, "immutable")
  }

  /** The queued entry of every key that is not live, as the dictionary has it. */
  function Candidates(queue: seq<QueueEntry>, live: seq<Key>): map<Key, GcTarget> {
    if queue == [] then map[]
    else
      var e, before := queue[|queue| - 1], Candidates(queue[..|queue| - 1], live);
      if e.key in live then before else before[e.key := GcTarget(e.key, e.digest, e.size)]
  }

  function Total(targets: seq<GcTarget>): nat {
    if targets == [] then 0 else Total(targets[..|targets| - 1]) + targets[|targets| - 1].size
  }

  /** The candidates among `ks` that still exist; missing ones are already complete. */
  function Existing(ks: seq<Key>, candidates: map<Key, GcTarget>, s: StoreState): (targets: seq<GcTarget>)
    requires forall k :: k in ks ==> k in candidates
  {
    if ks == [] then []
    else
      var k := ks[|ks| - 1];
      Existing(ks[..|ks| - 1], candidates, s) + if k in s.objects then [candidates[k]] else []
  }

  /** What the plan must contain. */
  function Complete(m: Manifest, s: StoreState): seq<GcTarget> {
    var candidates := Candidates(m.queue, m.live);
    Existing(Sorted(candidates.Keys), candidates, s)
  }

  ghost predicate Clean(k: Key, candidates: map<Key, GcTarget>, s: StoreState, maxBytes: int) {
    k in candidates ==>
      candidates[k].size <= maxBytes && (k in s.objects ==> Matches(s.objects[k].content, candidates[k]))
  }

  ghost predicate AllClean(candidates: map<Key, GcTarget>, s: StoreState, maxBytes: int) {
    forall k :: k in candidates ==> Clean(k, candidates, s, maxBytes)
  }

  /** Some tombstoned object is not any more what its tombstone says. */
  ghost predicate Changed(candidates: map<Key, GcTarget>, s: StoreState) {
    exists k :: k in candidates && k in s.objects && !Matches(s.objects[k].content, candidates[k])
  }

  lemma {:induction false} OneIsNotClean(candidates: map<Key, GcTarget>, s: StoreState, maxBytes: int, k: Key)
    requires k in candidates && !Clean(k, candidates, s, maxBytes)
    ensures !AllClean(candidates, s, maxBytes)
  {
  }

  /** A plan exists exactly when all tombstoned objects that still exist are unchanged and all of
      them together fit the caps; it is then complete, never a part. */
  method PlanGc(m: Manifest, store: ConditionalObjectStore, maxObjects: int, maxBytes: int) returns (r: Result<GcPlan, GcError>)
    ensures r.Ok? <==>
      && maxObjects >= 1 && maxBytes >= 1
      && AllClean(Candidates(m.queue, m.live), store.State(), maxBytes)
      && |Complete(m, store.State())| <= maxObjects && Total(Complete(m, store.State())) <= maxBytes
    ensures r.Ok? ==> r.value == GcPlan(m.generation, Complete(m, store.State()))
    ensures r.Err? ==>
      match r.error
      case BadCaps => maxObjects < 1 || maxBytes < 1
      case TargetTooLarge => exists k :: k in Candidates(m.queue, m.live) && Candidates(m.queue, m.live)[k].size > maxBytes
      case Differs => Changed(Candidates(m.queue, m.live), store.State())
      case OverCaps => |Complete(m, store.State())| > maxObjects || Total(Complete(m, store.State())) > maxBytes
      case GenerationChanged => false
  {
    hide Candidates, Existing, Total, Matches;
    if maxObjects < 1 || maxBytes < 1 {
      return Err(BadCaps);
    }
    var queued := Candidates(m.queue, m.live);
    var ks := Sorted(queued.Keys);
    var targets: seq<GcTarget> := [];
    var total := 0;
    NothingExists(queued, store.State());
    for i := 0 to |ks|
      invariant targets == Existing(ks[..i], queued, store.State()) && total == Total(targets)
      invariant |targets| <= maxObjects && total <= maxBytes
      invariant forall k :: k in ks[..i] ==> Clean(k, queued, store.State(), maxBytes)
    {
      var k := ks[i];
      assert k in ks;
      ExistingNext(ks, i, queued, store.State());
      ExistingGrows(ks, i + 1, queued, store.State());
      if queued[k].size > maxBytes {
        OneIsNotClean(queued, store.State(), maxBytes, k);
        return Err(TargetTooLarge);
      }
      var current := store.Get(k);
      if current.Some? {
        if !Matches(current.value.content, queued[k]) {
          OneIsNotClean(queued, store.State(), maxBytes, k);
          return Err(Differs);
        }
        if |targets| >= maxObjects || total + queued[k].size > maxBytes {
          return Err(OverCaps);
        }
        targets := targets + [queued[k]];
        total := total + queued[k].size;
      }
    }
    assert ks[..|ks|] == ks;
    return Ok(GcPlan(m.generation, targets));
  }

  lemma {:induction false} NothingExists(candidates: map<Key, GcTarget>, s: StoreState)
    ensures Existing([], candidates, s) == [] && Total([]) == 0
  {
  }

  lemma {:induction false} ExistingNext(ks: seq<Key>, i: nat, candidates: map<Key, GcTarget>, s: StoreState)
    requires i < |ks| && forall k :: k in ks ==> k in candidates
    ensures var targets := Existing(ks[..i], candidates, s);
            var more := if ks[i] in s.objects then targets + [candidates[ks[i]]] else targets;
            && Existing(ks[..i + 1], candidates, s) == more
            && Total(more) == Total(targets) + (if ks[i] in s.objects then candidates[ks[i]].size else 0)
    ensures ks[..i + 1] == ks[..i] + [ks[i]]
  {
    hide Total;
    assert ks[..i + 1][..i] == ks[..i] && ks[..i + 1] == ks[..i] + [ks[i]];
    var targets := Existing(ks[..i], candidates, s);
    TotalAppend(targets, candidates[ks[i]]);
    assert targets + [] == targets;
  }

  lemma {:induction false} TotalAppend(targets: seq<GcTarget>, t: GcTarget)
    ensures Total(targets + [t]) == Total(targets) + t.size
  {
    assert (targets + [t])[..|targets|] == targets;
  }

  /** Sizes are never negative, so a prefix over the caps decides. */
  lemma {:induction false} ExistingGrows(ks: seq<Key>, i: nat, candidates: map<Key, GcTarget>, s: StoreState)
    requires i <= |ks| && forall k :: k in ks ==> k in candidates
    ensures |Existing(ks[..i], candidates, s)| <= |Existing(ks, candidates, s)|
    ensures Total(Existing(ks[..i], candidates, s)) <= Total(Existing(ks, candidates, s))
    decreases |ks| - i
  {
    hide Existing, Total;
    if i == |ks| {
      assert ks[..i] == ks;
    } else {
      ExistingNext(ks, i, candidates, s);
      ExistingGrows(ks, i + 1, candidates, s);
    }
  }

  lemma {:induction false} CandidateKeys(queue: seq<QueueEntry>, live: seq<Key>, k: Key)
    ensures k in Candidates(queue, live) <==> Queued(queue, k) && k !in live
    ensures k in Candidates(queue, live) ==> Candidates(queue, live)[k].key == k
    ensures k in Candidates(queue, live) ==>
      exists e :: e in queue && Candidates(queue, live)[k] == GcTarget(e.key, e.digest, e.size)
  {
    if queue != [] {
      var before, e := queue[..|queue| - 1], queue[|queue| - 1];
      CandidateKeys(before, live, k);
      if k in Candidates(before, live) {
        var d :| d in before && Candidates(before, live)[k] == GcTarget(d.key, d.digest, d.size);
        assert d in queue;
      }
      assert e in queue;
      QueuedAppend(before, e, k);
      assert before + [e] == queue;
    }
  }

  predicate Targets(targets: seq<GcTarget>, k: Key) { exists i :: 0 <= i < |targets| && targets[i].key == k }

  lemma {:induction false} ExistingKeys(ks: seq<Key>, candidates: map<Key, GcTarget>, s: StoreState, k: Key)
    requires forall l :: l in ks ==> l in candidates && candidates[l].key == l
    ensures Targets(Existing(ks, candidates, s), k) <==> k in ks && k in s.objects
  {
    if ks != [] {
      var rest, last := ks[..|ks| - 1], ks[|ks| - 1];
      ExistingKeys(rest, candidates, s, k);
      var some := Existing(rest, candidates, s);
      TargetsAppend(some, candidates[last], k);
      assert some + [] == some;
      assert rest + [last] == ks;
    }
  }

  lemma {:induction false} TargetsAppend(targets: seq<GcTarget>, t: GcTarget, k: Key)
    ensures Targets(targets + [t], k) <==> Targets(targets, k) || t.key == k
  {
    if i :| 0 <= i < |targets| && targets[i].key == k { assert (targets + [t])[i].key == k; }
    if t.key == k { assert (targets + [t])[|targets|].key == k; }
  }

  /** The plan deletes the tombstoned objects that still exist and nothing that is live. */
  lemma {:induction false} PlanTargetsTombstones(m: Manifest, s: StoreState, k: Key)
    ensures Targets(Complete(m, s), k) <==> Queued(m.queue, k) && k !in m.live && k in s.objects
  {
    hide Candidates, Existing, Queued;
    var candidates := Candidates(m.queue, m.live);
    forall l | l in candidates.Keys ensures candidates[l].key == l { CandidateKeys(m.queue, m.live, l); }
    CandidateKeys(m.queue, m.live, k);
    ExistingKeys(Sorted(candidates.Keys), candidates, s, k);
  }

  // ---- Executing deletions ----

  /** The store without the first targets of a plan. */
  function Swept(s: StoreState, targets: seq<GcTarget>): StoreState {
    if targets == [] then s else Swept(s, targets[..|targets| - 1]).Without(targets[|targets| - 1].key)
  }

  /** The generation that the state pointer shows, or none if it is not the published one. */
  function Observed(s: StoreState, stateKey: Key, pointer: Body, generation: nat): int {
    if s.Get(stateKey).Some? && s.Get(stateKey).value.content.body == pointer then generation else -1
  }

  /** The object is, byte for byte and by its caching, the immutable one that was retired under the key. */
  predicate Describes(t: GcTarget, k: Key, o: Object) {
    t.key == k && o.body == Bytes(t.digest) && t.size == |t.digest| && EndsWith(o.metadata.cacheControl, "immutable")
  }

  /** Deletes in order; a foreign object or another generation stops it. The lease checkpoint around
      each deletion writes only the lease object and is not part of this store. */
  method ExecuteGc(plan: GcPlan, store: ConditionalObjectStore, stateKey: Key, pointer: Body, generation: nat)
    returns (r: Result<seq<Key>, GcError>, ghost done: nat)
    modifies store
    ensures done <= |plan.targets| && store.State() == Swept(old(store.State()), plan.targets[..done])
    ensures r.Ok? ==> done == |plan.targets|
    ensures r.Ok? && plan.targets != [] ==> Observed(old(store.State()), stateKey, pointer, generation) == plan.generation
    ensures r.Ok? ==> forall k :: k in r.value <==> k in old(store.State()).objects && Targets(plan.targets, k)
    ensures forall k :: k in old(store.State()).objects && k !in store.State().objects ==>
      exists i :: 0 <= i < |plan.targets| && Describes(plan.targets[i], k, old(store.State()).objects[k].content)
    ensures r.Err? ==> plan.targets != [] && (r.error == GenerationChanged || r.error == Differs)
    ensures r.Err? && r.error == GenerationChanged ==> Observed(store.State(), stateKey, pointer, generation) != plan.generation
    ensures r.Err? && r.error == Differs ==>
      && done < |plan.targets| && plan.targets[done].key in store.State().objects
      && !Matches(store.State().objects[plan.targets[done].key].content, plan.targets[done])
  {
    hide Matches, Targets, Swept, Describes;
    NothingTargeted(old(store.State()));
    var deleted: seq<Key> := [];
    done := 0;
    for i := 0 to |plan.targets|
      invariant done == i && store.State() == Swept(old(store.State()), plan.targets[..i])
      invariant forall k :: k in store.objects ==> k in old(store.objects) && store.objects[k] == old(store.objects)[k]
      invariant forall k :: k in old(store.State()).objects && k !in store.State().objects ==>
        exists j :: 0 <= j < i && Describes(plan.targets[j], k, old(store.State()).objects[k].content)
      invariant i > 0 ==> Observed(old(store.State()), stateKey, pointer, generation) == plan.generation
      invariant forall k :: k in deleted <==> k in old(store.State()).objects && Targets(plan.targets[..i], k)
    {
      var t := plan.targets[i];
      SweptNext(old(store.State()), plan.targets, i);
      TargetsNext(old(store.State()), plan.targets, i);
      if Observed(store.State(), stateKey, pointer, generation) != plan.generation {
        return Err(GenerationChanged), done;
      }
      ObservedBefore(old(store.State()), store.State(), stateKey, pointer, generation);
      var current := store.Get(t.key);
      if current.None? {
        WithoutMissing(store.State(), t.key);
        done := done + 1;
        continue;
      }
      if !Matches(current.value.content, t) {
        return Err(Differs), done;
      }
      MatchesDescribes(t, current.value.content);
      store.Delete(t.key);
      done := done + 1;
      if Observed(store.State(), stateKey, pointer, generation) != plan.generation {
        return Err(GenerationChanged), done;
      }
      deleted := deleted + [t.key];
    }
    assert plan.targets[..|plan.targets|] == plan.targets;
    return Ok(deleted), done;
  }

  lemma {:induction false} MatchesDescribes(t: GcTarget, o: Object)
    requires Matches(o, t)
    ensures Describes(t, t.key, o)
  {
  }

  lemma {:induction false} SweptNext(s: StoreState, targets: seq<GcTarget>, i: nat)
    requires i < |targets|
    ensures Swept(s, targets[..i + 1]) == Swept(s, targets[..i]).Without(targets[i].key)
  {
    assert targets[..i + 1][..i] == targets[..i];
  }

  lemma {:induction false} NothingTargeted(s: StoreState)
    ensures Swept(s, []) == s && forall k :: !Targets([], k)
  {
  }

  lemma {:induction false} TargetsNext(s: StoreState, targets: seq<GcTarget>, i: nat)
    requires i < |targets|
    ensures forall k :: Targets(targets[..i + 1], k) <==> Targets(targets[..i], k) || targets[i].key == k
    ensures targets[i].key !in Swept(s, targets[..i]).objects && targets[i].key in s.objects ==>
            Targets(targets[..i], targets[i].key)
  {
    hide Targets, Swept;
    assert targets[..i + 1] == targets[..i] + [targets[i]];
    forall k ensures Targets(targets[..i + 1], k) <==> Targets(targets[..i], k) || targets[i].key == k {
      TargetsAppend(targets[..i], targets[i], k);
    }
    SweptObjects(s, targets[..i], targets[i].key);
  }

  lemma {:induction false} WithoutMissing(s: StoreState, k: Key)
    requires k !in s.objects
    ensures s.Without(k) == s
  {
    assert s.objects - {k} == s.objects;
  }

  lemma {:induction false} ObservedBefore(s: StoreState, t: StoreState, stateKey: Key, pointer: Body, generation: nat)
    requires forall k :: k in t.objects ==> k in s.objects && t.objects[k] == s.objects[k]
    requires Observed(t, stateKey, pointer, generation) >= 0
    ensures Observed(s, stateKey, pointer, generation) == Observed(t, stateKey, pointer, generation)
  {
  }

  /** Sweeping removes exactly the targets. */
  lemma {:induction false} SweptObjects(s: StoreState, targets: seq<GcTarget>, k: Key)
    ensures Swept(s, targets).revision == s.revision
    ensures Swept(s, targets).Get(k) == if Targets(targets, k) then None else s.Get(k)
  {
    if targets != [] {
      var rest, t := targets[..|targets| - 1], targets[|targets| - 1];
      SweptObjects(s, rest, k);
      TargetsAppend(rest, t, k);
      assert rest + [t] == targets;
    }
  }
}
