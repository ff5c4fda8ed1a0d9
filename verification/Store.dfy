/** The conditional object store that every protocol runs against. */
module Store {
  import opened Outcome
  import opened Keys

  type Etag = nat

  datatype LeaseOwner = LeaseOwner(repository: string, runId: string, runAttempt: string, operation: string, nonce: string)

  /** A lease record with timestamps in whole seconds. */
  datatype LeaseRecord =
    | Held(updated: int, owner: LeaseOwner, acquired: int, expires: int)
    | Free(updated: int, released: int)

  /** Object bytes; the canonical document of a lease record is represented by the record. */
  datatype Body = Bytes(data: seq<bv8>) | LeaseDocument(record: LeaseRecord)

  datatype Metadata = Metadata(contentType: string, cacheControl: string)

  datatype Object = Object(body: Body, metadata: Metadata)

  datatype Stored = Stored(content: Object, etag: Etag)

  datatype StoreState = StoreState(objects: map<Key, Stored>, revision: nat) {
    /** Etags come from the revision counter and are never reused. */
    ghost predicate Valid() {
      && (forall k :: k in objects ==> objects[k].etag <= revision)
      && forall k, l :: k in objects && l in objects && k != l ==> objects[k].etag != objects[l].etag
    }

    function Get(k: Key): Option<Stored> { if k in objects then Some(objects[k]) else None }

    predicate Holds(k: Key, o: Object) { k in objects && objects[k].content == o }

    /** What a reader sees. */
    function Contents(): map<Key, Object> { map k | k in objects :: objects[k].content }

    function Written(k: Key, o: Object): StoreState {
      StoreState(objects[k := Stored(o, revision + 1)], revision + 1)
    }

    function Without(k: Key): StoreState { StoreState(objects - {k}, revision) }
  }

  datatype Condition = IfAbsent | IfEtag(etag: Etag)

  predicate Met(s: StoreState, k: Key, c: Condition) {
    match c
    case IfAbsent => k !in s.objects
    case IfEtag(e) => k in s.objects && s.objects[k].etag == e
  }

  datatype StoreError = PreconditionFailed | Collision

  /** Sections 13.1.1 and 13.1.2 of RFC 9110: a write happens exactly when its precondition is met. */
  function PutStep(s: StoreState, k: Key, o: Object, c: Condition): Result<StoreState, StoreError> {
    if Met(s, k, c) then Ok(s.Written(k, o)) else Err(PreconditionFailed)
  }

  /** Creating an immutable object accepts an equal existing one and never replaces any. */
  function CreateStep(s: StoreState, k: Key, o: Object): Result<StoreState, StoreError> {
    if k !in s.objects then Ok(s.Written(k, o))
    else if s.objects[k].content == o then Ok(s) else Err(Collision)
  }

  lemma {:induction false} WrittenIsValid(s: StoreState, k: Key, o: Object)
    requires s.Valid()
    ensures s.Written(k, o).Valid()
  {
  }

  lemma {:induction false} WithoutIsValid(s: StoreState, k: Key)
    requires s.Valid()
    ensures s.Without(k).Valid()
  {
  }

  class ConditionalObjectStore {
    var objects: map<Key, Stored>
    var revision: nat

    function State(): StoreState
      reads this
    {
      StoreState(objects, revision)
    }

    constructor ()
      ensures State() == StoreState(map[], 0) && State().Valid()
    {
      objects, revision := map[], 0;
    }

    method Get(k: Key) returns (r: Option<Stored>)
      ensures r == State().Get(k)
    {
      return if k in objects then Some(objects[k]) else None;
    }

    method Put(k: Key, o: Object, c: Condition) returns (r: Result<Stored, StoreError>)
      modifies this
      ensures r.Ok? <==> Met(old(State()), k, c)
      ensures State() == if r.Ok? then old(State()).Written(k, o) else old(State())
      ensures r == if r.Ok? then Ok(State().objects[k]) else Err(PreconditionFailed)
      ensures old(State()).Valid() ==> State().Valid()
    {
      if c.IfAbsent? {
        if k in objects {
          return Err(PreconditionFailed);
        }
      } else if k !in objects || objects[k].etag != c.etag {
        return Err(PreconditionFailed);
      }
      revision := revision + 1;
      var stored := Stored(o, revision);
      objects := objects[k := stored];
      return Ok(stored);
    }

    method CreateImmutable(k: Key, o: Object) returns (r: Result<Stored, StoreError>)
      modifies this
      ensures var step := CreateStep(old(State()), k, o);
              if step.Ok? then State() == step.value && r == Ok(State().objects[k])
              else State() == old(State()) && r == Err(step.error)
      ensures old(State()).Valid() ==> State().Valid()
    {
      r := Put(k, o, IfAbsent);
      if r.Err? {
        var current := Get(k);
        if current.None? || current.value.content != o {
          return Err(Collision);
        }
        return Ok(current.value);
      }
    }

    method Delete(k: Key)
      modifies this
      ensures State() == old(State()).Without(k)
      ensures old(State()).Valid() ==> State().Valid()
    {
      objects := objects - {k};
    }

    /** Other clients act between two requests of one client. */
    method OthersAct(steps: seq<StoreStep>)
      modifies this
      ensures State() == AfterAll(old(State()), steps)
    {
      hide After;
      for i := 0 to |steps|
        invariant AfterAll(old(State()), steps) == AfterAll(State(), steps[i..])
      {
        ghost var before := State();
        match steps[i] {
          case PutAt(k, o, c) => var _ := Put(k, o, c);
          case CreateAt(k, o) => var _ := CreateImmutable(k, o);
          case DeleteAt(k) => Delete(k);
        }
        StepMeans(before, steps[i]);
        assert steps[i..][0] == steps[i] && steps[i..][1..] == steps[i + 1..];
      }
    }

    method ListKeys(prefix: string) returns (ks: seq<Key>)
      ensures ks == Sorted(set k | k in State().objects && StartsWith(k, prefix))
    {
      ks := Sorted(set k | k in objects && StartsWith(k, prefix));
    }
  }

  // ---- Etags over many steps ----

  datatype StoreStep = PutAt(k: Key, o: Object, c: Condition) | CreateAt(k: Key, o: Object) | DeleteAt(k: Key)

  /** A step of any client; one whose precondition fails changes nothing. */
  function After(s: StoreState, step: StoreStep): StoreState {
    match step
    case PutAt(k, o, c) => if Met(s, k, c) then s.Written(k, o) else s
    case CreateAt(k, o) => if k in s.objects then s else s.Written(k, o)
    case DeleteAt(k) => s.Without(k)
  }

  function AfterAll(s: StoreState, steps: seq<StoreStep>): StoreState
    decreases |steps|
  {
    if steps == [] then s else AfterAll(After(s, steps[0]), steps[1..])
  }

  lemma {:induction false} StepMeans(s: StoreState, step: StoreStep)
    ensures step.PutAt? ==> After(s, step) == if Met(s, step.k, step.c) then s.Written(step.k, step.o) else s
    ensures step.CreateAt? ==> After(s, step) == if step.k in s.objects then s else s.Written(step.k, step.o)
    ensures step.DeleteAt? ==> After(s, step) == s.Without(step.k)
  {
  }

  lemma {:induction false} UntouchedKey(s: StoreState, steps: seq<StoreStep>, k: Key)
    requires forall i :: 0 <= i < |steps| ==> steps[i].k != k
    ensures AfterAll(s, steps).Get(k) == s.Get(k)
    decreases |steps|
  {
    if steps != [] {
      UntouchedKey(After(s, steps[0]), steps[1..], k);
    }
  }

  lemma {:induction false} StepKeepsValid(s: StoreState, step: StoreStep)
    requires s.Valid()
    ensures After(s, step).Valid() && s.revision <= After(s, step).revision
  {
  }

  /** An etag that is gone, or that a key has lost, never comes back: whoever sees it again sees the
      same object and nothing was written to that key meanwhile. */
  lemma {:induction false} EtagsAreNeverReused(s: StoreState, steps: seq<StoreStep>, k: Key)
    requires s.Valid()
    ensures var t := AfterAll(s, steps);
      && t.Valid() && s.revision <= t.revision
      && (k in t.objects && t.objects[k].etag <= s.revision ==> k in s.objects && s.objects[k] == t.objects[k])
    decreases |steps|
  {
    if steps != [] {
      StepKeepsValid(s, steps[0]);
      EtagsAreNeverReused(After(s, steps[0]), steps[1..], k);
    }
  }
}
