/** The store behind a network that may lose a response after the request took effect. */
module RemoteStore {
  import opened Outcome
  import opened Keys
  import opened Store

  /** How one request ends: answered, refused without effect, or with its response lost. */
  datatype Fault = Answered | Refused(status: nat) | LostAfter(status: nat)

  datatype RemoteError = Precondition | Differs | Status(status: nat)

  predicate Ambiguous(status: nat) { status in {0, 500, 502, 503, 504} }

  /** What the request alone does to the store. */
  function Effect(s: StoreState, step: StoreStep, fault: Fault): StoreState {
    if fault.Refused? then s else After(s, step)
  }

  class S3ObjectStore {
    const store: ConditionalObjectStore

    constructor (store: ConditionalObjectStore)
      ensures this.store == store
    {
      this.store := store;
    }

    /** An answered put tells the truth; a failed precondition is never reconciled into success; an
        ambiguous failure becomes success exactly when the intended object is there. Ambiguous are a
        response lost without a status, as status 0, and server failures, but no refusal of a client. */
    method Put(k: Key, o: Object, c: Condition, fault: Fault, others: seq<StoreStep>)
      returns (r: Result<Stored, RemoteError>)
      modifies store
      ensures store.State() == AfterAll(Effect(old(store.State()), PutAt(k, o, c), fault), if fault.Answered? then [] else others)
      ensures fault.Answered? ==> r == if Met(old(store.State()), k, c) then Ok(store.State().objects[k]) else Err(Precondition)
      ensures !fault.Answered? ==>
        r == if Ambiguous(fault.status) && store.State().Holds(k, o) then Ok(store.State().objects[k]) else Err(Status(fault.status))
      ensures !fault.Answered? && (fault.status == 0 || fault.status == 500 || 502 <= fault.status <= 504) ==>
        (r.Ok? <==> store.State().Holds(k, o))
      ensures !fault.Answered? && (1 <= fault.status < 500 || fault.status == 501 || fault.status > 504) ==>
        r == Err(Status(fault.status))
      ensures r.Ok? ==> store.State().Get(k) == Some(r.value) && r.value.content == o
    {
      if fault.Answered? {
        var stored := store.Put(k, o, c);
        return if stored.Ok? then Ok(stored.value) else Err(Precondition);
      }
      if fault.LostAfter? {
        var _ := store.Put(k, o, c);
      }
      store.OthersAct(others);
      if !Ambiguous(fault.status) {
        return Err(Status(fault.status));
      }
      var current := store.Get(k);
      return if current.Some? && current.value.content == o then Ok(current.value) else Err(Status(fault.status));
    }

    /** A lost creation race is success exactly when, by then, the same object is there; other clients
        may act between the refusal and the read that decides. */
    method CreateImmutable(k: Key, o: Object, fault: Fault, others: seq<StoreStep>) returns (r: Result<Stored, RemoteError>)
      modifies store
      ensures var undisturbed := fault.Answered? && k !in old(store.State()).objects;
              store.State() == AfterAll(Effect(old(store.State()), CreateAt(k, o), fault), if undisturbed then [] else others)
      ensures r.Ok? <==> store.State().Holds(k, o) && (fault.Answered? || Ambiguous(fault.status))
      ensures r.Ok? ==> store.State().Get(k) == Some(r.value)
      ensures fault.Answered? && r.Err? ==> r.error == Differs
    {
      r := Put(k, o, IfAbsent, fault, others);
      if r.Err? && r.error == Precondition {
        store.OthersAct(others);
        var current := store.Get(k);
        return if current.None? || current.value.content != o then Err(Differs) else Ok(current.value);
      }
    }

    /** A delete that reports success left no object behind. */
    method Delete(k: Key, fault: Fault, others: seq<StoreStep>) returns (r: Result<(), RemoteError>)
      modifies store
      ensures store.State() == AfterAll(Effect(old(store.State()), DeleteAt(k), fault), if fault.Answered? then [] else others)
      ensures r.Ok? <==> fault.Answered? || (Ambiguous(fault.status) && k !in store.State().objects)
      ensures r.Ok? ==> k !in store.State().objects
      ensures !fault.Answered? && (fault.status == 0 || fault.status == 500 || 502 <= fault.status <= 504) ==>
        (r.Ok? <==> k !in store.State().objects)
      ensures !fault.Answered? && (1 <= fault.status < 500 || fault.status == 501 || fault.status > 504) ==> r.Err?
    {
      if fault.Answered? {
        store.Delete(k);
        return Ok(());
      }
      if fault.LostAfter? {
        store.Delete(k);
      }
      store.OthersAct(others);
      if !Ambiguous(fault.status) {
        return Err(Status(fault.status));
      }
      var current := store.Get(k);
      return if current.None? then Ok(()) else Err(Status(fault.status));
    }
  }

  /** Unless somebody else touched the key, re-reading after a lost response tells whether this put
      took effect, except that an equal object may have been there before. */
  lemma {:induction false} ReconciliationIsExact(s: StoreState, k: Key, o: Object, c: Condition, fault: Fault, others: seq<StoreStep>)
    requires !fault.Answered? && forall i :: 0 <= i < |others| ==> others[i].k != k
    ensures AfterAll(Effect(s, PutAt(k, o, c), fault), others).Holds(k, o) <==>
            s.Holds(k, o) || (fault.LostAfter? && Met(s, k, c))
  {
    UntouchedKey(Effect(s, PutAt(k, o, c), fault), others, k);
  }
}
