/** The fenced production lease: decisions on one conditionally overwritten object. */
module Lease {
  import opened Outcome
  import opened Keys
  import opened Store

  const LeaseKey: Key := "state/locks/production.json"
  const LeaseMetadata: Metadata := Metadata("application/json", "private, no-store")

  function LeaseObject(record: LeaseRecord): Object { Object(LeaseDocument(record), LeaseMetadata) }

  datatype LeaseHandle = LeaseHandle(owner: LeaseOwner, record: LeaseRecord, etag: Etag, tookOver: bool)

  datatype LeaseError = Busy | Lost | BadBounds | BadTimestamps | StoreRefused

  /** Lifetime of a held lease and the grace before a takeover, in seconds. */
  datatype LimitsValue = Limits(ttl: int, grace: int)

  type Limits = l: LimitsValue | l.ttl >= 60 && l.grace >= 0 witness Limits(60, 0)

  /** A clock reading in microseconds, cut to whole seconds. */
  function Seconds(now: int): int { now / 1_000_000 }

  /** The invariant of a lease record. */
  predicate ValidRecord(r: LeaseRecord) {
    if r.Held? then r.acquired <= r.updated < r.expires else r.released == r.updated
  }

  /** The record of an object that is exactly a lease; anything else fails closed. */
  function Exact(v: Stored): Option<LeaseRecord> {
    if v.content.metadata == LeaseMetadata && v.content.body.LeaseDocument? && ValidRecord(v.content.body.record)
    then Some(v.content.body.record) else None
  }

  function HeldRecord(limits: Limits, owner: LeaseOwner, now: int, acquired: int): LeaseRecord {
    Held(Seconds(now), owner, acquired, Seconds(now) + limits.ttl)
  }

  predicate StaleTakeoverAllowed(r: LeaseRecord, now: int, grace: int, terminal: bool) {
    r.Held? && terminal && Seconds(now) - r.expires >= grace
  }

  datatype Decision =
    | Refuse(error: LeaseError)
    | Keep(record: LeaseRecord)
    | Overwrite(record: LeaseRecord, condition: Condition, tookOver: bool)

  function DecideAcquire(current: Option<Stored>, owner: LeaseOwner, now: int, limits: Limits, terminal: bool): Decision {
    var held := HeldRecord(limits, owner, now, Seconds(now));
    if current.None? then Overwrite(held, IfAbsent, false)
    else
      var observed := Exact(current.value);
      if observed.None? then Refuse(Lost)
      else if observed.value.Held? && observed.value.owner == owner then
        if Seconds(now) >= observed.value.expires then Refuse(Lost) else Keep(observed.value)
      else if observed.value.Held? && !StaleTakeoverAllowed(observed.value, now, limits.grace, terminal) then Refuse(Busy)
      else Overwrite(held, IfEtag(current.value.etag), observed.value.Held?)
  }

  /** The record if the handle's exact revision is current and held by its owner. */
  function Owned(current: Option<Stored>, handle: LeaseHandle): Option<LeaseRecord> {
    if current.None? || current.value.etag != handle.etag then None
    else
      var observed := Exact(current.value);
      if observed.Some? && observed.value.Held? && observed.value.owner == handle.owner then observed else None
  }

  function DecideRenew(current: Option<Stored>, handle: LeaseHandle, now: int, limits: Limits): Decision {
    var observed := Owned(current, handle);
    if observed.None? || Seconds(now) >= observed.value.expires then Refuse(Lost)
    else if observed.value.acquired > Seconds(now) then Refuse(BadTimestamps)
    else Overwrite(HeldRecord(limits, handle.owner, now, observed.value.acquired), IfEtag(handle.etag), handle.tookOver)
  }

  function DecideRelease(current: Option<Stored>, handle: LeaseHandle, now: int): Decision {
    if Owned(current, handle).None? then Refuse(Lost)
    else Overwrite(Free(Seconds(now), Seconds(now)), IfEtag(handle.etag), false)
  }

  predicate WindowIsOpen(current: Option<Stored>, handle: LeaseHandle, now: int, batch: int, safety: int) {
    var observed := Owned(current, handle);
    observed.Some? && observed.value.expires - Seconds(now) > batch + safety
  }

  /** What carrying out a decision leaves in the store and returns when other clients act between the
      read and the conditional write. */
  ghost predicate CarriedOut(before: StoreState, others: seq<StoreStep>, after: StoreState, d: Decision, owner: LeaseOwner,
                             r: Result<LeaseHandle, LeaseError>) {
    match d
    case Refuse(e) => after == before && r == Err(e)
    case Keep(record) =>
      after == before && LeaseKey in before.objects
      && r == Ok(LeaseHandle(owner, record, before.objects[LeaseKey].etag, false))
    case Overwrite(record, condition, tookOver) =>
      var now := AfterAll(before, others);
      if Met(now, LeaseKey, condition) then
        after == now.Written(LeaseKey, LeaseObject(record)) && r == Ok(LeaseHandle(owner, record, now.revision + 1, tookOver))
      else after == now && r == Err(StoreRefused)
  }

  /** The write succeeds only over exactly what was read, so it needs no other lock. */
  lemma {:induction false} SuccessReplacesWhatWasRead(before: StoreState, others: seq<StoreStep>, current: Option<Stored>)
    requires before.Valid() && current == before.Get(LeaseKey)
    ensures var condition := if current.None? then IfAbsent else IfEtag(current.value.etag);
            Met(AfterAll(before, others), LeaseKey, condition) ==> AfterAll(before, others).Get(LeaseKey) == current
  {
    EtagsAreNeverReused(before, others, LeaseKey);
  }

  // ---- What the calls answer ----

  /** The record that a lease object shows, if it is one. */
  function Shown(current: Option<Stored>): Option<LeaseRecord> { if current.None? then None else Exact(current.value) }

  predicate IsHeld(current: Option<Stored>) { Shown(current).Some? && Shown(current).value.Held? }

  predicate HeldOf(current: Option<Stored>, owner: LeaseOwner) { IsHeld(current) && Shown(current).value.owner == owner }

  predicate HeldElsewhere(current: Option<Stored>, owner: LeaseOwner) {
    IsHeld(current) && Shown(current).value.owner != owner
  }

  /** The lease object now shows the record of a successful answer, under its etag. */
  predicate Recorded(after: StoreState, r: Result<LeaseHandle, LeaseError>, record: LeaseRecord) {
    r.Ok? ==> r.value.record == record && after.Get(LeaseKey) == Some(Stored(LeaseObject(record), r.value.etag))
  }

  predicate IsHolder(current: Option<Stored>, handle: LeaseHandle) {
    HeldOf(current, handle.owner) && current.value.etag == handle.etag
  }

  class LeaseManager {
    const store: ConditionalObjectStore
    const limits: Limits

    constructor (store: ConditionalObjectStore, limits: Limits)
      ensures this.store == store && this.limits == limits
    {
      this.store, this.limits := store, limits;
    }

    method CarryOut(current: Option<Stored>, d: Decision, owner: LeaseOwner, others: seq<StoreStep>)
      returns (r: Result<LeaseHandle, LeaseError>)
      requires current == store.State().Get(LeaseKey)
      requires d.Keep? ==> current.Some?
      modifies store
      ensures CarriedOut(old(store.State()), others, store.State(), d, owner, r)
    {
      match d {
        case Refuse(e) => return Err(e);
        case Keep(record) => return Ok(LeaseHandle(owner, record, current.value.etag, false));
        case Overwrite(record, condition, tookOver) =>
          store.OthersAct(others);
          var written := store.Put(LeaseKey, LeaseObject(record), condition);
          return if written.Ok? then Ok(LeaseHandle(owner, record, written.value.etag, tookOver)) else Err(StoreRefused);
      }
    }

    /** `terminal` is the proof that the previous holder's run has ended. With it, and once the grace
        after the expiry has gone by, the lease of somebody else is taken over, and never otherwise; only
        an absent or free lease is acquired without, and an unexpired one of the caller's own is resumed. */
    method Acquire(owner: LeaseOwner, now: int, terminal: bool, others: seq<StoreStep>) returns (r: Result<LeaseHandle, LeaseError>)
      modifies store
      ensures CarriedOut(old(store.State()), others, store.State(),
                         DecideAcquire(old(store.State()).Get(LeaseKey), owner, now, limits, terminal), owner, r)
      ensures var current := old(store.State()).Get(LeaseKey);
        && (r == Err(Busy) <==>
              HeldElsewhere(current, owner) && !(terminal && Seconds(now) >= Shown(current).value.expires + limits.grace))
        && (r == Err(Lost) <==>
              current.Some? && (Shown(current).None? || (HeldOf(current, owner) && Seconds(now) >= Shown(current).value.expires)))
        && (r == Err(StoreRefused) ==> others != []) && (r.Err? ==> r.error.Busy? || r.error.Lost? || r.error.StoreRefused?)
        && (r.Err? && r.error != StoreRefused ==> store.State() == old(store.State()))
        && (r.Ok? ==> r.value.owner == owner && (r.value.tookOver <==> HeldElsewhere(current, owner)))
        && (if HeldOf(current, owner) then
              r.Ok? ==> store.State() == old(store.State()) && Recorded(store.State(), r, Shown(current).value)
            else Recorded(store.State(), r, Held(Seconds(now), owner, Seconds(now), Seconds(now) + limits.ttl)))
    {
      var current := store.Get(LeaseKey);
      r := CarryOut(current, DecideAcquire(current, owner, now, limits, terminal), owner, others);
    }

    method AssertBatchWindow(handle: LeaseHandle, now: int, batch: int, safety: int) returns (r: Result<(), LeaseError>)
      ensures r == if batch < 1 || safety < 0 then Err(BadBounds)
                   else if WindowIsOpen(store.State().Get(LeaseKey), handle, now, batch, safety) then Ok(()) else Err(Lost)
      ensures var current := store.State().Get(LeaseKey);
        r.Ok? <==> batch >= 1 && safety >= 0 && IsHolder(current, handle)
                   && Shown(current).value.expires > Seconds(now) + batch + safety
    {
      if batch < 1 || safety < 0 {
        return Err(BadBounds);
      }
      var current := store.Get(LeaseKey);
      return if WindowIsOpen(current, handle, now, batch, safety) then Ok(()) else Err(Lost);
    }

    method Renew(handle: LeaseHandle, now: int, others: seq<StoreStep>) returns (r: Result<LeaseHandle, LeaseError>)
      modifies store
      ensures CarriedOut(old(store.State()), others, store.State(),
                         DecideRenew(old(store.State()).Get(LeaseKey), handle, now, limits), handle.owner, r)
      ensures var current := old(store.State()).Get(LeaseKey);
        && (r == Err(Lost) <==> !IsHolder(current, handle) || Seconds(now) >= Shown(current).value.expires)
        && (r == Err(BadTimestamps) <==> IsHolder(current, handle) && Seconds(now) < Shown(current).value.acquired)
        && (r == Err(StoreRefused) ==> others != [])
        && (r.Err? ==> r.error.Lost? || r.error.BadTimestamps? || r.error.StoreRefused?)
        && (r.Err? && r.error != StoreRefused ==> store.State() == old(store.State()))
        && (r.Ok? ==>
              && r.value.owner == handle.owner && r.value.tookOver == handle.tookOver
              && Recorded(store.State(), r,
                          Held(Seconds(now), handle.owner, Shown(current).value.acquired, Seconds(now) + limits.ttl)))
    {
      var current := store.Get(LeaseKey);
      r := CarryOut(current, DecideRenew(current, handle, now, limits), handle.owner, others);
    }

    method Release(handle: LeaseHandle, now: int, others: seq<StoreStep>) returns (r: Result<LeaseHandle, LeaseError>)
      modifies store
      ensures CarriedOut(old(store.State()), others, store.State(),
                         DecideRelease(old(store.State()).Get(LeaseKey), handle, now), handle.owner, r)
      ensures var current := old(store.State()).Get(LeaseKey);
        && (r == Err(Lost) <==> !IsHolder(current, handle))
        && (r == Err(StoreRefused) ==> others != []) && (r.Err? ==> r.error.Lost? || r.error.StoreRefused?)
        && (r.Err? && r.error != StoreRefused ==> store.State() == old(store.State()))
        && Recorded(store.State(), r, Free(Seconds(now), Seconds(now)))
        && (r.Ok? ==> r.value.owner == handle.owner && !r.value.tookOver)
    {
      var current := store.Get(LeaseKey);
      r := CarryOut(current, DecideRelease(current, handle, now), handle.owner, others);
    }
  }

  /** An object that is not exactly a lease, by its metadata, its kind or its timestamps, is never taken for
      a free lease nor written over: every call reports the lease lost. */
  lemma {:induction false} OtherObjectsFailClosed(v: Stored, owner: LeaseOwner, handle: LeaseHandle, now: int, limits: Limits,
                                                  terminal: bool, batch: int, safety: int)
    requires
      || v.content.metadata != Metadata("application/json", "private, no-store") || v.content.body.Bytes?
      || match v.content.body.record
         case Held(updated, _, acquired, expires) => updated < acquired || expires <= updated
         case Free(updated, released) => released != updated
    ensures DecideAcquire(Some(v), owner, now, limits, terminal) == Refuse(Lost)
    ensures DecideRenew(Some(v), handle, now, limits) == DecideRelease(Some(v), handle, now) == Refuse(Lost)
    ensures !WindowIsOpen(Some(v), handle, now, batch, safety)
  {
  }

  /** Acquiring, renewing and releasing in one go: the lease ends free, and the handle renewed or
      released before is dead. */
  lemma {:induction false} ReleasedHandlesAreDead(s: StoreState, handle: LeaseHandle, now: int, later: int, limits: Limits)
    requires s.Valid() && handle.etag <= s.revision
    ensures var d := DecideRelease(s.Get(LeaseKey), handle, now);
            d.Overwrite? ==>
              var t := s.Written(LeaseKey, LeaseObject(d.record));
              && DecideRelease(t.Get(LeaseKey), handle, later) == Refuse(Lost)
              && DecideRenew(t.Get(LeaseKey), handle, later, limits) == Refuse(Lost)
              && forall owner, terminal :: DecideAcquire(t.Get(LeaseKey), owner, later, limits, terminal).Overwrite?
  {
  }

  /** A renewal keeps owner and acquisition time, kills the handle it replaces, and opens any window
      shorter than the lifetime: a checkpoint that renews may be followed by the next one at once. */
  lemma {:induction false} RenewalOpensWindow(s: StoreState, handle: LeaseHandle, now: int, limits: Limits, batch: int, safety: int)
    requires s.Valid() && handle.etag <= s.revision && batch + safety < limits.ttl
    requires DecideRenew(s.Get(LeaseKey), handle, now, limits).Overwrite?
    ensures var observed, renewed := Owned(s.Get(LeaseKey), handle), DecideRenew(s.Get(LeaseKey), handle, now, limits).record;
            var t := s.Written(LeaseKey, LeaseObject(renewed));
            var next := LeaseHandle(handle.owner, renewed, s.revision + 1, handle.tookOver);
            && observed.Some? && Owned(t.Get(LeaseKey), next) == Some(renewed)
            && renewed.acquired == observed.value.acquired && renewed.owner == observed.value.owner
            && WindowIsOpen(t.Get(LeaseKey), next, now, batch, safety)
            && !WindowIsOpen(t.Get(LeaseKey), handle, now, batch, safety)
  {
  }
}
