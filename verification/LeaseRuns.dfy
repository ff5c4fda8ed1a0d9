/** Any number of lease clients interleaved at single store requests. */
module LeaseRuns {
  import opened Outcome
  import opened Store
  import opened Lease

  /** Each client has its own lifetime and grace. */
  type Deployment = LeaseOwner -> Limits

  datatype Action = Acquire(terminal: bool) | Renew | Release

  /** A conditional write that a client has decided on and not yet sent: for which call, over which
      object, and at which clock reading. */
  datatype Pending = Pending(
    record: LeaseRecord, condition: Condition, tookOver: bool, action: Action, observed: Option<Stored>, decided: int)

  /** `reading` is the clock as a call that is under way read it; `unanswered` is a write whose response
      was lost and that the client is about to look for. */
  datatype Client = Client(
    handle: Option<LeaseHandle>, reading: Option<int>, pending: Option<Pending>, unanswered: Option<Pending>)

  const NoClient: Client := Client(None, None, None, None)

  /** Clients are named by their owner; the clock is in microseconds. */
  datatype System = System(store: StoreState, clients: map<LeaseOwner, Client>, clock: int) {
    function Of(o: LeaseOwner): Client { if o in clients then clients[o] else NoClient }

    function Current(): Option<Stored> { store.Get(LeaseKey) }
  }

  datatype Delivery = Answered | ResponseLost | RequestLost

  /** `Send` sends a pending write; the request or the response may be lost, and then `Reread` adopts
      what it finds if that is byte for byte what was written. `Other` writes another key. */
  datatype Event =
    | ReadClock(owner: LeaseOwner)
    | Read(owner: LeaseOwner, action: Action)
    | Send(owner: LeaseOwner, delivery: Delivery)
    | Reread(owner: LeaseOwner)
    | Stop(owner: LeaseOwner)
    | Other(step: StoreStep)
    | Tick(now: int)

  predicate Enabled(sys: System, e: Event) {
    && (e.ReadClock? ==> sys.Of(e.owner).pending.None? && sys.Of(e.owner).unanswered.None?)
    && (e.Read? ==> sys.Of(e.owner).reading.Some?)
    && (e.Read? && !e.action.Acquire? ==> sys.Of(e.owner).handle.Some?)
    && (e.Send? ==> sys.Of(e.owner).pending.Some?)
    && (e.Reread? ==> sys.Of(e.owner).unanswered.Some?)
    && (e.Other? ==> e.step.k != LeaseKey)
    && (e.Tick? ==> sys.clock <= e.now)
  }

  function Decide(sys: System, o: LeaseOwner, action: Action, limits: Deployment): Decision {
    var handle, reading := sys.Of(o).handle, sys.Of(o).reading;
    if reading.None? then Refuse(Lost)
    else
      match action
      case Acquire(terminal) => DecideAcquire(sys.Current(), o, reading.value, limits(o), terminal)
      case Renew => if handle.Some? then DecideRenew(sys.Current(), handle.value, reading.value, limits(o)) else Refuse(Lost)
      case Release => if handle.Some? then DecideRelease(sys.Current(), handle.value, reading.value) else Refuse(Lost)
  }

  function AfterRead(sys: System, o: LeaseOwner, action: Action, d: Decision): Client {
    var c := sys.Of(o);
    match d
    case Refuse(_) => Client(c.handle, None, None, None)
    case Keep(record) =>
      if sys.Current().None? then Client(c.handle, None, None, None)
      else Client(Some(LeaseHandle(o, record, sys.Current().value.etag, false)), None, None, None)
    case Overwrite(record, condition, tookOver) =>
      if c.reading.None? then Client(c.handle, None, None, None)
      else Client(c.handle, None, Some(Pending(record, condition, tookOver, action, sys.Current(), c.reading.value)), None)
  }

  /** Whether sending the pending write succeeds. */
  predicate Succeeds(sys: System, o: LeaseOwner) {
    sys.Of(o).pending.Some? && Met(sys.store, LeaseKey, sys.Of(o).pending.value.condition)
  }

  function SentBy(sys: System, o: LeaseOwner, delivery: Delivery): StoreState {
    if Succeeds(sys, o) && delivery != RequestLost then
      sys.store.Written(LeaseKey, LeaseObject(sys.Of(o).pending.value.record))
    else sys.store
  }

  function AfterSend(sys: System, o: LeaseOwner, delivery: Delivery): Client {
    var c := sys.Of(o);
    if delivery != Answered then Client(c.handle, None, None, c.pending)
    else if Succeeds(sys, o) then
      var p := c.pending.value;
      Client(Some(LeaseHandle(o, p.record, sys.store.revision + 1, p.tookOver)), None, None, None)
    else Client(c.handle, None, None, None)
  }

  /** An equal object counts as the client's own, whoever wrote it. */
  function AfterReread(sys: System, o: LeaseOwner): Client {
    var c := sys.Of(o);
    if c.unanswered.Some? && sys.Current().Some? && sys.Current().value.content == LeaseObject(c.unanswered.value.record) then
      Client(Some(LeaseHandle(o, c.unanswered.value.record, sys.Current().value.etag, c.unanswered.value.tookOver)),
             None, None, None)
    else Client(c.handle, None, None, None)
  }

  function Next(sys: System, e: Event, limits: Deployment): System {
    match e
    case ReadClock(o) => sys.(clients := sys.clients[o := sys.Of(o).(reading := Some(sys.clock))])
    case Read(o, action) => sys.(clients := sys.clients[o := AfterRead(sys, o, action, Decide(sys, o, action, limits))])
    case Send(o, d) => System(SentBy(sys, o, d), sys.clients[o := AfterSend(sys, o, d)], sys.clock)
    case Reread(o) => sys.(clients := sys.clients[o := AfterReread(sys, o)])
    case Stop(o) => sys.(clients := sys.clients[o := NoClient])
    case Other(step) => sys.(store := After(sys.store, step))
    case Tick(now) => sys.(clock := now)
  }

  function Run(sys: System, es: seq<Event>, limits: Deployment): System
    decreases |es|
  {
    if es == [] then sys else Run(Next(sys, es[0], limits), es[1..], limits)
  }

  predicate AllEnabled(sys: System, es: seq<Event>, limits: Deployment)
    decreases |es|
  {
    es == [] || (Enabled(sys, es[0]) && AllEnabled(Next(sys, es[0], limits), es[1..], limits))
  }

  // ---- What every step keeps ----

  /** A record written by this system. */
  predicate Timely(r: LeaseRecord, now: int, limits: Deployment) {
    r.Held? ==> r.updated <= Seconds(now) && r.expires == r.updated + limits(r.owner).ttl
  }

  /** A handle whose etag is current describes the current record. */
  predicate HandleOk(s: StoreState, clock: int, o: LeaseOwner, h: LeaseHandle, limits: Deployment) {
    && h.owner == o && h.etag <= s.revision && (h.record.Held? ==> h.record.owner == o) && Timely(h.record, clock, limits)
    && (LeaseKey in s.objects && s.objects[LeaseKey].etag == h.etag ==>
          s.objects[LeaseKey].content == LeaseObject(h.record))
  }

  /** Why a pending write was decided on: an acquisition over nothing, over a free lease, or with the proof
      and after the grace over somebody else's; anything else over the client's own lease. */
  predicate Justified(o: LeaseOwner, p: Pending, limits: Deployment) {
    && ValidRecord(p.record) && (p.action.Release? <==> p.record.Free?)
    && (p.record.Held? ==> p.record.owner == o && p.record.updated == Seconds(p.decided)
                           && p.record.expires == p.record.updated + limits(o).ttl)
    && p.condition == (if p.observed.None? then IfAbsent else IfEtag(p.observed.value.etag))
    && (p.observed.Some? ==> Shown(p.observed).Some?)
    && (p.action.Acquire? ==>
          && (p.tookOver <==> Shown(p.observed).Some? && Shown(p.observed).value.Held?)
          && (p.tookOver ==> Shown(p.observed).value.owner != o && p.action.terminal
                             && Seconds(p.decided) >= Shown(p.observed).value.expires + limits(o).grace))
    && (!p.action.Acquire? ==>
          && Shown(p.observed).Some? && Shown(p.observed).value.Held? && Shown(p.observed).value.owner == o
          && Timely(Shown(p.observed).value, p.decided, limits))
  }

  predicate PendingOk(s: StoreState, clock: int, o: LeaseOwner, p: Pending, limits: Deployment) {
    && p.decided <= clock && Justified(o, p, limits)
    && (p.observed.Some? ==>
          && p.observed.value.etag <= s.revision
          && (LeaseKey in s.objects && s.objects[LeaseKey].etag == p.observed.value.etag ==>
                s.objects[LeaseKey] == p.observed.value))
  }

  /** A call under way read the clock after its client got its handle. */
  predicate ReadingOk(clock: int, c: Client, limits: Deployment) {
    c.reading.Some? ==>
      c.reading.value <= clock && (c.handle.Some? ==> Timely(c.handle.value.record, c.reading.value, limits))
  }

  predicate ClientIsFine(sys: System, o: LeaseOwner, c: Client, limits: Deployment) {
    && (c.handle.Some? ==> HandleOk(sys.store, sys.clock, o, c.handle.value, limits))
    && ReadingOk(sys.clock, c, limits)
    && (c.pending.Some? ==> PendingOk(sys.store, sys.clock, o, c.pending.value, limits))
    && (c.unanswered.Some? ==> c.unanswered.value.decided <= sys.clock && Justified(o, c.unanswered.value, limits))
  }

  predicate ClientOk(sys: System, o: LeaseOwner, limits: Deployment) { ClientIsFine(sys, o, sys.Of(o), limits) }

  predicate CurrentOk(sys: System, limits: Deployment) {
    sys.Current().Some? && Exact(sys.Current().value).Some? ==>
      Timely(Exact(sys.Current().value).value, sys.clock, limits)
  }

  predicate HasHeldHandle(sys: System, a: LeaseOwner) {
    sys.Of(a).handle.Some? && sys.Of(a).handle.value.record.Held?
  }

  /** Handles on held leases of different clients never share an etag. */
  ghost predicate Fenced(sys: System) {
    forall a, b | HasHeldHandle(sys, a) && HasHeldHandle(sys, b) ::
      sys.Of(a).handle.value.etag == sys.Of(b).handle.value.etag ==> a == b
  }

  ghost predicate Inv(sys: System, limits: Deployment) {
    && sys.store.Valid() && CurrentOk(sys, limits) && Fenced(sys)
    && forall o :: ClientOk(sys, o, limits)
  }

  /** The lease object is as before, or newer than anything before. */
  predicate Later(s: StoreState, t: StoreState) {
    && s.revision <= t.revision
    && (LeaseKey in t.objects && t.objects[LeaseKey].etag <= s.revision ==> s.Get(LeaseKey) == t.Get(LeaseKey))
  }

  lemma {:induction false} ClientStaysOk(sys: System, next: System, o: LeaseOwner, limits: Deployment)
    requires ClientOk(sys, o, limits) && next.Of(o) == sys.Of(o)
    requires Later(sys.store, next.store) && sys.clock <= next.clock
    ensures ClientOk(next, o, limits)
  {
    hide Justified;
  }

  lemma {:induction false} InvMeans(sys: System, limits: Deployment)
    ensures Inv(sys, limits) <==>
      sys.store.Valid() && CurrentOk(sys, limits) && Fenced(sys) && forall o :: ClientOk(sys, o, limits)
  {
    hide CurrentOk, Fenced, ClientOk;
  }

  /** Only one client changes, so only that client needs looking at. */
  lemma {:induction false} InvFromOne(sys: System, next: System, o: LeaseOwner, limits: Deployment)
    requires Inv(sys, limits) && Later(sys.store, next.store) && sys.clock <= next.clock
    requires forall a :: a != o ==> next.Of(a) == sys.Of(a)
    requires next.store.Valid() && CurrentOk(next, limits) && ClientOk(next, o, limits)
    requires HasHeldHandle(next, o) ==>
      next.Of(o).handle == sys.Of(o).handle
      || forall a :: a != o && HasHeldHandle(sys, a) ==> sys.Of(a).handle.value.etag != next.Of(o).handle.value.etag
    ensures Inv(next, limits)
  {
    hide CurrentOk, ClientOk, Later, StoreState.Valid, System.Of;
    forall a ensures ClientOk(next, a, limits) {
      if a != o { ClientStaysOk(sys, next, a, limits); }
    }
  }

  lemma {:induction false} Unchanged(sys: System, o: LeaseOwner, c: Client)
    ensures var next := sys.(clients := sys.clients[o := c]);
            next.Of(o) == c && forall a :: a != o ==> next.Of(a) == sys.Of(a)
  {
  }

  lemma {:induction false} AcquireIsOk(sys: System, o: LeaseOwner, terminal: bool, limits: Deployment)
    requires ClientOk(sys, o, limits) && CurrentOk(sys, limits) && sys.store.Valid()
    ensures ClientIsFine(sys, o, AfterRead(sys, o, Acquire(terminal), Decide(sys, o, Acquire(terminal), limits)), limits)
  {
  }

  lemma {:induction false} RenewIsOk(sys: System, o: LeaseOwner, limits: Deployment)
    requires ClientOk(sys, o, limits) && CurrentOk(sys, limits) && sys.store.Valid()
    ensures ClientIsFine(sys, o, AfterRead(sys, o, Renew, Decide(sys, o, Renew, limits)), limits)
  {
  }

  lemma {:induction false} ReleaseIsOk(sys: System, o: LeaseOwner, limits: Deployment)
    requires ClientOk(sys, o, limits) && CurrentOk(sys, limits) && sys.store.Valid()
    ensures ClientIsFine(sys, o, AfterRead(sys, o, Release, Decide(sys, o, Release, limits)), limits)
  {
  }

  lemma {:induction false} ReadIsOk(sys: System, o: LeaseOwner, action: Action, limits: Deployment)
    requires ClientOk(sys, o, limits) && CurrentOk(sys, limits) && sys.store.Valid()
    ensures ClientIsFine(sys, o, AfterRead(sys, o, action, Decide(sys, o, action, limits)), limits)
  {
    hide *;
    match action {
      case Acquire(terminal) => AcquireIsOk(sys, o, terminal, limits);
      case Renew => RenewIsOk(sys, o, limits);
      case Release => ReleaseIsOk(sys, o, limits);
    }
  }

  /** A handle taken over by reading is one that no other client can have. */
  lemma {:induction false} KeptHandleIsFenced(sys: System, o: LeaseOwner, action: Action, a: LeaseOwner, limits: Deployment)
    requires ClientOk(sys, a, limits) && a != o && HasHeldHandle(sys, a)
    ensures var c := AfterRead(sys, o, action, Decide(sys, o, action, limits));
            c.handle.Some? && c.handle != sys.Of(o).handle ==> sys.Of(a).handle.value.etag != c.handle.value.etag
  {
    hide Justified, PendingOk;
  }

  lemma {:induction false} ReadKeepsInv(sys: System, o: LeaseOwner, action: Action, limits: Deployment)
    requires Inv(sys, limits)
    ensures Inv(Next(sys, Read(o, action), limits), limits)
  {
    hide *;
    InvMeans(sys, limits);
    var c := AfterRead(sys, o, action, Decide(sys, o, action, limits));
    var next := sys.(clients := sys.clients[o := c]);
    NextRead(sys, o, action, limits);
    Unchanged(sys, o, c);
    ReadIsOk(sys, o, action, limits);
    ClientIsOk(sys, next, o, limits);
    SameStore(sys, next, limits);
    HeldHandles(sys);
    HeldHandles(next);
    forall a | a != o && HasHeldHandle(sys, a)
      ensures c.handle.Some? && c.handle != sys.Of(o).handle ==> sys.Of(a).handle.value.etag != c.handle.value.etag
    {
      KeptHandleIsFenced(sys, o, action, a, limits);
    }
    InvFromOne(sys, next, o, limits);
  }

  lemma {:induction false} HeldHandles(sys: System)
    ensures forall a :: HasHeldHandle(sys, a) ==> sys.Of(a).handle.Some?
  {
  }

  /** Neither is one adopted by re-reading, if the lease is held. */
  lemma {:induction false} RereadKeepsInv(sys: System, o: LeaseOwner, limits: Deployment)
    requires Inv(sys, limits)
    ensures Inv(Next(sys, Reread(o), limits), limits)
  {
    hide *;
    InvMeans(sys, limits);
    var c := AfterReread(sys, o);
    var next := sys.(clients := sys.clients[o := c]);
    NextReread(sys, o, limits);
    Unchanged(sys, o, c);
    RereadIsOk(sys, o, limits);
    ClientIsOk(sys, next, o, limits);
    SameStore(sys, next, limits);
    HeldHandles(sys);
    HeldHandles(next);
    forall a | a != o && HasHeldHandle(sys, a)
      ensures HasHeldHandle(next, o) ==> c.handle == sys.Of(o).handle || sys.Of(a).handle.value.etag != c.handle.value.etag
    {
      if HasHeldHandle(next, o) { AdoptedHandleIsFenced(sys, next, o, a, limits); }
    }
    InvFromOne(sys, next, o, limits);
  }

  lemma {:induction false} NextReread(sys: System, o: LeaseOwner, limits: Deployment)
    ensures Next(sys, Reread(o), limits) == sys.(clients := sys.clients[o := AfterReread(sys, o)])
  {
  }

  lemma {:induction false} RereadIsOk(sys: System, o: LeaseOwner, limits: Deployment)
    requires ClientOk(sys, o, limits) && CurrentOk(sys, limits) && sys.store.Valid()
    ensures ClientIsFine(sys, o, AfterReread(sys, o), limits)
  {
  }

  lemma {:induction false} AdoptedHandleIsFenced(sys: System, next: System, o: LeaseOwner, a: LeaseOwner, limits: Deployment)
    requires ClientOk(sys, a, limits) && ClientOk(sys, o, limits) && a != o && HasHeldHandle(sys, a)
    requires next.Of(o) == AfterReread(sys, o) && HasHeldHandle(next, o)
    ensures next.Of(o).handle == sys.Of(o).handle || sys.Of(a).handle.value.etag != next.Of(o).handle.value.etag
  {
    hide PendingOk;
  }

  lemma {:induction false} NextRead(sys: System, o: LeaseOwner, action: Action, limits: Deployment)
    ensures Next(sys, Read(o, action), limits)
         == sys.(clients := sys.clients[o := AfterRead(sys, o, action, Decide(sys, o, action, limits))])
  {
  }

  lemma {:induction false} ClientIsOk(sys: System, next: System, o: LeaseOwner, limits: Deployment)
    requires sys.store == next.store && sys.clock == next.clock
    ensures ClientOk(next, o, limits) <==> ClientIsFine(sys, o, next.Of(o), limits)
  {
    hide HandleOk, ReadingOk, PendingOk;
  }

  lemma {:induction false} SameStore(sys: System, next: System, limits: Deployment)
    requires sys.store == next.store && sys.clock <= next.clock
    ensures Later(sys.store, next.store)
    ensures CurrentOk(sys, limits) ==> CurrentOk(next, limits)
  {
  }

  lemma {:induction false} SendIsOk(sys: System, o: LeaseOwner, delivery: Delivery, limits: Deployment)
    requires sys.store.Valid() && CurrentOk(sys, limits) && ClientOk(sys, o, limits)
    ensures var next := Next(sys, Send(o, delivery), limits);
            && next.store.Valid() && Later(sys.store, next.store) && CurrentOk(next, limits)
            && ClientOk(next, o, limits)
  {
    WrittenIsValid(sys.store, LeaseKey, LeaseObject(if sys.Of(o).pending.Some? then sys.Of(o).pending.value.record else Free(0, 0)));
  }

  lemma {:induction false} SendKeepsInv(sys: System, o: LeaseOwner, delivery: Delivery, limits: Deployment)
    requires Inv(sys, limits)
    ensures Inv(Next(sys, Send(o, delivery), limits), limits)
  {
    hide *;
    InvMeans(sys, limits);
    var next := Next(sys, Send(o, delivery), limits);
    SendIsOk(sys, o, delivery, limits);
    NextSend(sys, o, delivery, limits);
    HeldHandles(sys);
    HeldHandles(next);
    forall a | a != o && HasHeldHandle(sys, a) ensures sys.Of(a).handle.value.etag <= sys.store.revision {
      HandleIsOld(sys, a, limits);
    }
    InvFromOne(sys, next, o, limits);
  }

  lemma {:induction false} HandleIsOld(sys: System, a: LeaseOwner, limits: Deployment)
    requires ClientOk(sys, a, limits) && sys.Of(a).handle.Some?
    ensures sys.Of(a).handle.value.etag <= sys.store.revision
  {
  }

  lemma {:induction false} NextSend(sys: System, o: LeaseOwner, delivery: Delivery, limits: Deployment)
    ensures var next := Next(sys, Send(o, delivery), limits);
            && sys.clock == next.clock && (forall a :: a != o ==> next.Of(a) == sys.Of(a))
            && (next.Of(o).handle == sys.Of(o).handle
                || (next.Of(o).handle.Some? && next.Of(o).handle.value.etag == sys.store.revision + 1))
  {
  }

  lemma {:induction false} OtherIsLater(sys: System, step: StoreStep, limits: Deployment)
    requires sys.store.Valid() && CurrentOk(sys, limits) && step.k != LeaseKey
    ensures var next := sys.(store := After(sys.store, step));
            next.store.Valid() && Later(sys.store, next.store) && CurrentOk(next, limits)
  {
    StepKeepsValid(sys.store, step);
  }

  lemma {:induction false} EventKeepsInv(sys: System, e: Event, limits: Deployment)
    requires Inv(sys, limits) && Enabled(sys, e)
    ensures Inv(Next(sys, e, limits), limits) && sys.clock <= Next(sys, e, limits).clock
  {
    hide Inv, Decide, AfterRead, AfterSend, SentBy, CurrentOk, Later, ClientOk, ClientIsFine, StoreState.Valid;
    InvMeans(sys, limits);
    match e {
      case Read(o, action) => ReadKeepsInv(sys, o, action, limits);
      case Send(o, delivery) => SendKeepsInv(sys, o, delivery, limits);
      case Reread(o) => RereadKeepsInv(sys, o, limits);
      case Stop(o) =>
        var next := Next(sys, e, limits);
        NothingIsFine(sys, o, limits);
        ClientIsOk(sys, next, o, limits);
        SameStore(sys, next, limits);
        InvFromOne(sys, next, o, limits);
      case ReadClock(o) =>
        var next := Next(sys, e, limits);
        ReadingIsFine(sys, o, limits);
        ClientIsOk(sys, next, o, limits);
        SameStore(sys, next, limits);
        InvFromOne(sys, next, o, limits);
      case Other(step) =>
        OtherIsLater(sys, step, limits);
        QuietKeepsInv(sys, Next(sys, e, limits), limits);
      case Tick(_) =>
        SameStore(sys, Next(sys, e, limits), limits);
        QuietKeepsInv(sys, Next(sys, e, limits), limits);
    }
  }

  lemma {:induction false} NothingIsFine(sys: System, o: LeaseOwner, limits: Deployment)
    ensures ClientIsFine(sys, o, NoClient, limits)
  {
  }

  lemma {:induction false} ReadingIsFine(sys: System, o: LeaseOwner, limits: Deployment)
    requires ClientOk(sys, o, limits)
    ensures ClientIsFine(sys, o, sys.Of(o).(reading := Some(sys.clock)), limits)
  {
  }

  /** No client changes. */
  lemma {:induction false} QuietKeepsInv(sys: System, next: System, limits: Deployment)
    requires Inv(sys, limits) && next.clients == sys.clients && sys.clock <= next.clock
    requires Later(sys.store, next.store) && next.store.Valid() && CurrentOk(next, limits)
    ensures Inv(next, limits)
  {
    hide CurrentOk, ClientOk, Later, StoreState.Valid;
    forall a ensures ClientOk(next, a, limits) && next.Of(a) == sys.Of(a) {
      ClientStaysOk(sys, next, a, limits);
    }
  }

  lemma {:induction false} RunKeepsInv(sys: System, es: seq<Event>, limits: Deployment)
    requires Inv(sys, limits) && AllEnabled(sys, es, limits)
    ensures Inv(Run(sys, es, limits), limits) && sys.clock <= Run(sys, es, limits).clock
    decreases |es|
  {
    hide Inv, Next, Enabled;
    if es != [] {
      EventKeepsInv(sys, es[0], limits);
      RunKeepsInv(Next(sys, es[0], limits), es[1..], limits);
    }
  }

  /** Before any client has done anything the invariant holds. */
  lemma {:induction false} InvAtStart(s: StoreState, clock: int, limits: Deployment)
    requires s.Valid() && LeaseKey !in s.objects
    ensures Inv(System(s, map[], clock), limits)
  {
  }

  // ---- Mutual exclusion ----

  /** In every reachable state a handle with the current etag describes the current record, and while the
      lease is held at most one client has such a handle, the recorded owner. A free record may be
      current for several clients, since re-reading adopts equal bytes; none can do anything with it. */
  lemma {:induction false} MutualExclusion(sys: System, es: seq<Event>, limits: Deployment, a: LeaseOwner, b: LeaseOwner)
    requires Inv(sys, limits) && AllEnabled(sys, es, limits)
    ensures var now := Run(sys, es, limits);
            && (HasCurrentHandle(now, a) ==> now.Current().value.content == LeaseObject(now.Of(a).handle.value.record))
            && (HasCurrentHandle(now, a) && now.Of(a).handle.value.record.Held? ==>
                  now.Of(a).handle.value.record.owner == a && (HasCurrentHandle(now, b) ==> a == b))
            && (HasCurrentHandle(now, a) && now.Of(a).handle.value.record.Free? ==>
                  Owned(now.Current(), now.Of(a).handle.value) == None)
  {
    hide Run, AllEnabled, CurrentOk, PendingOk, ReadingOk, Justified;
    RunKeepsInv(sys, es, limits);
    var now := Run(sys, es, limits);
    assert ClientOk(now, a, limits) && ClientOk(now, b, limits);
  }

  predicate HasCurrentHandle(sys: System, a: LeaseOwner) {
    sys.Of(a).handle.Some? && sys.Current().Some? && sys.Current().value.etag == sys.Of(a).handle.value.etag
  }

  /** A write that succeeds, however late, replaces exactly what its writer had read. */
  lemma {:induction false} WriteReplacesWhatWasRead(sys: System, o: LeaseOwner, limits: Deployment)
    requires Inv(sys, limits) && Succeeds(sys, o)
    ensures sys.Current() == sys.Of(o).pending.value.observed
  {
    assert ClientOk(sys, o, limits);
  }

  // ---- Takeover ----

  lemma {:induction false} PendingAfter(sys: System, e: Event, o: LeaseOwner, limits: Deployment)
    ensures var p := Next(sys, e, limits).Of(o).pending;
      p.Some? ==>
        || p == sys.Of(o).pending
        || (e.Read? && e.owner == o && p.value.action == e.action && sys.Of(o).reading == Some(p.value.decided)
            && p.value.observed == sys.Current())
  {
    hide DecideAcquire, DecideRenew, DecideRelease, Exact;
  }

  /** Every pending write was decided on by a read of its client, for the call it was read for, over the
      object it then saw and with the clock reading it then had, or it was pending all the time. */
  lemma {:induction false} PendingComesFromRead(sys: System, es: seq<Event>, o: LeaseOwner, limits: Deployment) returns (i: int)
    ensures -1 <= i < |es|
    ensures var p := Run(sys, es, limits).Of(o).pending;
      p.Some? ==>
        if i < 0 then p == sys.Of(o).pending
        else
          var seen := Run(sys, es[..i], limits);
          && es[i] == Read(o, p.value.action)
          && seen.Of(o).reading == Some(p.value.decided) && seen.Current() == p.value.observed
    decreases |es|
  {
    hide Next;
    i := -1;
    if es != [] {
      var next, rest := Next(sys, es[0], limits), es[1..];
      var j := PendingComesFromRead(next, rest, o, limits);
      if j >= 0 {
        i := j + 1;
        assert es[i] == rest[j] && es[..i][0] == es[0] && es[..i][1..] == rest[..j];
      } else {
        PendingAfter(sys, es[0], o, limits);
        if next.Of(o).pending != sys.Of(o).pending {
          i := 0;
          assert es[..0] == [];
        }
      }
    }
  }

  /** In every run from a state in which the client has nothing pending: when its write replaces a lease
      that somebody else holds, it comes from a read for an acquisition with the proof that the holder's
      run has ended, and the clock it had then read was the grace beyond the expiry of that very lease. */
  lemma {:induction false} TakeoversAreProven(sys: System, es: seq<Event>, o: LeaseOwner, limits: Deployment) returns (i: nat)
    requires Inv(sys, limits) && AllEnabled(sys, es, limits) && sys.Of(o).pending.None?
    requires Succeeds(Run(sys, es, limits), o) && HeldElsewhere(Run(sys, es, limits).Current(), o)
    ensures i < |es| && es[i] == Read(o, Acquire(true))
    ensures var seen, now := Run(sys, es[..i], limits), Run(sys, es, limits);
      && seen.Current() == now.Current() && seen.Of(o).reading.Some?
      && Seconds(seen.Of(o).reading.value) >= Shown(now.Current()).value.expires + limits(o).grace
      && now.Of(o).pending.value.tookOver
  {
    hide Run, AllEnabled, CurrentOk, HandleOk, ReadingOk;
    var now := Run(sys, es, limits);
    RunKeepsInv(sys, es, limits);
    WriteReplacesWhatWasRead(now, o, limits);
    assert ClientOk(now, o, limits);
    var j := PendingComesFromRead(sys, es, o, limits);
    i := j;
  }

  // ---- Fencing ----

  lemma {:induction false} EventIsLater(sys: System, e: Event, limits: Deployment)
    requires Inv(sys, limits) && Enabled(sys, e)
    ensures Later(sys.store, Next(sys, e, limits).store)
  {
    hide Decide, AfterRead, AfterSend;
  }

  /** An etag that is no longer current never is again. */
  lemma {:induction false} StaleStaysStale(sys: System, es: seq<Event>, etag: Etag, limits: Deployment)
    requires Inv(sys, limits) && AllEnabled(sys, es, limits) && etag <= sys.store.revision
    requires sys.Current().Some? ==> sys.Current().value.etag != etag
    ensures var now := Run(sys, es, limits); now.Current().Some? ==> now.Current().value.etag != etag
    decreases |es|
  {
    hide Inv, Next, Enabled;
    if es != [] {
      EventKeepsInv(sys, es[0], limits);
      EventIsLater(sys, es[0], limits);
      StaleStaysStale(Next(sys, es[0], limits), es[1..], etag, limits);
    }
  }

  /** Hence a handle that lost its etag can never renew, release or pass the window check again. */
  lemma {:induction false} StaleHandlesAreFenced(sys: System, es: seq<Event>, h: LeaseHandle, limits: Deployment,
                                                 own: Limits, now: int, batch: int, safety: int)
    requires Inv(sys, limits) && AllEnabled(sys, es, limits) && h.etag <= sys.store.revision
    requires sys.Current().Some? ==> sys.Current().value.etag != h.etag
    ensures var current := Run(sys, es, limits).Current();
            && DecideRenew(current, h, now, own) == Refuse(Lost) && DecideRelease(current, h, now) == Refuse(Lost)
            && !WindowIsOpen(current, h, now, batch, safety)
  {
    hide Run, AllEnabled, Inv;
    StaleStaysStale(sys, es, h.etag, limits);
  }

  // ---- The batch window ----

  /** The lease is held by `a` at least until `expires`. */
  predicate HeldBy(sys: System, a: LeaseOwner, expires: int) {
    sys.Current().Some? && Exact(sys.Current().value).Some? &&
    var r := Exact(sys.Current().value).value;
    r.Held? && r.owner == a && r.expires >= expires
  }

  predicate SendsRelease(sys: System, e: Event, a: LeaseOwner) {
    e.Send? && e.owner == a && sys.Of(a).pending.Some? && sys.Of(a).pending.value.record.Free?
  }

  predicate NeverReleases(sys: System, es: seq<Event>, a: LeaseOwner, limits: Deployment)
    decreases |es|
  {
    es == [] || (!SendsRelease(sys, es[0], a) && NeverReleases(Next(sys, es[0], limits), es[1..], a, limits))
  }

  /** Nobody takes over before this many seconds beyond expiry. */
  ghost predicate GraceIsAtLeast(grace: int, limits: Deployment) { forall o :: limits(o).grace >= grace }

  lemma {:induction false} NobodyElseSucceeds(sys: System, o: LeaseOwner, a: LeaseOwner, expires: int, grace: int, limits: Deployment)
    requires ClientOk(sys, o, limits) && HeldBy(sys, a, expires)
    requires GraceIsAtLeast(grace, limits) && Seconds(sys.clock) < expires + grace
    requires Succeeds(sys, o)
    ensures o == a
    ensures var r := sys.Of(o).pending.value.record;
            ValidRecord(r) && (r.Held? ==> r.owner == a && r.expires >= expires)
  {
    hide HandleOk, ReadingOk;
    assert Seconds(sys.Of(o).pending.value.decided) <= Seconds(sys.clock);
    assert limits(o).grace >= grace;
  }

  lemma {:induction false} EventKeepsHolder(sys: System, e: Event, a: LeaseOwner, expires: int, grace: int, limits: Deployment)
    requires Inv(sys, limits) && Enabled(sys, e) && HeldBy(sys, a, expires) && !SendsRelease(sys, e, a)
    requires GraceIsAtLeast(grace, limits) && Seconds(sys.clock) < expires + grace
    ensures HeldBy(Next(sys, e, limits), a, expires)
  {
    hide Decide, AfterRead, AfterSend, ClientOk;
    if e.Send? && Succeeds(sys, e.owner) {
      NobodyElseSucceeds(sys, e.owner, a, expires, grace, limits);
    }
  }

  /** As long as the clock stays below expiry plus grace, only the holder's own release ends the holding. */
  lemma {:induction false} HolderKeepsLease(sys: System, es: seq<Event>, a: LeaseOwner, expires: int, grace: int, limits: Deployment)
    requires Inv(sys, limits) && AllEnabled(sys, es, limits) && HeldBy(sys, a, expires)
    requires NeverReleases(sys, es, a, limits)
    requires GraceIsAtLeast(grace, limits) && Seconds(Run(sys, es, limits).clock) < expires + grace
    ensures HeldBy(Run(sys, es, limits), a, expires)
    decreases |es|
  {
    hide Inv, Next, Enabled, HeldBy, SendsRelease, Seconds;
    if es != [] {
      EventKeepsInv(sys, es[0], limits);
      RunKeepsInv(Next(sys, es[0], limits), es[1..], limits);
      SecondsAreMonotone(sys.clock, Run(sys, es, limits).clock);
      EventKeepsHolder(sys, es[0], a, expires, grace, limits);
      HolderKeepsLease(Next(sys, es[0], limits), es[1..], a, expires, grace, limits);
    }
  }

  lemma {:induction false} SecondsAreMonotone(t: int, u: int)
    requires t <= u
    ensures Seconds(t) <= Seconds(u)
  {
  }

  /** If the window check passes with bounds `batch` and `safety`, having read the lease object in this
      state and the clock, possibly later, as `read`, then until that much time and the grace have gone
      by, to the microsecond, nobody else holds the lease, unless the holder itself releases it: whatever
      the other clients had read or decided before, and although every reading is cut to whole seconds. */
  lemma {:induction false} BatchWindow(sys: System, es: seq<Event>, h: LeaseHandle, read: int, batch: int, safety: int,
                                       grace: int, limits: Deployment)
    requires Inv(sys, limits) && AllEnabled(sys, es, limits) && NeverReleases(sys, es, h.owner, limits)
    requires WindowIsOpen(sys.Current(), h, read, batch, safety) && GraceIsAtLeast(grace, limits)
    requires Run(sys, es, limits).clock <= read + (batch + safety + grace) * 1_000_000
    ensures HeldBy(Run(sys, es, limits), h.owner, Seconds(read) + batch + safety + 1)
  {
    hide Run, AllEnabled, NeverReleases, Inv, GraceIsAtLeast;
    var expires := Seconds(read) + batch + safety + 1;
    CutClock(read, Run(sys, es, limits).clock, batch + safety + grace);
    HolderKeepsLease(sys, es, h.owner, expires, grace, limits);
  }

  lemma {:induction false} CutClock(t: int, u: int, d: int)
    requires u <= t + d * 1_000_000
    ensures Seconds(u) < Seconds(t) + d + 1
  {
  }
}
