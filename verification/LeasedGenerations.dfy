/** Publishers that run under the lease: why nobody commits between the two reads of another one. */
module LeasedGenerations {
  import opened Outcome
  import opened Store
  import Lease
  import LeaseRuns
  import Generations
  import Collector
  import Keys

  /** The bounds of every window check, and a grace that no client undercuts. */
  datatype Bounds = Bounds(batch: int, safety: int, grace: int)

  /** The handle a publisher held when it verified, and the clock reading of its last passed check. */
  datatype Session = Session(etag: Etag, window: Option<int>)

  datatype Joint = Joint(lease: LeaseRuns.System, world: Generations.World, sessions: map<LeaseOwner, Session>)

  /** A lease event, a store event of a publisher, or a passed window check. */
  datatype Event = OnLease(lease: LeaseRuns.Event) | OnWorld(world: Generations.Event) | Check(owner: LeaseOwner, read: int)

  /** The expiry that a check which passed at `t` has proved. */
  function Proven(t: int, b: Bounds): int { Lease.Seconds(t) + b.batch + b.safety + 1 }

  /** Inside the checked window, which the grace of others extends. */
  predicate InWindow(j: Joint, o: LeaseOwner, b: Bounds) {
    o in j.sessions && j.sessions[o].window.Some?
    && j.lease.clock <= j.sessions[o].window.value + (b.batch + b.safety + b.grace) * 1_000_000
  }

  /** The order in which a publisher goes: it holds a lease handle when it verifies, captures before its
      first check, makes that check with the same handle, and uploads and commits only inside a checked
      window. */
  ghost predicate Enabled(j: Joint, e: Event, b: Bounds) {
    match e
    case OnLease(f) => LeaseRuns.Enabled(j.lease, f)
    case OnWorld(f) =>
      && Generations.Enabled(j.world, f)
      && (f.Verify? ==> j.lease.Of(f.id).handle.Some? && j.lease.Of(f.id).handle.value.record.Held?)
      && (f.Capture? ==> f.id in j.sessions && j.sessions[f.id].window.None?)
      && (f.Upload? || f.Commit? ==> InWindow(j, f.id, b))
    case Check(o, read) =>
      && o in j.sessions && j.lease.Of(o).handle.Some?
      && Lease.WindowIsOpen(j.lease.Current(), j.lease.Of(o).handle.value, read, b.batch, b.safety)
      && (j.sessions[o].window.None? ==>
            && j.lease.Of(o).handle.value.etag == j.sessions[o].etag
            && o in j.world.publishers && j.world.publishers[o].captured.Some?)
  }

  /** A release ends the session of its owner, and a new acquisition does, since it is a new run. */
  predicate EndsSession(sys: LeaseRuns.System, e: LeaseRuns.Event, o: LeaseOwner) {
    e.Send? && e.owner == o && sys.Of(o).pending.Some? && !sys.Of(o).pending.value.action.Renew?
  }

  function Next(j: Joint, e: Event, limits: LeaseRuns.Deployment): Joint {
    match e
    case OnLease(f) =>
      Joint(LeaseRuns.Next(j.lease, f, limits), j.world,
            if f.Send? && EndsSession(j.lease, f, f.owner) then j.sessions - {f.owner} else j.sessions)
    case OnWorld(f) =>
      j.(world := Generations.Next(j.world, f),
         sessions := if f.Verify? && j.lease.Of(f.id).handle.Some?
                     then j.sessions[f.id := Session(j.lease.Of(f.id).handle.value.etag, None)] else j.sessions)
    case Check(o, read) =>
      if o !in j.sessions then j else j.(sessions := j.sessions[o := j.sessions[o].(window := Some(read))])
  }

  // ---- What every step keeps ----

  predicate OwnerShown(current: Option<Stored>, o: LeaseOwner) {
    current.Some? &&
    var body := current.value.content.body;
    body.LeaseDocument? && body.record.Held? && body.record.owner == o
  }

  predicate RecordedOwner(j: Joint, o: LeaseOwner) { OwnerShown(j.lease.Current(), o) }

  predicate AtHandle(j: Joint, etag: Etag) { j.lease.Current().Some? && j.lease.Current().value.etag == etag }

  /** Nobody but the publisher itself has committed since it verified. */
  predicate UpToDate(w: Generations.World, o: LeaseOwner) {
    o in w.publishers ==>
      w.publishers[o].verified == w.version || w.head == Some(w.publishers[o].desired)
  }

  /** Before the first check: as long as the handle is current, nothing has been committed since
      verifying. Afterwards: the capture was in time, the window is the holder's, and as long as the lease
      is the publisher's nobody else has committed. */
  predicate SessionOk(j: Joint, o: LeaseOwner, s: Session, b: Bounds) {
    && s.etag <= j.lease.store.revision
    && match s.window
       case None =>
         AtHandle(j, s.etag) ==>
           RecordedOwner(j, o) && (o in j.world.publishers ==> j.world.publishers[o].verified == j.world.version)
       case Some(t) =>
         && (Lease.Seconds(j.lease.clock) < Proven(t, b) + b.grace ==> LeaseRuns.HeldBy(j.lease, o, Proven(t, b)))
         && (o in j.world.publishers ==> Generations.CapturedInTime(j.world.publishers[o]))
         && (RecordedOwner(j, o) ==> UpToDate(j.world, o))
  }

  ghost predicate SessionsOk(j: Joint, b: Bounds) {
    forall o :: o in j.sessions ==> SessionOk(j, o, j.sessions[o], b)
  }

  ghost predicate Inv(j: Joint, b: Bounds, limits: LeaseRuns.Deployment) {
    && LeaseRuns.Inv(j.lease, limits) && LeaseRuns.GraceIsAtLeast(b.grace, limits)
    && Generations.Inv(j.world) && Generations.UploadsOk(j.world) && SessionsOk(j, b)
  }

  lemma {:induction false} InvMeans(j: Joint, b: Bounds, limits: LeaseRuns.Deployment)
    ensures Inv(j, b, limits) <==>
      && LeaseRuns.Inv(j.lease, limits) && LeaseRuns.GraceIsAtLeast(b.grace, limits)
      && Generations.Inv(j.world) && Generations.UploadsOk(j.world) && SessionsOk(j, b)
  {
    hide LeaseRuns.Inv, LeaseRuns.GraceIsAtLeast, Generations.Inv, Generations.UploadsOk, SessionsOk;
  }

  /** Inside its window a publisher is the recorded owner. */
  lemma {:induction false} WindowIsHeld(j: Joint, o: LeaseOwner, b: Bounds)
    requires SessionsOk(j, b) && InWindow(j, o, b)
    ensures LeaseRuns.HeldBy(j.lease, o, Proven(j.sessions[o].window.value, b)) && RecordedOwner(j, o)
  {
    var t := j.sessions[o].window.value;
    assert SessionOk(j, o, j.sessions[o], b);
    LeaseRuns.CutClock(t, j.lease.clock, b.batch + b.safety + b.grace);
  }

  /** Mutations inside checked windows are made by the recorded owner, so those of two owners are never
      possible at one time. */
  lemma {:induction false} WindowsAreDisjoint(j: Joint, a: LeaseOwner, c: LeaseOwner, b: Bounds, limits: LeaseRuns.Deployment)
    requires Inv(j, b, limits) && InWindow(j, a, b) && InWindow(j, c, b)
    ensures a == c && RecordedOwner(j, a)
  {
    hide InWindow, SessionsOk, LeaseRuns.Inv, Generations.Inv;
    WindowIsHeld(j, a, b);
    WindowIsHeld(j, c, b);
  }

  lemma {:induction false} OnlyReleasesRelease(sys: LeaseRuns.System, e: LeaseRuns.Event, o: LeaseOwner, limits: LeaseRuns.Deployment)
    requires LeaseRuns.Inv(sys, limits)
    ensures LeaseRuns.SendsRelease(sys, e, o) ==> EndsSession(sys, e, o)
  {
    assert LeaseRuns.ClientOk(sys, o, limits);
  }

  /** Without acquiring, nobody becomes the recorded owner. */
  lemma {:induction false} OwnershipIsAcquired(sys: LeaseRuns.System, e: LeaseRuns.Event, o: LeaseOwner, limits: LeaseRuns.Deployment)
    requires LeaseRuns.Inv(sys, limits) && LeaseRuns.Enabled(sys, e) && !EndsSession(sys, e, o)
    ensures OwnerShown(LeaseRuns.Next(sys, e, limits).Current(), o) ==> OwnerShown(sys.Current(), o)
  {
    hide LeaseRuns.Decide, LeaseRuns.AfterRead, LeaseRuns.AfterSend, LeaseRuns.AfterReread;
    if e.Send? && LeaseRuns.Succeeds(sys, e.owner) {
      assert LeaseRuns.ClientOk(sys, e.owner, limits);
    }
  }

  lemma {:induction false} LeaseKeepsSession(j: Joint, e: LeaseRuns.Event, o: LeaseOwner, b: Bounds, limits: LeaseRuns.Deployment)
    requires LeaseRuns.Inv(j.lease, limits) && LeaseRuns.GraceIsAtLeast(b.grace, limits) && LeaseRuns.Enabled(j.lease, e)
    requires o in j.sessions && SessionOk(j, o, j.sessions[o], b) && !EndsSession(j.lease, e, o)
    ensures SessionOk(Next(j, OnLease(e), limits), o, j.sessions[o], b)
  {
    hide LeaseRuns.Inv, LeaseRuns.GraceIsAtLeast, LeaseRuns.Enabled, LeaseRuns.Next, LeaseRuns.HeldBy, LeaseRuns.SendsRelease;
    OnlyReleasesRelease(j.lease, e, o, limits);
    hide EndsSession;
    OwnershipIsAcquired(j.lease, e, o, limits);
    LeaseRuns.EventKeepsInv(j.lease, e, limits);
    LeaseRuns.EventIsLater(j.lease, e, limits);
    if j.sessions[o].window.Some? {
      var t := j.sessions[o].window.value;
      LeaseRuns.SecondsAreMonotone(j.lease.clock, LeaseRuns.Next(j.lease, e, limits).clock);
      if Lease.Seconds(j.lease.clock) < Proven(t, b) + b.grace {
        LeaseRuns.EventKeepsHolder(j.lease, e, o, Proven(t, b), b.grace, limits);
      }
    }
  }

  lemma {:induction false} SessionEnds(sys: LeaseRuns.System, e: LeaseRuns.Event)
    ensures forall o :: EndsSession(sys, e, o) ==> e.Send? && e.owner == o
  {
  }

  lemma {:induction false} LeaseEventKeepsInv(j: Joint, e: LeaseRuns.Event, b: Bounds, limits: LeaseRuns.Deployment)
    requires Inv(j, b, limits) && LeaseRuns.Enabled(j.lease, e)
    ensures Inv(Next(j, OnLease(e), limits), b, limits)
  {
    hide LeaseRuns.Inv, LeaseRuns.GraceIsAtLeast, LeaseRuns.Enabled, LeaseRuns.Next, SessionOk, Generations.Inv;
    SessionEnds(j.lease, e);
    hide EndsSession;
    LeaseRuns.EventKeepsInv(j.lease, e, limits);
    var next := Next(j, OnLease(e), limits);
    forall o | o in next.sessions ensures SessionOk(next, o, next.sessions[o], b) {
      LeaseKeepsSession(j, e, o, b, limits);
    }
  }

  /** What a store event may do to somebody's publisher. */
  lemma {:induction false} OthersPublisherStays(w: Generations.World, e: Generations.Event, o: LeaseOwner)
    requires e.Verify? || e.Capture? ==> e.id != o
    ensures var next := Generations.Next(w, e);
      o in next.publishers ==>
        && o in w.publishers && next.publishers[o].verified == w.publishers[o].verified
        && next.publishers[o].captured == w.publishers[o].captured && next.publishers[o].desired == w.publishers[o].desired
  {
  }

  lemma {:induction false} OnlyCommitsCount(w: Generations.World, e: Generations.Event)
    ensures !e.Commit? ==> Generations.Next(w, e).version == w.version && Generations.Next(w, e).head == w.head
    ensures e.Commit? && e.id in w.publishers ==> Generations.Next(w, e).head == Some(w.publishers[e.id].desired)
  {
  }

  /** A commit inside a window leaves no unchecked session with a current handle. */
  lemma {:induction false} CommitKeepsSession(j: Joint, e: Generations.Event, o: LeaseOwner, b: Bounds, limits: LeaseRuns.Deployment)
    requires SessionsOk(j, b) && e.Commit? && InWindow(j, e.id, b) && o in j.sessions
    ensures SessionOk(Next(j, OnWorld(e), limits), o, j.sessions[o], b)
  {
    hide Generations.Next, LeaseRuns.HeldBy;
    WindowIsHeld(j, e.id, b);
    assert SessionOk(j, o, j.sessions[o], b);
    OthersPublisherStays(j.world, e, o);
    OnlyCommitsCount(j.world, e);
  }

  lemma {:induction false} WorldKeepsSession(j: Joint, e: Generations.Event, o: LeaseOwner, b: Bounds, limits: LeaseRuns.Deployment)
    requires SessionsOk(j, b) && Enabled(j, OnWorld(e), b) && o in j.sessions
    requires !(e.Verify? && e.id == o)
    ensures SessionOk(Next(j, OnWorld(e), limits), o, j.sessions[o], b)
  {
    hide Generations.Next, Generations.Enabled, LeaseRuns.HeldBy;
    assert SessionOk(j, o, j.sessions[o], b);
    if e.Commit? {
      CommitKeepsSession(j, e, o, b, limits);
    } else {
      OnlyCommitsCount(j.world, e);
      if e.Capture? && e.id == o {
        CaptureKeepsVerified(j.world, o);
      } else {
        OthersPublisherStays(j.world, e, o);
      }
    }
  }

  lemma {:induction false} CaptureKeepsVerified(w: Generations.World, o: LeaseOwner)
    ensures var next := Generations.Next(w, Generations.Capture(o));
      o in next.publishers ==>
        && o in w.publishers && next.publishers[o].verified == w.publishers[o].verified
        && next.publishers[o].desired == w.publishers[o].desired
  {
  }

  lemma {:induction false} VerifyOpensSession(j: Joint, o: LeaseOwner, desired: Collector.Manifest, b: Bounds, limits: LeaseRuns.Deployment)
    requires LeaseRuns.Inv(j.lease, limits) && Enabled(j, OnWorld(Generations.Verify(o, desired)), b)
    ensures var next := Next(j, OnWorld(Generations.Verify(o, desired)), limits);
            o in next.sessions && SessionOk(next, o, next.sessions[o], b)
  {
    hide Generations.Enabled;
    assert LeaseRuns.ClientOk(j.lease, o, limits);
  }

  /** Whoever commits inside a window captured in time. */
  lemma {:induction false} CommitsAreTimely(j: Joint, e: Generations.Event, b: Bounds)
    requires SessionsOk(j, b) && Enabled(j, OnWorld(e), b)
    ensures Generations.Timely(j.world, e)
  {
    hide Generations.Enabled, LeaseRuns.HeldBy;
    if e.Commit? {
      assert SessionOk(j, e.id, j.sessions[e.id], b);
    }
  }

  lemma {:induction false} WorldEventKeepsInv(j: Joint, e: Generations.Event, b: Bounds, limits: LeaseRuns.Deployment)
    requires Inv(j, b, limits) && Enabled(j, OnWorld(e), b)
    ensures Inv(Next(j, OnWorld(e), limits), b, limits)
  {
    hide LeaseRuns.Inv, LeaseRuns.GraceIsAtLeast, Generations.Inv, Generations.UploadsOk, Generations.Timely;
    hide Generations.Enabled, Generations.Next, SessionOk, InWindow;
    CommitsAreTimely(j, e, b);
    Generations.EventKeepsInv(j.world, e);
    var next := Next(j, OnWorld(e), limits);
    forall o | o in next.sessions ensures SessionOk(next, o, next.sessions[o], b) {
      if e.Verify? && e.id == o {
        VerifyOpensSession(j, o, e.desired, b, limits);
      } else {
        WorldKeepsSession(j, e, o, b, limits);
      }
    }
  }

  /** The first check proves that nobody wrote the lease, hence nobody committed, since verifying. */
  lemma {:induction false} CheckOpensWindow(j: Joint, o: LeaseOwner, read: int, b: Bounds)
    requires Generations.Inv(j.world) && SessionsOk(j, b) && Enabled(j, Check(o, read), b)
    requires j.lease.Of(o).handle.value.owner == o
    ensures SessionOk(j, o, j.sessions[o].(window := Some(read)), b)
  {
    hide Generations.HeadOk, Generations.ArmedOk, Generations.ServedOk, Generations.Follows;
    assert SessionOk(j, o, j.sessions[o], b);
    if o in j.world.publishers {
      assert Generations.PublisherOk(j.world, j.world.publishers[o]);
    }
  }

  lemma {:induction false} HandleHasOwner(sys: LeaseRuns.System, o: LeaseOwner, limits: LeaseRuns.Deployment)
    requires LeaseRuns.Inv(sys, limits) && sys.Of(o).handle.Some?
    ensures sys.Of(o).handle.value.owner == o
  {
    assert LeaseRuns.ClientOk(sys, o, limits);
  }

  lemma {:induction false} CheckKeepsInv(j: Joint, o: LeaseOwner, read: int, b: Bounds, limits: LeaseRuns.Deployment)
    requires Inv(j, b, limits) && Enabled(j, Check(o, read), b)
    ensures Inv(Next(j, Check(o, read), limits), b, limits)
  {
    hide LeaseRuns.Inv, LeaseRuns.GraceIsAtLeast, Generations.Inv, Lease.WindowIsOpen;
    HandleHasOwner(j.lease, o, limits);
    CheckOpensWindow(j, o, read, b);
    hide Enabled, LeaseRuns.HeldBy;
    var next := Next(j, Check(o, read), limits);
    forall p | p in next.sessions ensures SessionOk(next, p, next.sessions[p], b) {
      assert SessionOk(j, p, j.sessions[p], b);
    }
  }

  lemma {:induction false} EventKeepsInv(j: Joint, e: Event, b: Bounds, limits: LeaseRuns.Deployment)
    requires Inv(j, b, limits) && Enabled(j, e, b)
    ensures Inv(Next(j, e, limits), b, limits)
    ensures e.OnWorld? ==> Generations.Timely(j.world, e.world)
  {
    hide Inv, Next, LeaseRuns.Enabled, Generations.Enabled, InWindow, Lease.WindowIsOpen, Generations.Timely;
    match e {
      case OnLease(f) => LeaseEventKeepsInv(j, f, b, limits);
      case OnWorld(f) =>
        InvMeans(j, b, limits);
        CommitsAreTimely(j, f, b);
        WorldEventKeepsInv(j, f, b, limits);
      case Check(o, read) => CheckKeepsInv(j, o, read, b, limits);
    }
  }

  /** Before the first lease and the first publication. */
  lemma {:induction false} InvAtStart(s: StoreState, clock: int, b: Bounds, limits: LeaseRuns.Deployment)
    requires s.Valid() && Lease.LeaseKey !in s.objects && LeaseRuns.GraceIsAtLeast(b.grace, limits)
    ensures Inv(Joint(LeaseRuns.System(s, map[], clock), Generations.NobodyYet, map[]), b, limits)
  {
    hide LeaseRuns.Inv, LeaseRuns.GraceIsAtLeast, Generations.Inv, Generations.UploadsOk;
    LeaseRuns.InvAtStart(s, clock, limits);
    Generations.NumberedAtStart();
  }

  // ---- Whole runs ----

  function Run(j: Joint, es: seq<Event>, limits: LeaseRuns.Deployment): Joint
    decreases |es|
  {
    if es == [] then j else Run(Next(j, es[0], limits), es[1..], limits)
  }

  ghost predicate AllEnabled(j: Joint, es: seq<Event>, b: Bounds, limits: LeaseRuns.Deployment)
    decreases |es|
  {
    es == [] || (Enabled(j, es[0], b) && AllEnabled(Next(j, es[0], limits), es[1..], b, limits))
  }

  /** The store events of a run. */
  function Published(es: seq<Event>): seq<Generations.Event> {
    if es == [] then [] else (if es[0].OnWorld? then [es[0].world] else []) + Published(es[1..])
  }

  /** In every run under the lease all commits are timely, so the generations step by exactly one. */
  lemma {:induction false} LeasedCommitsAreTimely(j: Joint, es: seq<Event>, b: Bounds, limits: LeaseRuns.Deployment)
    requires Inv(j, b, limits) && AllEnabled(j, es, b, limits)
    ensures Inv(Run(j, es, limits), b, limits)
    ensures Run(j, es, limits).world == Generations.Run(j.world, Published(es))
    ensures Generations.AllEnabled(j.world, Published(es)) && Generations.AllTimely(j.world, Published(es))
    decreases |es|
  {
    hide Inv, Enabled, Next, Generations.Enabled, Generations.Next, Generations.Timely;
    if es != [] {
      var e, rest := es[0], es[1..];
      EventKeepsInv(j, e, b, limits);
      LeasedCommitsAreTimely(Next(j, e, limits), rest, b, limits);
      WorldSteps(j, e, b, limits);
      if e.OnWorld? {
        assert Published(es) == [e.world] + Published(rest);
        assert Published(es)[1..] == Published(rest);
      } else {
        assert Published(es) == Published(rest);
      }
    }
  }

  lemma {:induction false} WorldSteps(j: Joint, e: Event, b: Bounds, limits: LeaseRuns.Deployment)
    ensures Next(j, e, limits).world == if e.OnWorld? then Generations.Next(j.world, e.world) else j.world
    ensures Enabled(j, e, b) && e.OnWorld? ==> Generations.Enabled(j.world, e.world)
  {
    hide Generations.Enabled, Generations.Next, LeaseRuns.Next;
  }

  /** Any number of publishers under one lease, with lost responses, crashes, suspended collectors and
      clocks cut to whole seconds: tombstones only grow, every immutable key ever live is live or
      tombstoned, all live immutable objects are present, generations step by one, and no deletion that
      once passed its checks hits a live object. */
  lemma {:induction false} LeasedGenerationsLoseNothing(j: Joint, es: seq<Event>, k: Keys.Key, b: Bounds,
                                                         limits: LeaseRuns.Deployment)
    requires Inv(j, b, limits) && Generations.Numbered(j.world) && AllEnabled(j, es, b, limits)
    ensures var w, now := j.world, Run(j, es, limits).world;
      && (w.head.Some? ==> now.head.Some? && w.head.value.queue <= now.head.value.queue)
      && (k in w.served ==> Generations.Tombstoned(now, k) || (now.head.Some? && Generations.LiveImmutable(now.head.value, k)))
      && (now.head.Some? && Generations.LiveImmutable(now.head.value, k) ==> Generations.Present(now, now.head.value, k))
      && (k in w.armed ==> now.head.Some? && k !in now.head.value.live)
      && Generations.AllStepByOne(w, Published(es))
  {
    hide *;
    LeasedCommitsAreTimely(j, es, b, limits);
    InvMeans(j, b, limits);
    Generations.GenerationsLoseNothing(j.world, Published(es));
    if k in j.world.armed { Generations.SuspendedCollectorIsHarmless(j.world, Published(es), k); }
    Generations.GenerationsStepIffTimely(j.world, Published(es));
  }

  /** Whoever uploads inside a window is up to date, hence creates nothing under a tombstone. */
  lemma {:induction false} UploadsRespect(j: Joint, e: Generations.Event, b: Bounds)
    requires Generations.Inv(j.world) && SessionsOk(j, b) && Enabled(j, OnWorld(e), b)
    ensures Generations.RespectsTombstones(j.world, e)
  {
    hide Generations.Inv, Generations.RespectsTombstones, LeaseRuns.HeldBy, SessionsOk, InWindow;
    if e.Upload? {
      WindowIsHeld(j, e.id, b);
      WindowIsUpToDate(j, e.id, b);
      assert Generations.Enabled(j.world, e);
      UploadersVerify(j.world, e);
    } else {
      OnlyUploadsCount(j.world, e);
    }
  }

  lemma {:induction false} WindowIsUpToDate(j: Joint, o: LeaseOwner, b: Bounds)
    requires SessionsOk(j, b) && InWindow(j, o, b) && RecordedOwner(j, o)
    ensures UpToDate(j.world, o)
  {
    assert SessionOk(j, o, j.sessions[o], b);
  }

  lemma {:induction false} UploadersVerify(w: Generations.World, e: Generations.Event)
    requires Generations.Inv(w) && Generations.Enabled(w, e) && e.Upload? && UpToDate(w, e.id)
    ensures Generations.RespectsTombstones(w, e)
  {
    hide Generations.Inv, Generations.RespectsTombstones;
    Generations.CurrentPublishersRespect(w, e);
  }

  lemma {:induction false} OnlyUploadsCount(w: Generations.World, e: Generations.Event)
    requires !e.Upload?
    ensures Generations.RespectsTombstones(w, e)
  {
  }

  /** So in every run under the lease every tombstone stays true: an object that was retired is, as long as
      it exists, the one that was retired. */
  lemma {:induction false} LeasedTombstonesHold(j: Joint, es: seq<Event>, b: Bounds, limits: LeaseRuns.Deployment)
    requires Inv(j, b, limits) && Generations.TombstonesHold(j.world) && AllEnabled(j, es, b, limits)
    ensures Generations.AllRespectTombstones(j.world, Published(es))
    ensures Generations.TombstonesHold(Run(j, es, limits).world)
  {
    hide *;
    LeasedUploadsRespect(j, es, b, limits);
    LeasedCommitsAreTimely(j, es, b, limits);
    InvMeans(j, b, limits);
    Generations.TombstonesAlwaysHoldIff(j.world, Published(es));
  }

  lemma {:induction false} LeasedUploadsRespect(j: Joint, es: seq<Event>, b: Bounds, limits: LeaseRuns.Deployment)
    requires Inv(j, b, limits) && AllEnabled(j, es, b, limits)
    ensures Generations.AllRespectTombstones(j.world, Published(es))
    decreases |es|
  {
    hide Inv, Enabled, Next, Generations.Next, Generations.RespectsTombstones;
    if es != [] {
      var e, rest := es[0], es[1..];
      EventKeepsInv(j, e, b, limits);
      LeasedUploadsRespect(Next(j, e, limits), rest, b, limits);
      WorldSteps(j, e, b, limits);
      if e.OnWorld? {
        InvMeans(j, b, limits);
        UploadsRespect(j, e.world, b);
        assert Published(es) == [e.world] + Published(rest);
        assert Published(es)[1..] == Published(rest);
      } else {
        assert Published(es) == Published(rest);
      }
    }
  }
}
