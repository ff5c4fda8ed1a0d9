/** Every run of the commit protocol: crashes, retries, recaptured plans and other writers. */
module PublicationRuns {
  import opened Outcome
  import opened Keys
  import opened Store
  import opened Publication

  /** One publisher: the store, its plan, and how far the current attempt has come. */
  datatype Config = Config(store: StoreState, plan: Plan, done: nat)

  /** A step of the attempt, a crash between two steps with the same or a recaptured plan, or
      another client writing or deleting a key outside the plan. */
  datatype Event = Perform | Crash | CrashAndReplan | Foreign(key: Key, content: Option<Object>)

  function Recaptured(s: StoreState, p: Plan): Plan {
    p.(preconditions := map k | k in p.Mutable() :: if k in s.objects then Some(s.objects[k].etag) else None)
  }

  predicate Enabled(c: Config, e: Event) {
    (e.Perform? ==> c.done < |Program(c.plan)|) && (e.Foreign? ==> !c.plan.Has(e.key))
  }

  /** An error ends the attempt like a crash. */
  function Next(c: Config, e: Event): Config {
    match e
    case Perform =>
      if c.done >= |Program(c.plan)| then c
      else
        var r := Step(c.store, c.plan, Program(c.plan)[c.done]);
        if r.Ok? then Config(r.value, c.plan, c.done + 1) else c.(done := 0)
    case Crash => c.(done := 0)
    case CrashAndReplan => Config(c.store, Recaptured(c.store, c.plan), 0)
    case Foreign(k, o) => c.(store := if o.Some? then c.store.Written(k, o.value) else c.store.Without(k))
  }

  function After(c: Config, es: seq<Event>): Config
    decreases |es|
  {
    if es == [] then c else After(Next(c, es[0]), es[1..])
  }

  predicate AllEnabled(c: Config, es: seq<Event>)
    decreases |es|
  {
    es == [] || (Enabled(c, es[0]) && AllEnabled(Next(c, es[0]), es[1..]))
  }

  // ---- What every step keeps ----

  /** Immutable keys are absent or equal; mutable keys are done or still match their precondition. */
  predicate Ready(s: StoreState, p: Plan, k: Key) {
    s.Holds(k, p.Wanted(k)) || (if k in p.immutable then k !in s.objects else Met(s, k, p.Precondition(k)))
  }

  ghost predicate Recoverable(s: StoreState, p: Plan) {
    forall k :: p.Has(k) ==> Ready(s, p, k)
  }

  ghost predicate Complete(s: StoreState, p: Plan, ops: seq<Op>) {
    forall k :: Touches(ops, k) ==> s.Holds(k, p.Wanted(k))
  }

  ghost predicate Inv(c: Config) {
    && c.store.Valid() && c.plan.Separated() && c.done <= |Program(c.plan)|
    && Recoverable(c.store, c.plan) && Complete(c.store, c.plan, Program(c.plan)[..c.done])
  }

  ghost predicate OnlyAt(s: StoreState, t: StoreState, k: Key) {
    forall l :: l != k ==> s.Get(l) == t.Get(l)
  }

  lemma {:induction false} StepSucceeds(s: StoreState, p: Plan, earlier: seq<Op>, op: Op)
    requires s.Valid() && p.Separated() && Allowed(p, earlier, op)
    requires Ready(s, p, op.key) && (op.kind == Verify ==> s.Holds(op.key, p.Wanted(op.key)))
    ensures Step(s, p, op).Ok?
    ensures var t := Step(s, p, op).value;
            t.Valid() && OnlyAt(s, t, op.key) && t.Holds(op.key, p.Wanted(op.key))
  {
    hide Touches;
    WrittenIsValid(s, op.key, p.Wanted(op.key));
  }

  lemma {:induction false} ReadyElsewhere(s: StoreState, t: StoreState, p: Plan, k: Key)
    requires OnlyAt(s, t, k) && Recoverable(s, p) && (p.Has(k) ==> Ready(t, p, k))
    ensures Recoverable(t, p)
  {
    forall l | p.Has(l) ensures Ready(t, p, l) {
      if l != k {
        assert Ready(s, p, l) && s.Get(l) == t.Get(l);
      }
    }
  }

  lemma {:induction false} CompleteElsewhere(s: StoreState, t: StoreState, p: Plan, ops: seq<Op>, k: Key)
    requires OnlyAt(s, t, k) && Complete(s, p, ops) && (Touches(ops, k) ==> t.Holds(k, p.Wanted(k)))
    ensures Complete(t, p, ops)
  {
    hide Touches;
    forall l | Touches(ops, l) ensures t.Holds(l, p.Wanted(l)) {
      assert s.Holds(l, p.Wanted(l)) && (l != k ==> s.Get(l) == t.Get(l));
    }
  }

  lemma {:induction false} CompleteOneMore(s: StoreState, p: Plan, ops: seq<Op>, op: Op)
    requires Complete(s, p, ops) && s.Holds(op.key, p.Wanted(op.key))
    ensures Complete(s, p, ops + [op])
  {
    forall k | Touches(ops + [op], k) ensures s.Holds(k, p.Wanted(k)) {
      TouchesAppended(ops, [op], k);
    }
  }

  lemma {:induction false} Touched(p: Plan, n: nat)
    requires p.Separated() && n < |Program(p)|
    ensures Allowed(p, Program(p)[..n], Program(p)[n]) && p.Has(Program(p)[n].key)
    ensures Program(p)[..n] + [Program(p)[n]] == Program(p)[..n + 1]
  {
    hide *;
    ProgramOrder(p);
    TouchesAt(Program(p), n);
    assert Program(p)[..n] + [Program(p)[n]] == Program(p)[..n + 1];
  }

  lemma {:induction false} TouchesAt(ops: seq<Op>, n: nat)
    requires n < |ops|
    ensures Touches(ops, ops[n].key)
  {
  }

  /** No step of an attempt fails, whatever happened before. */
  lemma {:induction false} PerformKeepsInv(c: Config)
    requires Inv(c) && Enabled(c, Perform)
    ensures Step(c.store, c.plan, Program(c.plan)[c.done]).Ok?
    ensures Inv(Next(c, Perform)) && OnlyAt(c.store, Next(c, Perform).store, Program(c.plan)[c.done].key)
  {
    hide Program, Ready, Recoverable, Complete, Touches, Allowed, Step, OnlyAt;
    hide Plan.Separated, Plan.Mutable, Plan.IsMutable, Plan.Has, Plan.Wanted, Plan.Precondition, StoreState.Valid;
    var p, op, earlier := c.plan, Program(c.plan)[c.done], Program(c.plan)[..c.done];
    Touched(p, c.done);
    ReadyAt(c.store, p, earlier, op);
    StepSucceeds(c.store, p, earlier, op);
    var t := Step(c.store, p, op).value;
    HoldsIsReady(t, p, op.key);
    ReadyElsewhere(c.store, t, p, op.key);
    CompleteElsewhere(c.store, t, p, earlier, op.key);
    CompleteOneMore(t, p, earlier, op);
  }

  lemma {:induction false} ReadyAt(s: StoreState, p: Plan, earlier: seq<Op>, op: Op)
    requires Recoverable(s, p) && Complete(s, p, earlier) && Allowed(p, earlier, op) && p.Has(op.key)
    ensures Ready(s, p, op.key) && (op.kind == Verify ==> s.Holds(op.key, p.Wanted(op.key)))
  {
  }

  lemma {:induction false} HoldsIsReady(s: StoreState, p: Plan, k: Key)
    requires s.Holds(k, p.Wanted(k))
    ensures Ready(s, p, k)
  {
  }

  lemma {:induction false} ForeignKeepsInv(c: Config, e: Event)
    requires Inv(c) && e.Foreign? && Enabled(c, e)
    ensures Inv(Next(c, e)) && OnlyAt(c.store, Next(c, e).store, e.key)
  {
    hide Program, Ready, Recoverable, Complete, Touches, Step;
    hide Plan.Separated, Plan.Mutable, Plan.IsMutable, Plan.Has, Plan.Wanted, Plan.Precondition, StoreState.Valid;
    var d := Next(c, e);
    if e.content.Some? { WrittenIsValid(c.store, e.key, e.content.value); } else { WithoutIsValid(c.store, e.key); }
    ReadyElsewhere(c.store, d.store, c.plan, e.key);
    ForeignIsUntouched(c.plan, c.done, e.key);
    CompleteElsewhere(c.store, d.store, c.plan, Program(c.plan)[..c.done], e.key);
  }

  lemma {:induction false} ForeignIsUntouched(p: Plan, n: nat, k: Key)
    requires p.Separated() && n <= |Program(p)| && !p.Has(k)
    ensures !Touches(Program(p)[..n], k)
  {
    hide Program, Touches;
    ProgramOrder(p);
    assert Program(p) == Program(p)[..n] + Program(p)[n..];
    TouchesAppended(Program(p)[..n], Program(p)[n..], k);
  }

  /** Plans that differ only in their captured preconditions. */
  predicate SamePublication(p: Plan, q: Plan) { q == p.(preconditions := q.preconditions) }

  lemma {:induction false} ReplanKeepsInv(c: Config)
    requires Inv(c)
    ensures Inv(Next(c, CrashAndReplan)) && SamePublication(c.plan, Next(c, CrashAndReplan).plan)
  {
    hide *;
    InvMeans(c);
    RecapturedIsSeparated(c.store, c.plan);
    RecapturedIsReady(c.store, c.plan);
    NothingComplete(c.store, Recaptured(c.store, c.plan));
    InvMeans(Config(c.store, Recaptured(c.store, c.plan), 0));
    NextReplan(c);
  }

  lemma {:induction false} NextReplan(c: Config)
    ensures Next(c, CrashAndReplan) == Config(c.store, Recaptured(c.store, c.plan), 0)
  {
  }

  lemma {:induction false} InvMeans(c: Config)
    ensures Inv(c) <==>
      && c.store.Valid() && c.plan.Separated() && c.done <= |Program(c.plan)|
      && Recoverable(c.store, c.plan) && Complete(c.store, c.plan, Program(c.plan)[..c.done])
  {
    hide Program, Complete, Recoverable, Plan.Separated, StoreState.Valid;
  }

  lemma {:induction false} RecapturedIsSeparated(s: StoreState, p: Plan)
    requires p.Separated()
    ensures Recaptured(s, p).Separated() && SamePublication(p, Recaptured(s, p))
  {
  }

  /** Freshly captured preconditions match. */
  lemma {:induction false} RecapturedIsReady(s: StoreState, p: Plan)
    requires Recoverable(s, p)
    ensures Recoverable(s, Recaptured(s, p))
  {
    var q := Recaptured(s, p);
    forall k | q.Has(k) ensures Ready(s, q, k) {
      assert p.Has(k) && Ready(s, p, k);
    }
  }

  lemma {:induction false} NothingComplete(s: StoreState, p: Plan)
    ensures Complete(s, p, Program(p)[..0])
  {
  }

  lemma {:induction false} EventKeepsInv(c: Config, e: Event)
    requires Inv(c) && Enabled(c, e)
    ensures Inv(Next(c, e)) && SamePublication(c.plan, Next(c, e).plan)
  {
    hide Program, Complete, Recoverable, Step, Recaptured;
    hide Plan.Separated, StoreState.Valid;
    match e {
      case Perform => PerformKeepsInv(c);
      case Crash => NothingComplete(c.store, c.plan);
      case CrashAndReplan => ReplanKeepsInv(c);
      case Foreign(_, _) => ForeignKeepsInv(c, e);
    }
  }

  // ---- Crash recovery ----

  /** The contents other clients alone produce. */
  function Effects(contents: map<Key, Object>, es: seq<Event>): map<Key, Object>
    decreases |es|
  {
    if es == [] then contents
    else
      var e := es[0];
      var rest := if !e.Foreign? then contents
                  else if e.content.Some? then contents[e.key := e.content.value] else contents - {e.key};
      Effects(rest, es[1..])
  }

  ghost predicate AgreesOutside(s: StoreState, p: Plan, contents: map<Key, Object>) {
    forall k :: !p.Has(k) ==>
      (k in s.objects <==> k in contents) && (k in contents ==> s.objects[k].content == contents[k])
  }

  lemma {:induction false} AgreementIsKept(c: Config, e: Event, contents: map<Key, Object>)
    requires Inv(c) && Enabled(c, e) && AgreesOutside(c.store, c.plan, contents)
    ensures AgreesOutside(Next(c, e).store, Next(c, e).plan, Effects(contents, [e]))
  {
    hide *;
    InvMeans(c);
    match e {
      case Perform =>
        PerformEnabled(c);
        PerformKeepsInv(c);
        Touched(c.plan, c.done);
        PerformHasNoEffect(contents);
        EventKeepsInv(c, e);
        AgreesElsewhere(c.store, Next(c, e).store, c.plan, Next(c, e).plan, Program(c.plan)[c.done].key, contents);
      case Foreign(k, o) =>
        AgreesAfterForeign(c, k, o, contents);
      case Crash =>
        NoStoreChange(c, e, contents);
      case CrashAndReplan =>
        EventKeepsInv(c, e);
        NoStoreChange(c, e, contents);
    }
  }

  lemma {:induction false} PerformEnabled(c: Config)
    ensures Enabled(c, Perform) <==> c.done < |Program(c.plan)|
  {
    hide Program;
  }

  lemma {:induction false} NoStoreChange(c: Config, e: Event, contents: map<Key, Object>)
    requires e.Crash? || e.CrashAndReplan?
    requires AgreesOutside(c.store, c.plan, contents)
    ensures AgreesOutside(Next(c, e).store, Next(c, e).plan, Effects(contents, [e]))
  {
    NoEffects(contents);
    assert [e][1..] == [];
    assert forall k :: Next(c, e).plan.Has(k) <==> c.plan.Has(k);
  }

  lemma {:induction false} AgreesElsewhere(s: StoreState, t: StoreState, p: Plan, q: Plan, key: Key, contents: map<Key, Object>)
    requires OnlyAt(s, t, key) && p.Has(key) && SamePublication(p, q) && AgreesOutside(s, p, contents)
    ensures AgreesOutside(t, q, contents)
  {
    forall k | !q.Has(k) ensures s.Get(k) == t.Get(k) && !p.Has(k) {}
  }

  lemma {:induction false} AgreesAfterForeign(c: Config, k: Key, o: Option<Object>, contents: map<Key, Object>)
    requires AgreesOutside(c.store, c.plan, contents)
    ensures AgreesOutside(Next(c, Foreign(k, o)).store, Next(c, Foreign(k, o)).plan, Effects(contents, [Foreign(k, o)]))
  {
    hide Program, Step, Plan.Has;
    var e := Foreign(k, o);
    NoEffects(if o.Some? then contents[k := o.value] else contents - {k});
    assert [e][1..] == [];
  }

  lemma {:induction false} EffectsInOrder(contents: map<Key, Object>, es: seq<Event>)
    requires es != []
    ensures Effects(contents, es) == Effects(Effects(contents, [es[0]]), es[1..])
  {
    assert [es[0]][1..] == [];
  }

  lemma {:induction false} EventsKeepInv(c: Config, es: seq<Event>, contents: map<Key, Object>)
    requires Inv(c) && AllEnabled(c, es) && AgreesOutside(c.store, c.plan, contents)
    ensures var d := After(c, es);
            && Inv(d) && SamePublication(c.plan, d.plan)
            && AgreesOutside(d.store, d.plan, Effects(contents, es))
    decreases |es|
  {
    hide Inv, AgreesOutside, Next, Effects;
    if es == [] {
      NoEffects(contents);
    } else {
      EventKeepsInv(c, es[0]);
      AgreementIsKept(c, es[0], contents);
      EffectsInOrder(contents, es);
      EventsKeepInv(Next(c, es[0]), es[1..], Effects(contents, [es[0]]));
    }
  }

  lemma {:induction false} NoEffects(contents: map<Key, Object>)
    ensures Effects(contents, []) == contents
  {
  }

  /** The rest of the current attempt. */
  function Finish(c: Config): Run {
    RunOps(c.store, c.plan, if c.done <= |Program(c.plan)| then Program(c.plan)[c.done..] else [])
  }

  /** From any reachable configuration the rest of the attempt ends without error. */
  lemma {:induction false} AttemptFinishes(c: Config, contents: map<Key, Object>)
    requires Inv(c) && AgreesOutside(c.store, c.plan, contents)
    ensures var r := RunOps(c.store, c.plan, Program(c.plan)[c.done..]);
            r.error.None? && Complete(r.state, c.plan, Program(c.plan)) && AgreesOutside(r.state, c.plan, contents)
    decreases |Program(c.plan)| - c.done
  {
    hide Program, Complete, Recoverable, Step, AgreesOutside, Effects;
    var program := Program(c.plan);
    if c.done == |program| {
      assert program[c.done..] == [] && program[..c.done] == program;
    } else {
      assert program[c.done..][0] == program[c.done] && program[c.done..][1..] == program[c.done + 1..];
      PerformKeepsInv(c);
      AgreementIsKept(c, Perform, contents);
      PerformHasNoEffect(contents);
      AttemptFinishes(Next(c, Perform), contents);
    }
  }

  lemma {:induction false} PerformHasNoEffect(contents: map<Key, Object>)
    ensures Effects(contents, [Perform]) == contents
  {
    NoEffects(contents);
    assert [Perform][1..] == [];
  }

  lemma {:induction false} FinalContents(s: StoreState, p: Plan, contents: map<Key, Object>)
    requires p.Separated() && Complete(s, p, Program(p)) && AgreesOutside(s, p, contents)
    ensures s.Contents() == contents + p.Target()
  {
    hide *;
    ProgramOrder(p);
    forall k | p.Has(k) ensures s.Holds(k, p.Wanted(k)) {
      CompleteAt(s, p, Program(p), k);
    }
    TargetKeys(p);
    ContentsByKey(s, p, contents, p.Target());
  }

  lemma {:induction false} CompleteAt(s: StoreState, p: Plan, ops: seq<Op>, k: Key)
    requires Complete(s, p, ops) && Touches(ops, k)
    ensures s.Holds(k, p.Wanted(k))
  {
    hide Touches;
  }

  lemma {:induction false} TargetKeys(p: Plan)
    ensures forall k :: k in p.Target() <==> p.Has(k)
    ensures forall k :: k in p.Target() ==> p.Target()[k] == p.Wanted(k)
  {
    hide Plan.Wanted;
  }

  lemma {:induction false} ContentsByKey(s: StoreState, p: Plan, contents: map<Key, Object>, target: map<Key, Object>)
    requires forall k :: k in target <==> p.Has(k)
    requires forall k :: k in target ==> s.Holds(k, target[k])
    requires AgreesOutside(s, p, contents)
    ensures s.Contents() == contents + target
  {
    hide Plan.Has;
    forall k ensures k in s.objects <==> k in contents + target {
      if k in target { assert s.Holds(k, target[k]); }
    }
    forall k | k in s.objects ensures s.objects[k].content == (contents + target)[k] {
      if k in target { assert s.Holds(k, target[k]); }
    }
  }

  /** Crashes after any single write, any number of times, with the same or a recaptured plan, and
      other clients writing other keys: the attempt that is not interrupted any more ends without
      error, the plan's keys hold the plan's objects, and every other key is as if nothing had been
      published. Without other writers this is what one uninterrupted run leaves. */
  lemma {:induction false} CrashRecovery(s: StoreState, p: Plan, es: seq<Event>)
    requires s.Valid() && p.Separated() && Recoverable(s, p) && AllEnabled(Config(s, p, 0), es)
    ensures var rest := Finish(After(Config(s, p, 0), es));
            rest.error.None? && rest.state.Contents() == Effects(s.Contents(), es) + p.Target()
    ensures var run := RunOps(s, p, Program(p));
            run.error.None? && run.state.Contents() == s.Contents() + p.Target()
  {
    hide *;
    var start := Config(s, p, 0);
    NothingComplete(s, p);
    InvMeans(start);
    AgreesWithOwnContents(s, p);
    EventsKeepInv(start, es, s.Contents());
    FinishedContents(After(start, es), Effects(s.Contents(), es));
    SameTarget(p, After(start, es).plan);
    FinishedContents(start, s.Contents());
    FinishMeans(start);
  }

  lemma {:induction false} FinishedContents(c: Config, contents: map<Key, Object>)
    requires Inv(c) && AgreesOutside(c.store, c.plan, contents)
    ensures c.done <= |Program(c.plan)|
    ensures var r := RunOps(c.store, c.plan, Program(c.plan)[c.done..]);
            r == Finish(c) && r.error.None? && r.state.Contents() == contents + c.plan.Target()
  {
    hide *;
    InvMeans(c);
    AttemptFinishes(c, contents);
    FinalContents(RunOps(c.store, c.plan, Program(c.plan)[c.done..]).state, c.plan, contents);
    FinishMeans(c);
  }

  lemma {:induction false} FinishMeans(c: Config)
    requires c.done <= |Program(c.plan)|
    ensures Finish(c) == RunOps(c.store, c.plan, Program(c.plan)[c.done..])
    ensures c.done == 0 ==> Finish(c) == RunOps(c.store, c.plan, Program(c.plan))
  {
    hide Program, RunOps;
    assert Program(c.plan)[0..] == Program(c.plan);
  }

  lemma {:induction false} AgreesWithOwnContents(s: StoreState, p: Plan)
    ensures AgreesOutside(s, p, s.Contents())
  {
  }

  lemma {:induction false} SameTarget(p: Plan, q: Plan)
    requires SamePublication(p, q)
    ensures p.Target() == q.Target()
  {
  }

  /** A run that ends without error began with every touched key ready. */
  lemma {:induction false} SuccessNeedsReady(s: StoreState, p: Plan, ops: seq<Op>, k: Key)
    requires RunOps(s, p, ops).error.None? && Touches(ops, k)
    requires forall i :: 0 <= i < |ops| ==> FitsRole(p, ops[i])
    ensures Ready(s, p, k)
    decreases |ops|
  {
    hide Step, Ready, Plan.Wanted, FitsRole, Plan.Precondition;
    FitsRoleAt(s, p, ops[0]);
    if ops[0].key != k {
      var t := Step(s, p, ops[0]).value;
      StepOnlyWrites(s, p, ops[0]);
      var i :| 0 <= i < |ops| && ops[i].key == k;
      assert ops[1..][i - 1].key == k;
      SuccessNeedsReady(t, p, ops[1..], k);
      SameReady(s, t, p, k);
    }
  }

  predicate FitsRole(p: Plan, op: Op) {
    (op.kind == Create ==> op.key in p.immutable) && (op.kind == Replace ==> op.key !in p.immutable)
  }

  lemma {:induction false} FitsRoleAt(s: StoreState, p: Plan, op: Op)
    requires Step(s, p, op).Ok? && FitsRole(p, op)
    ensures Ready(s, p, op.key)
  {
  }

  lemma {:induction false} SameReady(s: StoreState, t: StoreState, p: Plan, k: Key)
    requires s.Get(k) == t.Get(k) && Ready(t, p, k)
    ensures Ready(s, p, k)
  {
  }

  lemma {:induction false} ProgramFitsRoles(p: Plan)
    requires p.Separated()
    ensures forall i :: 0 <= i < |Program(p)| ==> FitsRole(p, Program(p)[i])
  {
    hide Program;
    ProgramOrder(p);
  }

  /** An uninterrupted run succeeds exactly when immutable keys are absent or equal and mutable keys
      are done or still match their captured precondition. */
  lemma {:induction false} RunSucceedsIffRecoverable(s: StoreState, p: Plan)
    requires s.Valid() && p.Separated()
    ensures RunOps(s, p, Program(p)).error.None? <==> Recoverable(s, p)
  {
    hide Program, RunOps, Touches, FitsRole, Ready, Step;
    if Recoverable(s, p) {
      assert AllEnabled(Config(s, p, 0), []);
      CrashRecovery(s, p, []);
    }
    ProgramFitsRoles(p);
    ProgramOrder(p);
    if RunOps(s, p, Program(p)).error.None? {
      forall k | p.Has(k) ensures Ready(s, p, k) { SuccessNeedsReady(s, p, Program(p), k); }
    }
  }

  // ---- Visibility ----

  /** InRelease never shows the new release before its objects are there, and the pointer never
      shows the new generation before everything is. */
  ghost predicate Visible(s: StoreState, p: Plan) {
    && (Shows(s, p, p.inreleaseKey) ==> forall k :: k in p.immutable || k in p.before ==> Shows(s, p, k))
    && (Shows(s, p, p.stateKey) ==> forall k :: p.Has(k) ==> Shows(s, p, k))
  }

  /** The key holds the plan's object. */
  predicate Shows(s: StoreState, p: Plan, k: Key) { s.Holds(k, p.Wanted(k)) }

  /** Even in a store where later operations fail. */
  lemma {:induction false} StepKeepsVisibility(s: StoreState, p: Plan, earlier: seq<Op>, op: Op)
    requires p.Separated() && Visible(s, p) && Allowed(p, earlier, op) && Complete(s, p, earlier)
    requires Step(s, p, op).Ok?
    ensures Visible(Step(s, p, op).value, p)
  {
    hide Touches, Step, Visible;
    var t := Step(s, p, op).value;
    StepOnlyWrites(s, p, op);
    if t == s {
      return;
    }
    if op.key == p.inreleaseKey || op.key == p.stateKey {
      AllowedIsComplete(s, p, earlier, op);
    }
    VisibleAfterWrite(s, t, p, op.key);
  }

  lemma {:induction false} StepOnlyWrites(s: StoreState, p: Plan, op: Op)
    requires Step(s, p, op).Ok?
    ensures var t := Step(s, p, op).value;
            t == s || (op.kind != Verify && OnlyAt(s, t, op.key) && t.Holds(op.key, p.Wanted(op.key)))
  {
  }

  lemma {:induction false} AllowedIsComplete(s: StoreState, p: Plan, earlier: seq<Op>, op: Op)
    requires p.Separated() && Allowed(p, earlier, op) && Complete(s, p, earlier) && op.kind != Verify
    ensures op.key == p.inreleaseKey ==> forall k :: k in p.immutable || k in p.before ==> Shows(s, p, k)
    ensures op.key == p.stateKey ==> forall k :: p.Has(k) && k != p.stateKey ==> Shows(s, p, k)
  {
    hide Touches;
  }

  lemma {:induction false} VisibleAfterWrite(s: StoreState, t: StoreState, p: Plan, key: Key)
    requires p.Separated() && Visible(s, p) && OnlyAt(s, t, key) && Shows(t, p, key)
    requires key == p.inreleaseKey ==> forall k :: k in p.immutable || k in p.before ==> Shows(s, p, k)
    requires key == p.stateKey ==> forall k :: p.Has(k) && k != p.stateKey ==> Shows(s, p, k)
    ensures Visible(t, p)
  {
    hide Plan.Wanted;
    forall k | k != key ensures Shows(s, p, k) <==> Shows(t, p, k) {
      assert s.Get(k) == t.Get(k);
    }
    hide Shows;
  }

  /** Both visibility facts hold after every event of every run in which they held at the start. */
  lemma {:induction false} VisibilityInEveryRun(c: Config, es: seq<Event>)
    requires Inv(c) && Visible(c.store, c.plan) && AllEnabled(c, es)
    ensures Visible(After(c, es).store, After(c, es).plan)
    decreases |es|
  {
    hide Inv, Visible, Next;
    if es != [] {
      EventKeepsInv(c, es[0]);
      EventKeepsVisibility(c, es[0]);
      VisibilityInEveryRun(Next(c, es[0]), es[1..]);
    }
  }

  lemma {:induction false} EventKeepsVisibility(c: Config, e: Event)
    requires Inv(c) && Visible(c.store, c.plan) && Enabled(c, e)
    ensures Visible(Next(c, e).store, Next(c, e).plan)
  {
    hide Program, Complete, Recoverable, Step, Visible, Allowed, OnlyAt, Recaptured, SamePublication;
    hide Plan.Separated, Plan.Mutable, Plan.Has, StoreState.Valid;
    EventKeepsInv(c, e);
    match e {
      case Perform =>
        Touched(c.plan, c.done);
        PerformKeepsInv(c);
        StepKeepsVisibility(c.store, c.plan, Program(c.plan)[..c.done], Program(c.plan)[c.done]);
      case Crash =>
      case CrashAndReplan => SameVisibility(c.store, c.plan, Recaptured(c.store, c.plan));
      case Foreign(k, _) =>
        ForeignKeepsInv(c, e);
        ForeignKeepsVisibility(c.store, Next(c, e).store, c.plan, k);
    }
  }

  lemma {:induction false} SameVisibility(s: StoreState, p: Plan, q: Plan)
    requires Visible(s, p) && SamePublication(p, q)
    ensures Visible(s, q)
  {
    forall k ensures (q.Has(k) <==> p.Has(k)) && (Shows(s, q, k) <==> Shows(s, p, k)) {}
    hide Shows;
  }

  lemma {:induction false} ForeignKeepsVisibility(s: StoreState, t: StoreState, p: Plan, key: Key)
    requires Visible(s, p) && OnlyAt(s, t, key) && !p.Has(key)
    ensures Visible(t, p)
  {
    hide Plan.Wanted;
    forall k | p.Has(k) ensures Shows(s, p, k) <==> Shows(t, p, k) {
      assert s.Get(k) == t.Get(k);
    }
    hide Shows;
  }

  // ---- Several publishers ----

  function KeyOf(step: StoreStep): Key { step.k }

  /** The objects that puts on one key committed. */
  function Commits(s: StoreState, steps: seq<StoreStep>, k: Key): seq<Object>
    decreases |steps|
  {
    if steps == [] then []
    else
      (if steps[0].PutAt? && steps[0].k == k && Met(s, k, steps[0].c) then [steps[0].o] else [])
      + Commits(Store.After(s, steps[0]), steps[1..], k)
  }

  /** The store step of one operation of a publisher, as its own, possibly stale, read decides. */
  function Move(p: Plan, op: Op, readEqual: bool): Option<StoreStep> {
    match op.kind
    case Create => Some(CreateAt(op.key, p.Wanted(op.key)))
    case Replace => if readEqual then None else Some(PutAt(op.key, p.Wanted(op.key), p.Precondition(op.key)))
    case Verify => None
  }

  ghost predicate IsMoveOf(step: StoreStep, p: Plan, i: nat) {
    i < |Program(p)| && exists readEqual :: Move(p, Program(p)[i], readEqual) == Some(step)
  }

  /** Whatever touches the pointer is an operation of some plan that captured `c` for it. */
  ghost predicate FromPublishers(steps: seq<StoreStep>, k: Key, c: Condition) {
    forall n :: 0 <= n < |steps| && KeyOf(steps[n]) == k ==>
      exists p: Plan, i: nat ::
        p.Separated() && p.stateKey == k && p.Precondition(k) == c && IsMoveOf(steps[n], p, i)
  }

  lemma {:induction false} PublishersPutPointers(step: StoreStep, p: Plan, i: nat)
    requires p.Separated() && IsMoveOf(step, p, i) && step.k == p.stateKey
    ensures step == PutAt(p.stateKey, p.pointer, p.Precondition(p.stateKey))
  {
    hide Program;
    Touched(p, i);
  }

  ghost predicate OnlyPuts(steps: seq<StoreStep>, k: Key, c: Condition) {
    forall n :: 0 <= n < |steps| && KeyOf(steps[n]) == k ==> steps[n].PutAt? && steps[n].c == c
  }

  lemma {:induction false} NoFurtherCommit(s: StoreState, steps: seq<StoreStep>, k: Key, c: Condition)
    requires s.Valid() && OnlyPuts(steps, k, c)
    requires if c.IfAbsent? then k in s.objects else c.etag <= s.revision && !Met(s, k, c)
    ensures Commits(s, steps, k) == []
    decreases |steps|
  {
    if steps != [] {
      StepKeepsValid(s, steps[0]);
      assert KeyOf(steps[0]) == k ==> steps[0].PutAt?;
      forall n | 0 <= n < |steps[1..]| && KeyOf(steps[1..][n]) == k
        ensures steps[1..][n].PutAt? && steps[1..][n].c == c
      {
        assert steps[1..][n] == steps[n + 1];
      }
      NoFurtherCommit(Store.After(s, steps[0]), steps[1..], k, c);
    }
  }

  lemma {:induction false} OneCommit(s: StoreState, steps: seq<StoreStep>, k: Key, c: Condition)
    requires s.Valid() && OnlyPuts(steps, k, c) && (c.IfEtag? ==> c.etag <= s.revision)
    ensures |Commits(s, steps, k)| <= 1
    decreases |steps|
  {
    if steps != [] {
      StepKeepsValid(s, steps[0]);
      assert KeyOf(steps[0]) == k ==> steps[0].PutAt? && steps[0].c == c;
      forall n | 0 <= n < |steps[1..]| && KeyOf(steps[1..][n]) == k
        ensures steps[1..][n].PutAt? && steps[1..][n].c == c
      {
        assert steps[1..][n] == steps[n + 1];
      }
      if KeyOf(steps[0]) == k && Met(s, k, c) {
        NoFurtherCommit(Store.After(s, steps[0]), steps[1..], k, c);
      } else {
        OneCommit(Store.After(s, steps[0]), steps[1..], k, c);
      }
    }
  }

  /** Any number of publishers interleaved at single store requests, all planned on the same state
      etag, with any other client on other keys: at most one pointer is ever committed. */
  lemma {:induction false} OnePointerIsCommitted(s: StoreState, steps: seq<StoreStep>, k: Key, c: Condition)
    requires s.Valid() && (c.IfEtag? ==> c.etag <= s.revision) && FromPublishers(steps, k, c)
    ensures |Commits(s, steps, k)| <= 1
  {
    forall n | 0 <= n < |steps| && KeyOf(steps[n]) == k ensures steps[n].PutAt? && steps[n].c == c {
      var p: Plan, i: nat :|
        p.Separated() && p.stateKey == k && p.Precondition(k) == c && IsMoveOf(steps[n], p, i);
      PublishersPutPointers(steps[n], p, i);
    }
    OneCommit(s, steps, k, c);
  }
}
