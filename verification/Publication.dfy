/** The commit protocol: conditional writes in twelve phases, with crashes after any single write. */
module Publication {
  import opened Outcome
  import opened Keys
  import opened Store

  datatype Plan = Plan(
    immutable: map<Key, Object>,
    before: map<Key, Object>,
    inrelease: Object,
    pointer: Object,
    conveniences: map<Key, Object>,
    preconditions: map<Key, Option<Etag>>,
    transactionKey: Key,
    inreleaseKey: Key,
    stateKey: Key)
  {
    function Mutable(): set<Key> { before.Keys + {inreleaseKey, stateKey} + conveniences.Keys }

    predicate IsMutable(k: Key) { k in before || k == inreleaseKey || k == stateKey || k in conveniences }

    predicate Has(k: Key) { k in immutable || IsMutable(k) }

    /** The checks of the plan's constructor. */
    predicate Accepted() {
      && preconditions.Keys == Mutable()
      && |immutable.Keys + Mutable()| == |immutable| + |Mutable()|
      && transactionKey in immutable
    }

    /** What execution relies on: no key has two roles. */
    ghost predicate Separated() {
      && transactionKey in immutable && inreleaseKey != stateKey
      && (forall k :: k in preconditions <==> IsMutable(k))
      && (forall k :: k in immutable ==> !IsMutable(k))
      && (forall k :: k in before ==> k !in conveniences && k != inreleaseKey && k != stateKey)
      && forall k :: k in conveniences ==> k != inreleaseKey && k != stateKey
    }

    /** The object a key receives. */
    function Wanted(k: Key): Object {
      if k == stateKey then pointer
      else if k == inreleaseKey then inrelease
      else if k in before then before[k]
      else if k in conveniences then conveniences[k]
      else if k in immutable then immutable[k]
      else pointer
    }

    function Target(): map<Key, Object> { map k | k in immutable.Keys + Mutable() :: Wanted(k) }

    function Precondition(k: Key): Condition {
      if k in preconditions && preconditions[k].Some? then IfEtag(preconditions[k].value) else IfAbsent
    }
  }

  /** The constructor rejects exactly a missing precondition, an overlap of immutable and mutable
      keys, and a transaction record that is not immutable. */
  lemma {:induction false} AcceptedMeans(p: Plan)
    ensures p.Accepted() <==>
      p.preconditions.Keys == p.Mutable() && p.immutable.Keys !! p.Mutable() && p.transactionKey in p.immutable
  {
    UnionSize(p.immutable.Keys, p.Mutable());
  }

  /** Beyond that, execution needs the mutable roles to be disjoint. */
  lemma {:induction false} SeparatedMeans(p: Plan)
    ensures p.Separated() <==>
      && p.Accepted() && p.inreleaseKey != p.stateKey && p.before.Keys !! p.conveniences.Keys
      && {p.inreleaseKey, p.stateKey} !! p.before.Keys + p.conveniences.Keys
  {
    AcceptedMeans(p);
    hide Plan.Accepted;
    assert forall k :: k in p.Mutable() <==> p.IsMutable(k);
    assert p.preconditions.Keys == p.Mutable() <==> forall k :: k in p.preconditions <==> p.IsMutable(k);
  }

  lemma {:induction false} UnionSize(a: set<Key>, b: set<Key>)
    ensures |a + b| == |a| + |b| <==> a !! b
  {
    assert a + b == a + (b - a) && |a + (b - a)| == |a| + |b - a|;
    if a !! b {
      assert b - a == b;
    } else {
      var k :| k in a && k in b;
      assert b - a <= b - {k} && |b - {k}| == |b| - 1;
      SubsetIsSmaller(b - a, b - {k});
    }
  }

  /** The constructor alone lets one mutable key have two roles. */
  lemma {:induction false} AcceptedNeedNotSeparate(o: Object)
    ensures exists p: Plan :: p.Accepted() && !p.Separated()
  {
    var p := Plan(map["t" := o], map["m" := o], o, o, map["m" := o],
                  map["m" := None, "i" := None, "s" := None], "t", "i", "s");
    AcceptedMeans(p);
    assert "m" in p.before && "m" in p.conveniences;
  }

  // ---- The program of a plan ----

  datatype Kind = Create | Replace | Verify

  datatype Op = Op(kind: Kind, key: Key)

  function Each(kind: Kind, ks: seq<Key>): (ops: seq<Op>)
    ensures |ops| == |ks| && forall i :: 0 <= i < |ks| ==> ops[i] == Op(kind, ks[i])
  {
    seq(|ks|, i requires 0 <= i < |ks| => Op(kind, ks[i]))
  }

  /** Signatures go in front of the files they sign. */
  function ConvenienceOrder(ks: set<Key>): seq<Key> { Sorted(Signatures(ks)) + Sorted(ks - Signatures(ks)) }

  function Signatures(ks: set<Key>): set<Key> { set k | k in ks && EndsWith(k, ".asc") }

  /** Phases 1 to 4 lie before any storage access. */
  function PhaseOps(p: Plan, phase: nat): seq<Op> {
    if phase == 5 then Each(Create, [p.transactionKey])
    else if phase == 6 then Each(Create, Sorted(p.immutable.Keys - {p.transactionKey}))
    else if phase == 7 then Each(Replace, Sorted(p.before.Keys))
    else if phase == 8 then Each(Replace, [p.inreleaseKey])
    else if phase == 9 then
      Each(Verify, Sorted(p.immutable.Keys)) + Each(Verify, Sorted(p.before.Keys)) + Each(Verify, [p.inreleaseKey])
    else if phase == 10 then Each(Replace, ConvenienceOrder(p.conveniences.Keys))
    else if phase == 11 then Each(Replace, [p.stateKey])
    else if phase == 12 then
      Each(Verify, Sorted(p.before.Keys)) + Each(Verify, [p.inreleaseKey, p.stateKey])
      + Each(Verify, Sorted(p.conveniences.Keys))
    else []
  }

  function UpTo(p: Plan, phase: nat): seq<Op> {
    if phase == 0 then [] else UpTo(p, phase - 1) + PhaseOps(p, phase)
  }

  function Program(p: Plan): seq<Op> { UpTo(p, 12) }

  datatype PublicationError = Lost(error: StoreError) | VerificationFailed

  function Answer(r: Result<StoreState, StoreError>): Result<StoreState, PublicationError> {
    if r.Ok? then Ok(r.value) else Err(Lost(r.error))
  }

  function Step(s: StoreState, p: Plan, op: Op): Result<StoreState, PublicationError> {
    var o := p.Wanted(op.key);
    match op.kind
    case Create => Answer(CreateStep(s, op.key, o))
    case Replace => if s.Holds(op.key, o) then Ok(s) else Answer(PutStep(s, op.key, o, p.Precondition(op.key)))
    case Verify => if s.Holds(op.key, o) then Ok(s) else Err(VerificationFailed)
  }

  datatype Run = Run(state: StoreState, error: Option<PublicationError>)

  /** Operations in order up to the first error. */
  function RunOps(s: StoreState, p: Plan, ops: seq<Op>): Run
    decreases |ops|
  {
    if ops == [] then Run(s, None)
    else
      var r := Step(s, p, ops[0]);
      if r.Ok? then RunOps(r.value, p, ops[1..]) else Run(s, Some(r.error))
  }

  lemma {:induction false} RunAppended(s: StoreState, p: Plan, a: seq<Op>, b: seq<Op>)
    ensures RunOps(s, p, a + b) ==
            var r := RunOps(s, p, a); if r.error.Some? then r else RunOps(r.state, p, b)
    decreases |a|
  {
    hide Step;
    if a == [] {
      assert a + b == b;
    } else {
      assert (a + b)[1..] == a[1..] + b;
      var r := Step(s, p, a[0]);
      if r.Ok? { RunAppended(r.value, p, a[1..], b); }
    }
  }

  // ---- Execution ----

  datatype Failure = BadPhase | Injected(phase: int) | Stopped(error: PublicationError)

  class PublicationExecutor {
    const store: ConditionalObjectStore

    constructor (store: ConditionalObjectStore)
      ensures this.store == store
    {
      this.store := store;
    }

    method Perform(p: Plan, op: Op) returns (e: Option<PublicationError>)
      modifies store
      ensures var r := Step(old(store.State()), p, op);
              store.State() == (if r.Ok? then r.value else old(store.State()))
              && e == if r.Ok? then None else Some(r.error)
    {
      var o := p.Wanted(op.key);
      match op.kind {
        case Create =>
          var r := store.CreateImmutable(op.key, o);
          return if r.Ok? then None else Some(Lost(r.error));
        case Replace =>
          var current := store.Get(op.key);
          if current.Some? && current.value.content == o {
            return None;
          }
          var r := store.Put(op.key, o, p.Precondition(op.key));
          return if r.Ok? then None else Some(Lost(r.error));
        case Verify =>
          var current := store.Get(op.key);
          return if current.None? || current.value.content != o then Some(VerificationFailed) else None;
      }
    }

    method PerformAll(p: Plan, ops: seq<Op>) returns (e: Option<PublicationError>)
      modifies store
      ensures Run(store.State(), e) == RunOps(old(store.State()), p, ops)
    {
      hide Step;
      for i := 0 to |ops|
        invariant RunOps(old(store.State()), p, ops) == RunOps(store.State(), p, ops[i..])
      {
        ghost var now := store.State();
        e := Perform(p, ops[i]);
        assert ops[i..] != [] && ops[i..][0] == ops[i] && ops[i..][1..] == ops[i + 1..];
        if e.Some? {
          return;
        }
      }
      e := None;
    }

    /** The twelve phases; `failAfter` injects a failure behind one of them. */
    method Execute(p: Plan, failAfter: Option<int>) returns (failure: Option<Failure>)
      requires p.Separated()
      modifies store
      ensures failAfter.Some? && !(1 <= failAfter.value <= 12) ==>
        store.State() == old(store.State()) && failure == Some(BadPhase)
      ensures failAfter.None? || 1 <= failAfter.value <= 12 ==>
        var run := RunOps(old(store.State()), p, UpTo(p, if failAfter.Some? then failAfter.value else 12));
        && store.State() == run.state
        && failure == if run.error.Some? then Some(Stopped(run.error.value))
                      else if failAfter.Some? then Some(Injected(failAfter.value)) else None
    {
      hide PhaseOps, RunOps;
      if failAfter.Some? && !(1 <= failAfter.value <= 12) {
        return Some(BadPhase);
      }
      var last := if failAfter.Some? then failAfter.value else 12;
      NoOps(store.State(), p);
      for phase := 0 to last
        invariant Run(store.State(), None) == RunOps(old(store.State()), p, UpTo(p, phase))
      {
        RunAppended(old(store.State()), p, UpTo(p, phase), PhaseOps(p, phase + 1));
        var e := PerformAll(p, PhaseOps(p, phase + 1));
        if e.Some? {
          StopsHere(old(store.State()), p, phase + 1, last);
          return Some(Stopped(e.value));
        }
      }
      return if failAfter.Some? then Some(Injected(failAfter.value)) else None;
    }
  }

  lemma {:induction false} NoOps(s: StoreState, p: Plan)
    ensures RunOps(s, p, []) == Run(s, None) && UpTo(p, 0) == []
  {
  }

  lemma {:induction false} StopsHere(s: StoreState, p: Plan, phase: nat, last: nat)
    requires phase <= last && RunOps(s, p, UpTo(p, phase)).error.Some?
    ensures RunOps(s, p, UpTo(p, last)) == RunOps(s, p, UpTo(p, phase))
    decreases last
  {
    hide PhaseOps, RunOps;
    if phase < last {
      StopsHere(s, p, phase, last - 1);
      RunAppended(s, p, UpTo(p, last - 1), PhaseOps(p, last));
    }
  }

  // ---- Order of the program ----

  predicate Touches(ops: seq<Op>, k: Key) { exists i :: 0 <= i < |ops| && ops[i].key == k }

  /** What InRelease names, and InRelease itself, has been read back. */
  ghost predicate Certified(p: Plan, ops: seq<Op>) {
    forall k :: k in p.immutable || k in p.before || k == p.inreleaseKey ==> Op(Verify, k) in ops
  }

  predicate IsSignature(k: Key) { EndsWith(k, ".asc") }

  /** What must have been handled before an operation may come: the transaction record before anything,
      all immutable objects before any mutable one, all but the conveniences and the pointer before
      InRelease, and reading all that back before the conveniences, signatures first, and the pointer. */
  ghost predicate Allowed(p: Plan, earlier: seq<Op>, op: Op) {
    match op.kind
    case Create => op.key in p.immutable && (op.key == p.transactionKey || Touches(earlier, p.transactionKey))
    case Replace =>
      && p.IsMutable(op.key) && (forall k :: k in p.immutable ==> Touches(earlier, k))
      && (op.key == p.inreleaseKey ==> forall k :: k in p.before ==> Touches(earlier, k))
      && (op.key in p.conveniences || op.key == p.stateKey ==> Certified(p, earlier))
      && (op.key in p.conveniences && !IsSignature(op.key) ==>
            forall k :: k in p.conveniences && IsSignature(k) ==> Touches(earlier, k))
      && (op.key == p.stateKey ==> forall k :: p.Has(k) && k != p.stateKey ==> Touches(earlier, k))
    case Verify => Touches(earlier, op.key)
  }

  ghost predicate InOrder(p: Plan, earlier: seq<Op>, ops: seq<Op>) {
    forall i :: 0 <= i < |ops| ==> Allowed(p, earlier + ops[..i], ops[i])
  }

  lemma {:induction false} TouchesAppended(a: seq<Op>, b: seq<Op>, k: Key)
    ensures Touches(a + b, k) <==> Touches(a, k) || Touches(b, k)
  {
    if i :| 0 <= i < |a| && a[i].key == k {
      assert (a + b)[i].key == k;
    }
    if i :| 0 <= i < |b| && b[i].key == k {
      assert (a + b)[|a| + i].key == k;
    }
  }

  lemma {:induction false} TouchesEach(kind: Kind, ks: seq<Key>, k: Key)
    ensures Touches(Each(kind, ks), k) <==> k in ks
  {
    if i :| 0 <= i < |ks| && ks[i] == k {
      assert Each(kind, ks)[i].key == k;
    }
  }

  lemma {:induction false} AllowedLater(p: Plan, earlier: seq<Op>, more: seq<Op>, op: Op)
    requires Allowed(p, earlier, op)
    ensures Allowed(p, earlier + more, op)
  {
    hide Touches, IsSignature;
    forall k ensures Touches(earlier, k) ==> Touches(earlier + more, k) {
      TouchesAppended(earlier, more, k);
    }
    assert forall o :: o in earlier ==> o in earlier + more;
  }

  lemma {:induction false} InOrderAppended(p: Plan, earlier: seq<Op>, a: seq<Op>, b: seq<Op>)
    requires InOrder(p, earlier, a) && InOrder(p, earlier + a, b)
    ensures InOrder(p, earlier, a + b)
  {
    hide Allowed;
    forall i | 0 <= i < |a + b| ensures Allowed(p, earlier + (a + b)[..i], (a + b)[i]) {
      if i < |a| {
        assert (a + b)[..i] == a[..i];
      } else {
        assert earlier + (a + b)[..i] == earlier + a + b[..i - |a|];
      }
    }
  }

  lemma {:induction false} EachInOrder(p: Plan, earlier: seq<Op>, kind: Kind, ks: seq<Key>)
    requires forall k :: k in ks ==> Allowed(p, earlier, Op(kind, k))
    ensures InOrder(p, earlier, Each(kind, ks))
  {
    hide Allowed;
    var ops := Each(kind, ks);
    forall i | 0 <= i < |ops| ensures Allowed(p, earlier + ops[..i], ops[i]) {
      assert ks[i] in ks;
      AllowedLater(p, earlier, ops[..i], ops[i]);
    }
  }

  lemma {:induction false} EachHas(kind: Kind, ks: seq<Key>, k: Key)
    requires k in ks
    ensures Op(kind, k) in Each(kind, ks)
  {
    var i :| 0 <= i < |ks| && ks[i] == k;
    assert Each(kind, ks)[i] == Op(kind, k);
  }

  /** The keys handled once a phase is over. */
  predicate Handled(p: Plan, phase: nat, k: Key) {
    if phase < 5 then false
    else if phase == 5 then k == p.transactionKey
    else if phase == 6 then k in p.immutable
    else if phase == 7 then k in p.immutable || k in p.before
    else if phase < 10 then k in p.immutable || k in p.before || k == p.inreleaseKey
    else if phase == 10 then p.Has(k) && k != p.stateKey
    else p.Has(k)
  }

  ghost predicate HandlesExactly(p: Plan, ops: seq<Op>, phase: nat) {
    (forall k :: Touches(ops, k) <==> Handled(p, phase, k)) && (phase >= 9 ==> Certified(p, ops))
  }

  lemma {:induction false} HandlesNext(p: Plan, earlier: seq<Op>, phase: nat, kind: Kind, ks: seq<Key>)
    requires 1 <= phase && HandlesExactly(p, earlier, phase - 1)
    requires forall k :: Handled(p, phase, k) <==> Handled(p, phase - 1, k) || k in ks
    requires phase == 9 ==>
      kind == Verify && forall k :: k in p.immutable || k in p.before || k == p.inreleaseKey ==> k in ks
    ensures HandlesExactly(p, earlier + Each(kind, ks), phase)
  {
    hide Handled, Touches;
    forall k | k in ks ensures Op(kind, k) in Each(kind, ks) { EachHas(kind, ks, k); }
    assert forall o :: o in earlier || o in Each(kind, ks) ==> o in earlier + Each(kind, ks);
    forall k ensures Touches(earlier + Each(kind, ks), k) <==> Handled(p, phase, k) {
      TouchesAppended(earlier, Each(kind, ks), k);
      TouchesEach(kind, ks, k);
    }
  }

  lemma {:induction false} WritePhase(p: Plan, earlier: seq<Op>, phase: nat, kind: Kind, ks: seq<Key>)
    requires 1 <= phase && HandlesExactly(p, earlier, phase - 1)
    requires forall k :: Handled(p, phase, k) <==> Handled(p, phase - 1, k) || k in ks
    requires forall k :: k in ks ==> Allowed(p, earlier, Op(kind, k))
    requires phase == 9 ==>
      kind == Verify && forall k :: k in p.immutable || k in p.before || k == p.inreleaseKey ==> k in ks
    ensures InOrder(p, earlier, Each(kind, ks)) && HandlesExactly(p, earlier + Each(kind, ks), phase)
  {
    hide Allowed, Handled, HandlesExactly, InOrder;
    EachInOrder(p, earlier, kind, ks);
    HandlesNext(p, earlier, phase, kind, ks);
  }

  lemma {:induction false} EarlyPhase(p: Plan, earlier: seq<Op>, phase: nat)
    requires p.Separated() && 5 <= phase <= 7 && HandlesExactly(p, earlier, phase - 1)
    ensures InOrder(p, earlier, PhaseOps(p, phase)) && HandlesExactly(p, earlier + PhaseOps(p, phase), phase)
  {
    hide Touches, InOrder;
    var rest := Sorted(p.immutable.Keys - {p.transactionKey});
    if phase == 5 {
      WritePhase(p, earlier, phase, Create, [p.transactionKey]);
    } else if phase == 6 {
      WritePhase(p, earlier, phase, Create, rest);
    } else {
      WritePhase(p, earlier, phase, Replace, Sorted(p.before.Keys));
    }
  }

  lemma {:induction false} CommitPhase(p: Plan, earlier: seq<Op>)
    requires p.Separated() && HandlesExactly(p, earlier, 7)
    ensures InOrder(p, earlier, PhaseOps(p, 8)) && HandlesExactly(p, earlier + PhaseOps(p, 8), 8)
  {
    hide Touches, InOrder;
    WritePhase(p, earlier, 8, Replace, [p.inreleaseKey]);
  }

  lemma {:induction false} ConveniencePhase(p: Plan, earlier: seq<Op>)
    requires p.Separated() && HandlesExactly(p, earlier, 9)
    ensures InOrder(p, earlier, PhaseOps(p, 10)) && HandlesExactly(p, earlier + PhaseOps(p, 10), 10)
  {
    hide *;
    var ks := p.conveniences.Keys;
    var first, second := Sorted(Signatures(ks)), Sorted(ks - Signatures(ks));
    ConveniencesAre(p, first, second);
    SignaturesInOrder(p, earlier, first, second);
    HandlesNext(p, earlier, 10, Replace, first + second);
  }

  lemma {:induction false} ConveniencesAre(p: Plan, first: seq<Key>, second: seq<Key>)
    requires p.Separated()
    requires first == Sorted(Signatures(p.conveniences.Keys))
    requires second == Sorted(p.conveniences.Keys - Signatures(p.conveniences.Keys))
    ensures forall k :: k in first <==> k in p.conveniences && IsSignature(k)
    ensures forall k :: k in second <==> k in p.conveniences && !IsSignature(k)
    ensures forall k :: Handled(p, 10, k) <==> Handled(p, 9, k) || k in first + second
    ensures PhaseOps(p, 10) == Each(Replace, first) + Each(Replace, second) == Each(Replace, first + second)
  {
    hide EndsWith;
    assert Each(Replace, first + second) == Each(Replace, first) + Each(Replace, second);
    assert forall k :: k in first + second <==> k in first || k in second;
  }

  lemma {:induction false} SignaturesInOrder(p: Plan, earlier: seq<Op>, first: seq<Key>, second: seq<Key>)
    requires p.Separated() && HandlesExactly(p, earlier, 9)
    requires (forall k :: k in first <==> k in p.conveniences && IsSignature(k))
    requires (forall k :: k in second <==> k in p.conveniences && !IsSignature(k))
    ensures InOrder(p, earlier, Each(Replace, first) + Each(Replace, second))
  {
    hide Touches, InOrder, IsSignature;
    var signed := earlier + Each(Replace, first);
    EachInOrder(p, earlier, Replace, first);
    forall k ensures Touches(signed, k) <==> Touches(earlier, k) || k in first {
      TouchesAppended(earlier, Each(Replace, first), k);
      TouchesEach(Replace, first, k);
    }
    assert forall o :: o in earlier ==> o in signed;
    EachInOrder(p, signed, Replace, second);
    InOrderAppended(p, earlier, Each(Replace, first), Each(Replace, second));
  }

  lemma {:induction false} PointerPhase(p: Plan, earlier: seq<Op>)
    requires p.Separated() && HandlesExactly(p, earlier, 10)
    ensures InOrder(p, earlier, PhaseOps(p, 11)) && HandlesExactly(p, earlier + PhaseOps(p, 11), 11)
  {
    hide Touches, InOrder;
    WritePhase(p, earlier, 11, Replace, [p.stateKey]);
  }

  lemma {:induction false} VerifyPhase(p: Plan, earlier: seq<Op>, phase: nat, a: seq<Key>, b: seq<Key>, c: seq<Key>)
    requires phase in {9, 12} && HandlesExactly(p, earlier, phase - 1)
    requires forall k :: k in a || k in b || k in c ==> Handled(p, phase, k)
    requires phase == 9 ==> forall k :: k in p.immutable || k in p.before || k == p.inreleaseKey ==> k in a || k in b || k in c
    ensures var ops := Each(Verify, a) + Each(Verify, b) + Each(Verify, c);
            InOrder(p, earlier, ops) && HandlesExactly(p, earlier + ops, phase)
  {
    hide Touches, InOrder;
    var ks := a + b + c;
    assert forall k :: k in ks <==> k in a || k in b || k in c;
    assert Each(Verify, ks) == Each(Verify, a) + Each(Verify, b) + Each(Verify, c);
    WritePhase(p, earlier, phase, Verify, ks);
  }

  lemma {:induction false} PhaseInOrder(p: Plan, earlier: seq<Op>, phase: nat)
    requires p.Separated() && 1 <= phase <= 12 && HandlesExactly(p, earlier, phase - 1)
    ensures InOrder(p, earlier, PhaseOps(p, phase)) && HandlesExactly(p, earlier + PhaseOps(p, phase), phase)
  {
    hide Touches, InOrder, HandlesExactly;
    if phase < 5 {
      WritePhase(p, earlier, phase, Verify, []);
      assert Each(Verify, []) == [];
    } else if phase <= 7 {
      EarlyPhase(p, earlier, phase);
    } else if phase == 9 {
      VerifyPhase(p, earlier, phase, Sorted(p.immutable.Keys), Sorted(p.before.Keys), [p.inreleaseKey]);
    } else if phase == 12 {
      VerifyPhase(p, earlier, phase, Sorted(p.before.Keys), [p.inreleaseKey, p.stateKey], Sorted(p.conveniences.Keys));
    } else if phase == 8 {
      CommitPhase(p, earlier);
    } else if phase == 10 {
      ConveniencePhase(p, earlier);
    } else {
      PointerPhase(p, earlier);
    }
  }

  lemma {:induction false} UpToInOrder(p: Plan, phase: nat)
    requires p.Separated() && phase <= 12
    ensures InOrder(p, [], UpTo(p, phase)) && HandlesExactly(p, UpTo(p, phase), phase)
  {
    hide InOrder, PhaseOps, Touches;
    if phase == 0 {
      NothingInOrder(p);
    } else {
      UpToInOrder(p, phase - 1);
      PhaseInOrder(p, UpTo(p, phase - 1), phase);
      assert [] + UpTo(p, phase - 1) == UpTo(p, phase - 1);
      InOrderAppended(p, [], UpTo(p, phase - 1), PhaseOps(p, phase));
    }
  }

  lemma {:induction false} NothingInOrder(p: Plan)
    ensures InOrder(p, [], []) && HandlesExactly(p, [], 0)
  {
  }

  /** Every operation comes only after what has to come before it; only what was written is verified, and
      every key is handled. */
  lemma {:induction false} ProgramOrder(p: Plan)
    requires p.Separated()
    ensures forall i :: 0 <= i < |Program(p)| ==> Allowed(p, Program(p)[..i], Program(p)[i])
    ensures forall k :: Touches(Program(p), k) <==> p.Has(k)
  {
    hide Allowed, UpTo, Touches;
    UpToInOrder(p, 12);
    forall i | 0 <= i < |Program(p)| ensures Allowed(p, Program(p)[..i], Program(p)[i]) {
      assert [] + Program(p)[..i] == Program(p)[..i];
    }
  }

  /** The pointer is followed by nothing but reading back every mutable key, itself included. */
  lemma {:induction false} PointerIsReadBack(p: Plan) returns (before: seq<Op>, after: seq<Op>)
    ensures Program(p) == before + [Op(Replace, p.stateKey)] + after
    ensures forall op :: op in after ==> op.kind == Verify
    ensures forall k :: p.IsMutable(k) ==> Op(Verify, k) in after
  {
    hide PhaseOps;
    before, after := UpTo(p, 10), PhaseOps(p, 12);
    LastPhases(p);
    forall k | p.IsMutable(k) ensures Op(Verify, k) in after { ReadBack(p, k); }
  }

  lemma {:induction false} LastPhases(p: Plan)
    ensures PhaseOps(p, 11) == [Op(Replace, p.stateKey)]
    ensures UpTo(p, 12) == UpTo(p, 10) + PhaseOps(p, 11) + PhaseOps(p, 12)
    ensures forall op :: op in PhaseOps(p, 12) ==> op.kind == Verify
  {
    hide *;
    LastOps(p);
    NextPhase(p, 10);
    NextPhase(p, 11);
  }

  lemma {:induction false} LastOps(p: Plan)
    ensures PhaseOps(p, 11) == [Op(Replace, p.stateKey)]
    ensures forall op :: op in PhaseOps(p, 12) ==> op.kind == Verify
  {
  }

  lemma {:induction false} NextPhase(p: Plan, phase: nat)
    ensures UpTo(p, phase + 1) == UpTo(p, phase) + PhaseOps(p, phase + 1)
  {
    hide PhaseOps;
  }

  lemma {:induction false} ReadBack(p: Plan, k: Key)
    requires p.IsMutable(k)
    ensures Op(Verify, k) in PhaseOps(p, 12)
  {
    if k in p.before {
      EachHas(Verify, Sorted(p.before.Keys), k);
    } else if k in p.conveniences {
      EachHas(Verify, Sorted(p.conveniences.Keys), k);
    } else {
      EachHas(Verify, [p.inreleaseKey, p.stateKey], k);
    }
  }
}
