/** Turning one verified repository inventory into a conditional write plan. */
module PublicationPlanning {
  import opened Outcome
  import opened Keys
  import opened Store
  import opened Publication
  import opened PublicationRuns

  datatype RepositoryObject = RepositoryObject(key: Key, size: nat, content: Object)

  datatype PlanError =
    | BadLimit | TooLarge | Repeated | MissingRequired | NotOneTransaction | Unsigned | ImmutableElsewhere | Rejected

  const InReleaseKey: Key := "dists/trixie/InRelease"
  const StateKey: Key := "state/current.asc"

  function Conveniences(): set<Key> { {"manifest.json", "manifest.json.asc", "SHA256SUMS", "SHA256SUMS.asc"} }

  predicate Required(k: Key) { k == InReleaseKey || k == StateKey || k in Conveniences() }

  predicate IsImmutable(o: Object) { EndsWith(o.metadata.cacheControl, "immutable") }

  predicate ImmutableMayLie(k: Key) {
    StartsWith(k, "pool/") || Contains(k, "/by-hash/SHA256/")
    || StartsWith(k, "state/publications/") || StartsWith(k, "state/transactions/")
  }

  predicate IsTransaction(k: Key) { StartsWith(k, "state/transactions/") && EndsWith(k, "/record.json") }

  /** A repository needs six objects by name. Immutable objects lie in the pool, under their digest, or
      among publications and transactions; a transaction record lies under the name of its transaction. */
  lemma {:induction false} KeysByRole(k: Key, name: string)
    ensures Required(k) <==> k in ["dists/trixie/InRelease", "state/current.asc", "manifest.json", "manifest.json.asc",
                                   "SHA256SUMS", "SHA256SUMS.asc"]
    ensures ImmutableMayLie(k) <==>
      || (exists n: string :: k == "pool/" + n || k == "state/publications/" + n || k == "state/transactions/" + n)
      || (exists a: string, b: string :: k == a + "/by-hash/SHA256/" + b)
    ensures IsTransaction("state/transactions/" + name + "/record.json")
    ensures IsTransaction(k) ==>
      k == "state/transactions/record.json" || exists n: string :: k == "state/transactions/" + n + "/record.json"
  {
    hide *;
    RequiredAre(k);
    ImmutableLie(k);
    RecordIsTransaction(name);
    if IsTransaction(k) { TransactionIsNamed(k); }
  }

  lemma {:induction false} RequiredAre(k: Key)
    ensures Required(k) <==> k in ["dists/trixie/InRelease", "state/current.asc", "manifest.json", "manifest.json.asc",
                                   "SHA256SUMS", "SHA256SUMS.asc"]
  {
  }

  lemma {:induction false} ImmutableLie(k: Key)
    ensures ImmutableMayLie(k) <==>
      || (exists n: string :: k == "pool/" + n || k == "state/publications/" + n || k == "state/transactions/" + n)
      || (exists a: string, b: string :: k == a + "/by-hash/SHA256/" + b)
  {
    ContainsMeans(k, "/by-hash/SHA256/");
    hide Contains;
    if StartsWith(k, "pool/") { assert k == "pool/" + k[5..]; }
    if StartsWith(k, "state/publications/") { assert k == "state/publications/" + k[19..]; }
    if StartsWith(k, "state/transactions/") { assert k == "state/transactions/" + k[19..]; }
  }

  lemma {:induction false} RecordIsTransaction(name: string)
    ensures IsTransaction("state/transactions/" + name + "/record.json")
  {
    var t := "state/transactions/" + name + "/record.json";
    assert t == "state/transactions/" + (name + "/record.json");
    assert t[|t| - 12..] == "/record.json";
  }

  lemma {:induction false} TransactionIsNamed(k: Key)
    requires IsTransaction(k)
    ensures k == "state/transactions/record.json" || exists n: string :: k == "state/transactions/" + n + "/record.json"
  {
    if |k| >= 31 {
      TransactionHasId(k);
    } else {
      SlashIsShared(k);
    }
  }

  lemma {:induction false} TransactionHasId(k: Key)
    requires IsTransaction(k) && |k| >= 31
    ensures k == "state/transactions/" + k[19..|k| - 12] + "/record.json"
  {
    assert k == k[..19] + k[19..|k| - 12] + k[|k| - 12..];
  }

  /** Prefix and suffix can share the slash. */
  lemma {:induction false} SlashIsShared(k: Key)
    requires IsTransaction(k) && |k| < 31
    ensures k == "state/transactions/record.json"
  {
    var head, tail := "state/transactions/", "/record.json";
    assert tail == k[|k| - 12..] && head == k[..19];
    assert head[|k| - 12] == k[|k| - 12] == tail[0];
    assert |k| == 30;
    assert k == k[..19] + k[19..] && k[19..] == k[18..][1..];
    assert head + tail[1..] == "state/transactions/record.json";
  }

  /** The objects of an inventory. */
  function Objects(inventory: seq<RepositoryObject>): map<Key, Object> {
    if inventory == [] then map[]
    else
      var last := inventory[|inventory| - 1];
      Objects(inventory[..|inventory| - 1])[last.key := last.content]
  }

  predicate Fits(inventory: seq<RepositoryObject>, maxBytes: int) {
    && (forall i :: 0 <= i < |inventory| ==> inventory[i].size <= maxBytes)
    && forall i, j :: 0 <= i < j < |inventory| ==> inventory[i].key != inventory[j].key
  }

  predicate IsOnlyTransaction(objects: map<Key, Object>, k: Key) {
    k in objects && IsTransaction(k) && forall l :: l in objects && IsTransaction(l) ==> l == k
  }

  predicate SignedTransaction(objects: map<Key, Object>, k: Key) {
    IsOnlyTransaction(objects, k) && k + ".asc" in objects && IsImmutable(objects[k])
  }

  /** Which inventories become a plan. */
  ghost predicate Plannable(inventory: seq<RepositoryObject>, maxBytes: int) {
    var objects := Objects(inventory);
    && maxBytes >= 1 && Fits(inventory, maxBytes)
    && (forall k :: Required(k) ==> k in objects)
    && (exists t :: SignedTransaction(objects, t))
    && forall k :: k in objects && !Required(k) && IsImmutable(objects[k]) ==> ImmutableMayLie(k)
  }

  /** How the objects are split: by name first, then by their caching. */
  ghost predicate Splits(objects: map<Key, Object>, p: Plan) {
    && p.inreleaseKey == InReleaseKey && p.stateKey == StateKey
    && InReleaseKey in objects && p.inrelease == objects[InReleaseKey]
    && StateKey in objects && p.pointer == objects[StateKey]
    && (forall k :: k in p.conveniences <==> k in Conveniences())
    && (forall k :: k in p.conveniences ==> k in objects && p.conveniences[k] == objects[k])
    && IsRestOf(objects, p.immutable, true) && IsRestOf(objects, p.before, false)
  }

  ghost predicate IsRestOf(objects: map<Key, Object>, part: map<Key, Object>, immutable: bool) {
    && (forall k :: k in part <==> k in objects && !Required(k) && IsImmutable(objects[k]) == immutable)
    && forall k :: k in part ==> part[k] == objects[k]
  }

  lemma {:induction false} CollectStep(inventory: seq<RepositoryObject>, n: nat, maxBytes: int)
    requires n < |inventory| && Fits(inventory[..n], maxBytes)
    ensures Objects(inventory[..n + 1]) == Objects(inventory[..n])[inventory[n].key := inventory[n].content]
    ensures Fits(inventory[..n + 1], maxBytes) <==>
            inventory[n].size <= maxBytes && inventory[n].key !in Objects(inventory[..n])
    ensures Fits(inventory, maxBytes) ==> Fits(inventory[..n + 1], maxBytes)
  {
    hide Objects;
    var before, upTo := inventory[..n], inventory[..n + 1];
    assert upTo[..n] == before && upTo[n] == inventory[n];
    forall i | 0 <= i < n ensures upTo[i] == before[i] {}
    ObjectsKeys(before, inventory[n].key);
    ObjectsStep(upTo);
  }

  lemma {:induction false} ObjectsStep(inventory: seq<RepositoryObject>)
    requires inventory != []
    ensures var n := |inventory| - 1;
            Objects(inventory) == Objects(inventory[..n])[inventory[n].key := inventory[n].content]
  {
  }

  lemma {:induction false} ObjectsKeys(inventory: seq<RepositoryObject>, k: Key)
    ensures k in Objects(inventory) <==> exists i :: 0 <= i < |inventory| && inventory[i].key == k
  {
    if inventory != [] {
      var n := |inventory| - 1;
      var rest := inventory[..n];
      ObjectsKeys(rest, k);
      if i :| 0 <= i < |rest| && rest[i].key == k { assert inventory[i].key == k; }
      if i :| 0 <= i < |inventory| && inventory[i].key == k && i < n { assert rest[i].key == k; }
    }
  }

  method Collect(inventory: seq<RepositoryObject>, maxBytes: int) returns (r: Result<map<Key, Object>, PlanError>)
    ensures r.Ok? <==> Fits(inventory, maxBytes)
    ensures r.Ok? ==> r.value == Objects(inventory)
    ensures r.Err? ==> r.error == TooLarge || r.error == Repeated
  {
    hide *;
    var objects: map<Key, Object> := map[];
    NothingCollected(maxBytes);
    assert inventory[..0] == [];
    for i := 0 to |inventory|
      invariant Fits(inventory[..i], maxBytes) && objects == Objects(inventory[..i])
    {
      var item := inventory[i];
      CollectStep(inventory, i, maxBytes);
      if item.size > maxBytes {
        return Err(TooLarge);
      }
      if item.key in objects {
        return Err(Repeated);
      }
      objects := objects[item.key := item.content];
    }
    assert inventory[..|inventory|] == inventory;
    return Ok(objects);
  }

  lemma {:induction false} NothingCollected(maxBytes: int)
    ensures Fits([], maxBytes) && Objects([]) == map[]
  {
  }

  ghost predicate SplitSoFar(objects: map<Key, Object>, ks: seq<Key>, part: map<Key, Object>, immutable: bool) {
    && (forall k :: k in part <==> k in ks && k in objects && !Required(k) && IsImmutable(objects[k]) == immutable)
    && forall k :: k in part ==> part[k] == objects[k]
  }

  lemma {:induction false} SplitNext(objects: map<Key, Object>, ks: seq<Key>, k: Key, part: map<Key, Object>, immutable: bool)
    requires k in objects && SplitSoFar(objects, ks, part, immutable)
    ensures SplitSoFar(objects, ks + [k],
                       if !Required(k) && IsImmutable(objects[k]) == immutable then part[k := objects[k]] else part, immutable)
  {
    hide Required, IsImmutable;
  }

  method Split(objects: map<Key, Object>) returns (immutable: map<Key, Object>, mutable: map<Key, Object>)
    ensures IsRestOf(objects, immutable, true) && IsRestOf(objects, mutable, false)
  {
    hide Required, IsImmutable;
    immutable, mutable := map[], map[];
    var ks := Sorted(objects.Keys);
    for i := 0 to |ks|
      invariant SplitSoFar(objects, ks[..i], immutable, true) && SplitSoFar(objects, ks[..i], mutable, false)
    {
      var k := ks[i];
      assert k in ks && ks[..i + 1] == ks[..i] + [k];
      SplitNext(objects, ks[..i], k, immutable, true);
      SplitNext(objects, ks[..i], k, mutable, false);
      if !Required(k) {
        if IsImmutable(objects[k]) {
          immutable := immutable[k := objects[k]];
        } else {
          mutable := mutable[k := objects[k]];
        }
      }
    }
    assert ks[..|ks|] == ks;
  }

  function Captured(s: StoreState, keys: set<Key>): map<Key, Option<Etag>> {
    map k | k in keys :: if k in s.objects then Some(s.objects[k].etag) else None
  }

  /** The etag of every key as the store has it now. */
  method Capture(store: ConditionalObjectStore, keys: set<Key>) returns (preconditions: map<Key, Option<Etag>>)
    ensures preconditions == Captured(store.State(), keys)
  {
    preconditions := map[];
    var ks := Sorted(keys);
    for i := 0 to |ks|
      invariant preconditions == Captured(store.State(), Elements(ks[..i]))
    {
      var current := store.Get(ks[i]);
      preconditions := preconditions[ks[i] := if current.None? then None else Some(current.value.etag)];
      CapturedNext(store.State(), ks, i);
    }
    assert Elements(ks[..|ks|]) == keys;
  }

  function Elements(ks: seq<Key>): set<Key> { set k | k in ks }

  lemma {:induction false} CapturedNext(s: StoreState, ks: seq<Key>, i: nat)
    requires i < |ks|
    ensures Captured(s, Elements(ks[..i + 1]))
         == Captured(s, Elements(ks[..i]))[ks[i] := if s.Get(ks[i]).None? then None else Some(s.Get(ks[i]).value.etag)]
  {
    assert ks[..i + 1] == ks[..i] + [ks[i]];
    assert Elements(ks[..i + 1]) == Elements(ks[..i]) + {ks[i]};
  }

  method PlanRepository(inventory: seq<RepositoryObject>, store: ConditionalObjectStore, maxBytes: int)
    returns (r: Result<Plan, PlanError>)
    ensures r.Ok? <==> Plannable(inventory, maxBytes)
    ensures r.Ok? ==>
      && r.value.Separated() && Splits(Objects(inventory), r.value)
      && IsOnlyTransaction(Objects(inventory), r.value.transactionKey)
      && r.value == Recaptured(store.State(), r.value)
  {
    hide *;
    PlannableNeeds(inventory, maxBytes);
    if maxBytes < 1 {
      return Err(BadLimit);
    }
    var collected := Collect(inventory, maxBytes);
    if collected.Err? {
      return Err(collected.error);
    }
    var objects := collected.value;
    if InReleaseKey !in objects || StateKey !in objects || exists k :: k in Conveniences() && k !in objects {
      RequiredKeys();
      return Err(MissingRequired);
    }
    RequiredKeys();
    var records := Sorted(set k | k in objects && IsTransaction(k));
    OnlyOneRecord(objects, records);
    if |records| != 1 {
      return Err(NotOneTransaction);
    }
    var transaction := records[0];
    if transaction + ".asc" !in objects {
      UnsignedIsNotPlannable(inventory, maxBytes, transaction);
      return Err(Unsigned);
    }
    var immutable, mutable := Split(objects);
    var conveniences := map k | k in Conveniences() && k in objects :: objects[k];
    var plan := Plan(immutable, mutable, objects[InReleaseKey], objects[StateKey], conveniences, map[], transaction,
                     InReleaseKey, StateKey);
    SplitIsComplete(objects, plan);
    PlannableMeans(inventory, maxBytes, objects, plan);
    if exists k :: k in immutable && !ImmutableMayLie(k) {
      return Err(ImmutableElsewhere);
    }
    var preconditions := Capture(store, plan.Mutable());
    CapturedIsRecaptured(store.State(), plan);
    plan := plan.(preconditions := preconditions);
    SplitIsComplete(objects, plan);
    PlanIsSeparated(objects, plan);
    if !plan.Accepted() {
      return Err(Rejected);
    }
    return Ok(plan);
  }

  lemma {:induction false} PlannableNeeds(inventory: seq<RepositoryObject>, maxBytes: int)
    ensures Plannable(inventory, maxBytes) ==>
      && maxBytes >= 1 && Fits(inventory, maxBytes)
      && (forall k :: Required(k) ==> k in Objects(inventory))
      && exists t :: IsOnlyTransaction(Objects(inventory), t)
  {
    hide Objects, Fits, IsOnlyTransaction, Required, IsImmutable, ImmutableMayLie;
    if Plannable(inventory, maxBytes) {
      var t :| SignedTransaction(Objects(inventory), t);
      assert IsOnlyTransaction(Objects(inventory), t);
    }
  }

  lemma {:induction false} RequiredKeys()
    ensures forall k :: Required(k) <==> k == InReleaseKey || k == StateKey || k in Conveniences()
  {
  }

  lemma {:induction false} OnlyTransactionIsUnique(objects: map<Key, Object>, t: Key, u: Key)
    requires IsOnlyTransaction(objects, t) && IsOnlyTransaction(objects, u)
    ensures t == u
  {
  }

  lemma {:induction false} UnsignedIsNotPlannable(inventory: seq<RepositoryObject>, maxBytes: int, t: Key)
    requires IsOnlyTransaction(Objects(inventory), t) && t + ".asc" !in Objects(inventory)
    ensures !Plannable(inventory, maxBytes)
  {
    hide Objects, Fits, IsOnlyTransaction, Required, IsImmutable, ImmutableMayLie;
    forall u | SignedTransaction(Objects(inventory), u) ensures u == t {
      OnlyTransactionIsUnique(Objects(inventory), t, u);
    }
  }

  lemma {:induction false} SplitIsComplete(objects: map<Key, Object>, p: Plan)
    requires p.inreleaseKey == InReleaseKey && p.stateKey == StateKey
    requires InReleaseKey in objects && p.inrelease == objects[InReleaseKey]
    requires StateKey in objects && p.pointer == objects[StateKey]
    requires forall k :: k in Conveniences() ==> k in objects
    requires p.conveniences == map k | k in Conveniences() && k in objects :: objects[k]
    requires IsRestOf(objects, p.immutable, true) && IsRestOf(objects, p.before, false)
    ensures Splits(objects, p)
  {
    hide IsRestOf;
  }

  lemma {:induction false} PlannableMeans(inventory: seq<RepositoryObject>, maxBytes: int, objects: map<Key, Object>, p: Plan)
    requires maxBytes >= 1 && Fits(inventory, maxBytes) && objects == Objects(inventory)
    requires (forall k :: Required(k) ==> k in objects) && Splits(objects, p)
    requires IsOnlyTransaction(objects, p.transactionKey) && p.transactionKey + ".asc" in objects
    ensures Plannable(inventory, maxBytes) <==>
      p.transactionKey in p.immutable && forall k :: k in p.immutable ==> ImmutableMayLie(k)
  {
    hide Objects, Fits, IsTransaction, Required, IsImmutable, ImmutableMayLie;
    var t := p.transactionKey;
    TransactionIsOrdinary(t);
    forall u | SignedTransaction(objects, u) ensures u == t {
      OnlyTransactionIsUnique(objects, t, u);
    }
    assert SignedTransaction(objects, t) <==> t in p.immutable;
  }

  lemma {:induction false} CapturedIsRecaptured(s: StoreState, p: Plan)
    ensures var q := p.(preconditions := Captured(s, p.Mutable()));
            q == Recaptured(s, q) && q.preconditions.Keys == q.Mutable()
  {
  }

  lemma {:induction false} OnlyOneRecord(objects: map<Key, Object>, records: seq<Key>)
    requires Lists(records, set k | k in objects && IsTransaction(k))
    ensures |records| == 1 ==> IsOnlyTransaction(objects, records[0])
    ensures |records| != 1 ==> forall t :: !IsOnlyTransaction(objects, t)
  {
    hide IsTransaction;
    if |records| > 1 {
      assert records[0] in records && records[1] in records && records[0] != records[1];
    } else if |records| == 1 {
      assert records[0] in records;
      forall l | l in objects && IsTransaction(l) ensures l == records[0] {
        assert l in records;
      }
    } else {
      forall t ensures !IsOnlyTransaction(objects, t) {
        assert t !in records;
      }
    }
  }

  /** A transaction record is none of the objects with a fixed name. */
  lemma {:induction false} TransactionIsOrdinary(k: Key)
    ensures IsTransaction(k) ==> !Required(k)
  {
    if IsTransaction(k) {
      assert k[..19] == "state/transactions/" && k[0] == 's' && k[6] == 't';
    }
  }

  lemma {:induction false} PlanIsSeparated(objects: map<Key, Object>, p: Plan)
    requires Splits(objects, p) && p.preconditions.Keys == p.Mutable()
    ensures p.Accepted() <==> p.transactionKey in p.immutable
    ensures p.Accepted() ==> p.Separated()
  {
    AcceptedMeans(p);
    SeparatedMeans(p);
    PartsAreDisjoint(objects, p);
  }

  lemma {:induction false} PartsAreDisjoint(objects: map<Key, Object>, p: Plan)
    requires Splits(objects, p)
    ensures p.immutable.Keys !! p.Mutable() && p.inreleaseKey != p.stateKey
    ensures p.before.Keys !! p.conveniences.Keys && {p.inreleaseKey, p.stateKey} !! p.before.Keys + p.conveniences.Keys
  {
    hide IsImmutable;
    RequiredKeys();
    NamedKeysDiffer();
    hide Required, Conveniences;
    forall k | k in p.immutable ensures !p.IsMutable(k) {}
  }

  lemma {:induction false} NamedKeysDiffer()
    ensures InReleaseKey !in Conveniences() && StateKey !in Conveniences() && InReleaseKey != StateKey
  {
  }

  /** A fresh plan writes exactly the inventory. */
  lemma {:induction false} PlanWritesInventory(objects: map<Key, Object>, p: Plan)
    requires Splits(objects, p)
    ensures p.Target() == objects
  {
    forall k ensures k in p.Target() <==> k in objects {
      assert Required(k) <==> k == InReleaseKey || k == StateKey || k in p.conveniences;
    }
    forall k | k in objects ensures p.Target()[k] == objects[k] {
      assert k in p.Target();
    }
  }

  /** It can be carried out, crashes included, exactly when no immutable key holds other bytes. */
  lemma {:induction false} FreshPlanIsRecoverable(s: StoreState, p: Plan)
    requires p.Separated() && p == Recaptured(s, p)
    ensures Recoverable(s, p) <==> forall k :: k in p.immutable ==> k !in s.objects || s.Holds(k, p.immutable[k])
  {
    hide *;
    RecoverableMeans(s, p);
    forall k | p.Has(k)
      ensures Ready(s, p, k) <==> (k in p.immutable ==> k !in s.objects || s.Holds(k, p.immutable[k]))
    {
      if k in p.immutable { ImmutableIsReady(s, p, k); } else { CapturedIsReady(s, p, k); }
    }
    ImmutableIsPlanned(p);
  }

  lemma {:induction false} RecoverableMeans(s: StoreState, p: Plan)
    ensures Recoverable(s, p) <==> forall k :: p.Has(k) ==> Ready(s, p, k)
  {
    hide Ready, Plan.Has;
  }

  lemma {:induction false} ImmutableIsPlanned(p: Plan)
    ensures forall k :: k in p.immutable ==> p.Has(k)
  {
  }

  lemma {:induction false} ImmutableIsReady(s: StoreState, p: Plan, k: Key)
    requires p.Separated() && k in p.immutable
    ensures Ready(s, p, k) <==> k !in s.objects || s.Holds(k, p.immutable[k])
  {
    assert p.Wanted(k) == p.immutable[k];
  }

  lemma {:induction false} CapturedIsReady(s: StoreState, p: Plan, k: Key)
    requires p == Recaptured(s, p) && p.Has(k) && k !in p.immutable
    ensures Ready(s, p, k)
  {
    hide Plan.Wanted;
    var captured := Recaptured(s, p).preconditions;
    assert k in captured && captured[k] == if k in s.objects then Some(s.objects[k].etag) else None;
  }
}
