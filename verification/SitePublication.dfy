/** Publishing one site build below its prefix: compare, write in order, delete last. */
module SitePublication {
  import opened Outcome
  import opened Keys
  import opened Store

  const SitePrefix: string := "site/"

  /** The objects of a build under their full keys. */
  ghost predicate IsSite(desired: map<Key, Object>) { forall k :: k in desired ==> StartsWith(k, SitePrefix) }

  /** Assets first, then pages, then the home page. */
  function Rank(k: Key): nat {
    if k == SitePrefix + "index.html" then 2 else if EndsWith(k, ".html") then 1 else 0
  }

  function OfRank(ks: set<Key>, r: nat): set<Key> { set k | k in ks && Rank(k) == r }

  function WriteOrder(ks: set<Key>): seq<Key> {
    Sorted(OfRank(ks, 0)) + Sorted(OfRank(ks, 1)) + Sorted(OfRank(ks, 2))
  }

  datatype SiteWrite = SiteWrite(key: Key, content: Object, condition: Condition)

  datatype SitePlan = SitePlan(writes: seq<SiteWrite>, kept: seq<Key>, deletions: seq<Key>)

  datatype SiteError = BadCap | OverCap | Escaped | WriteLost | Differs

  function WriteFor(s: StoreState, k: Key, o: Object): SiteWrite {
    SiteWrite(k, o, if k in s.objects then IfEtag(s.objects[k].etag) else IfAbsent)
  }

  predicate Same(s: StoreState, desired: map<Key, Object>, k: Key) { k in desired && s.Holds(k, desired[k]) }

  function Pending(s: StoreState, desired: map<Key, Object>, ks: seq<Key>): seq<SiteWrite> {
    if ks == [] then []
    else
      var k := ks[|ks| - 1];
      Pending(s, desired, ks[..|ks| - 1])
      + if Same(s, desired, k) || k !in desired then [] else [WriteFor(s, k, desired[k])]
  }

  function Unchanged(s: StoreState, desired: map<Key, Object>, ks: seq<Key>): seq<Key> {
    if ks == [] then []
    else
      var k := ks[|ks| - 1];
      Unchanged(s, desired, ks[..|ks| - 1]) + if Same(s, desired, k) then [k] else []
  }

  function Surplus(s: StoreState, desired: map<Key, Object>): set<Key> {
    set k | k in s.objects && StartsWith(k, SitePrefix) && k !in desired
  }

  /** The difference between a build and the store. */
  function Difference(s: StoreState, desired: map<Key, Object>): SitePlan {
    var ks := WriteOrder(desired.Keys);
    SitePlan(Pending(s, desired, ks), Unchanged(s, desired, ks), Sorted(Surplus(s, desired)))
  }

  method PlanSite(desired: map<Key, Object>, store: ConditionalObjectStore, maxDeletions: int)
    returns (r: Result<SitePlan, SiteError>)
    ensures r == if maxDeletions < 0 then Err(BadCap)
                 else if |Surplus(store.State(), desired)| > maxDeletions then Err(OverCap)
                 else Ok(Difference(store.State(), desired))
  {
    hide *;
    if maxDeletions < 0 {
      return Err(BadCap);
    }
    var surplus := Extra(desired, store);
    var ks := WriteOrder(desired.Keys);
    InWriteOrder(desired.Keys);
    ListsMeans(ks, desired.Keys);
    var writes: seq<SiteWrite>, kept: seq<Key> := [], [];
    NothingPending(store.State(), desired);
    for i := 0 to |ks|
      invariant writes == Pending(store.State(), desired, ks[..i])
      invariant kept == Unchanged(store.State(), desired, ks[..i])
    {
      var k := ks[i];
      assert k in ks;
      var current := store.Get(k);
      PendingNext(store.State(), desired, ks, i);
      SameMeans(store.State(), desired, k);
      if current.Some? && current.value.content == desired[k] {
        kept := kept + [k];
      } else {
        writes := writes + [SiteWrite(k, desired[k], if current.None? then IfAbsent else IfEtag(current.value.etag))];
      }
    }
    assert ks[..|ks|] == ks;
    var deletions := Sorted(surplus);
    SortedSize(surplus);
    if |deletions| > maxDeletions {
      return Err(OverCap);
    }
    DifferenceMeans(store.State(), desired);
    return Ok(SitePlan(writes, kept, deletions));
  }

  method Extra(desired: map<Key, Object>, store: ConditionalObjectStore) returns (surplus: set<Key>)
    ensures surplus == Surplus(store.State(), desired)
  {
    var listed := store.ListKeys(SitePrefix);
    surplus := set k | k in listed && k !in desired;
  }

  lemma {:induction false} ListsMeans(ks: seq<Key>, s: set<Key>)
    requires Lists(ks, s)
    ensures forall k :: k in ks <==> k in s
  {
  }

  lemma {:induction false} NothingPending(s: StoreState, desired: map<Key, Object>)
    ensures Pending(s, desired, []) == [] && Unchanged(s, desired, []) == []
  {
  }

  lemma {:induction false} PendingNext(s: StoreState, desired: map<Key, Object>, ks: seq<Key>, i: nat)
    requires i < |ks|
    ensures var k := ks[i];
            && ks[..i + 1] == ks[..i] + [k]
            && Pending(s, desired, ks[..i + 1])
            == (if Same(s, desired, k) || k !in desired then Pending(s, desired, ks[..i])
                else Pending(s, desired, ks[..i]) + [WriteFor(s, k, desired[k])])
            && Unchanged(s, desired, ks[..i + 1])
            == (if Same(s, desired, k) then Unchanged(s, desired, ks[..i]) + [k] else Unchanged(s, desired, ks[..i]))
  {
    hide Same, WriteFor;
    assert ks[..i + 1][..i] == ks[..i];
  }

  lemma {:induction false} DifferenceMeans(s: StoreState, desired: map<Key, Object>)
    ensures var ks := WriteOrder(desired.Keys);
            Difference(s, desired) == SitePlan(Pending(s, desired, ks), Unchanged(s, desired, ks), Sorted(Surplus(s, desired)))
  {
  }

  lemma {:induction false} SameMeans(s: StoreState, desired: map<Key, Object>, k: Key)
    requires k in desired
    ensures Same(s, desired, k) <==> s.Get(k).Some? && s.Get(k).value.content == desired[k]
    ensures WriteFor(s, k, desired[k])
         == SiteWrite(k, desired[k], if s.Get(k).None? then IfAbsent else IfEtag(s.Get(k).value.etag))
  {
  }

  lemma {:induction false} SortedSize(s: set<Key>)
    ensures |Sorted(s)| == |s|
    decreases |s|
  {
    if s != {} { SortedSize(s - {First(s)}); }
  }

  lemma {:induction false} RanksAre(k: Key)
    ensures Rank(k) == 0 || Rank(k) == 1 || Rank(k) == 2
  {
  }

  predicate IsPage(k: Key) { EndsWith(k, ".html") }

  /** Everything goes before the home page, what is not a page before the other pages, and otherwise keys
      go by name. */
  predicate GoesBefore(k: Key, l: Key) {
    if l == "site/index.html" || k == "site/index.html" then k != "site/index.html"
    else if IsPage(k) == IsPage(l) then Before(k, l)
    else IsPage(l)
  }

  lemma {:induction false} RankMeans(k: Key, l: Key)
    ensures Rank(k) < Rank(l) ==> GoesBefore(k, l)
    ensures Rank(k) == Rank(l) && Before(k, l) ==> GoesBefore(k, l)
    ensures (Rank(k) == 2 <==> k == "site/index.html") && (Rank(k) >= 1 <==> IsPage(k))
  {
    hide Before, EndsWith;
    HomeIsPage();
    BeforeIsStrict(k, k, k);
  }

  lemma {:induction false} HomeIsPage()
    ensures SitePrefix + "index.html" == "site/index.html" && EndsWith("site/index.html", ".html")
  {
    assert "site/index.html"[10..] == ".html";
  }

  /** The order lists every key once, no page before anything else, and the home page last. */
  lemma {:induction false} InWriteOrder(ks: set<Key>)
    ensures Lists(WriteOrder(ks), ks)
    ensures forall i, j :: 0 <= i < j < |WriteOrder(ks)| ==> GoesBefore(WriteOrder(ks)[i], WriteOrder(ks)[j])
    ensures forall i, j :: 0 <= i < j < |WriteOrder(ks)| ==> Rank(WriteOrder(ks)[i]) <= Rank(WriteOrder(ks)[j])
  {
    hide *;
    WriteOrderMeans(ks);
    forall k, l
      ensures Rank(k) < Rank(l) || (Rank(k) == Rank(l) && Before(k, l)) ==> GoesBefore(k, l)
    {
      RankMeans(k, l);
    }
    RankedList(ks, 0);
    RankedList(ks, 1);
    RankedList(ks, 2);
    JoinRanks(ks, Sorted(OfRank(ks, 0)), Sorted(OfRank(ks, 1)), Sorted(OfRank(ks, 2)));
  }

  lemma {:induction false} WriteOrderMeans(ks: set<Key>)
    ensures WriteOrder(ks) == Sorted(OfRank(ks, 0)) + Sorted(OfRank(ks, 1)) + Sorted(OfRank(ks, 2))
  {
  }

  ghost predicate ListsRank(list: seq<Key>, ks: set<Key>, r: nat) {
    && Distinct(list) && (forall k :: k in list <==> k in ks && Rank(k) == r)
    && (forall i :: 0 <= i < |list| ==> Rank(list[i]) == r) && Ascending(list)
  }

  lemma {:induction false} JoinRanks(ks: set<Key>, a: seq<Key>, b: seq<Key>, c: seq<Key>)
    requires ListsRank(a, ks, 0) && ListsRank(b, ks, 1) && ListsRank(c, ks, 2)
    ensures var all := a + b + c;
            Lists(all, ks) && forall i, j :: 0 <= i < j < |all| ==>
              Rank(all[i]) < Rank(all[j]) || (Rank(all[i]) == Rank(all[j]) && Before(all[i], all[j]))
  {
    hide Rank, Before;
    var all := a + b + c;
    forall i | 0 <= i < |all|
      ensures Rank(all[i]) == (if i < |a| then 0 else if i < |a| + |b| then 1 else 2)
      ensures all[i] == if i < |a| then a[i] else if i < |a| + |b| then b[i - |a|] else c[i - |a| - |b|]
    {}
    forall k ensures k in all <==> k in ks {
      assert k in all <==> k in a || k in b || k in c;
      RanksAre(k);
    }
  }

  lemma {:induction false} RankedList(ks: set<Key>, r: nat)
    ensures ListsRank(Sorted(OfRank(ks, r)), ks, r)
  {
    hide Rank;
    var list := Sorted(OfRank(ks, r));
    assert forall i :: 0 <= i < |list| ==> list[i] in list;
  }

  // ---- Applying a plan ----

  datatype SiteOp = Write(write: SiteWrite) | Remove(key: Key)

  function Ops(p: SitePlan): seq<SiteOp> { Writes(p.writes) + Removes(p.deletions) }

  function Writes(writes: seq<SiteWrite>): (ops: seq<SiteOp>)
    ensures |ops| == |writes| && forall i :: 0 <= i < |writes| ==> ops[i] == Write(writes[i])
  {
    seq(|writes|, i requires 0 <= i < |writes| => Write(writes[i]))
  }

  function Removes(keys: seq<Key>): (ops: seq<SiteOp>)
    ensures |ops| == |keys| && forall i :: 0 <= i < |keys| ==> ops[i] == Remove(keys[i])
  {
    seq(|keys|, i requires 0 <= i < |keys| => Remove(keys[i]))
  }

  function OpKey(op: SiteOp): Key { if op.Write? then op.write.key else op.key }

  function Step(s: StoreState, op: SiteOp): Result<StoreState, SiteError> {
    if !StartsWith(OpKey(op), SitePrefix) then Err(Escaped)
    else if op.Remove? then Ok(s.Without(op.key))
    else if Met(s, op.write.key, op.write.condition) then Ok(s.Written(op.write.key, op.write.content))
    else Err(WriteLost)
  }

  datatype SiteRun = SiteRun(state: StoreState, error: Option<SiteError>)

  function RunOps(s: StoreState, ops: seq<SiteOp>): SiteRun {
    if ops == [] then SiteRun(s, None)
    else
      var before := RunOps(s, ops[..|ops| - 1]);
      if before.error.Some? then before
      else
        var r := Step(before.state, ops[|ops| - 1]);
        if r.Ok? then SiteRun(r.value, None) else SiteRun(before.state, Some(r.error))
  }

  method ExecuteSite(plan: SitePlan, store: ConditionalObjectStore) returns (e: Option<SiteError>)
    modifies store
    ensures SiteRun(store.State(), e) == RunOps(old(store.State()), Ops(plan))
  {
    hide RunOps, Step, Ops;
    var ops := Ops(plan);
    NothingRun(store.State());
    for i := 0 to |ops|
      invariant RunOps(old(store.State()), ops[..i]) == SiteRun(store.State(), None)
    {
      RunNext(old(store.State()), ops, i);
      e := Apply(ops[i], store);
      if e.Some? {
        StaysStopped(old(store.State()), ops, i + 1);
        return;
      }
    }
    assert ops[..|ops|] == ops;
    return None;
  }

  method Apply(op: SiteOp, store: ConditionalObjectStore) returns (e: Option<SiteError>)
    modifies store
    ensures var r := Step(old(store.State()), op);
            store.State() == (if r.Ok? then r.value else old(store.State())) && e == if r.Ok? then None else Some(r.error)
  {
    if !StartsWith(OpKey(op), SitePrefix) {
      return Some(Escaped);
    }
    match op {
      case Write(w) =>
        var r := store.Put(w.key, w.content, w.condition);
        return if r.Ok? then None else Some(WriteLost);
      case Remove(k) =>
        store.Delete(k);
        return None;
    }
  }

  lemma {:induction false} NothingRun(s: StoreState)
    ensures RunOps(s, []) == SiteRun(s, None)
  {
  }

  lemma {:induction false} RunNext(s: StoreState, ops: seq<SiteOp>, i: nat)
    requires i < |ops| && RunOps(s, ops[..i]).error.None?
    ensures var before := RunOps(s, ops[..i]).state; var r := Step(before, ops[i]);
            RunOps(s, ops[..i + 1]) == if r.Ok? then SiteRun(r.value, None) else SiteRun(before, Some(r.error))
  {
    hide Step;
    assert ops[..i + 1][..i] == ops[..i];
  }

  lemma {:induction false} StaysStopped(s: StoreState, ops: seq<SiteOp>, n: nat)
    requires n <= |ops| && RunOps(s, ops[..n]).error.Some?
    ensures RunOps(s, ops) == RunOps(s, ops[..n])
    decreases |ops|
  {
    if n == |ops| {
      assert ops[..n] == ops;
    } else {
      assert ops[..|ops| - 1][..n] == ops[..n];
      StaysStopped(s, ops[..|ops| - 1], n);
    }
  }

  /** The prefix holds exactly the build. */
  ghost predicate Published(s: StoreState, desired: map<Key, Object>) {
    && (forall k :: k in desired ==> s.Holds(k, desired[k]))
    && forall k :: k in s.objects && StartsWith(k, SitePrefix) ==> k in desired
  }

  method VerifySite(desired: map<Key, Object>, store: ConditionalObjectStore) returns (ok: bool)
    requires IsSite(desired)
    ensures ok <==> Published(store.State(), desired)
  {
    hide *;
    PublishedMeans(store.State(), desired);
    var shown := Shown(store);
    if shown != desired.Keys {
      return false;
    }
    var ks := Sorted(desired.Keys);
    ListsMeans(ks, desired.Keys);
    for i := 0 to |ks|
      invariant forall j :: 0 <= j < i ==> Same(store.State(), desired, ks[j])
    {
      var current := store.Get(ks[i]);
      assert ks[i] in ks;
      SameMeans(store.State(), desired, ks[i]);
      if current.None? || current.value.content != desired[ks[i]] {
        return false;
      }
    }
    return true;
  }

  function SiteKeys(s: StoreState): set<Key> { set k | k in s.objects && StartsWith(k, SitePrefix) }

  method Shown(store: ConditionalObjectStore) returns (shown: set<Key>)
    ensures shown == SiteKeys(store.State())
  {
    var listed := store.ListKeys(SitePrefix);
    shown := set k | k in listed;
  }

  lemma {:induction false} PublishedMeans(s: StoreState, desired: map<Key, Object>)
    requires IsSite(desired)
    ensures Published(s, desired) <==> SiteKeys(s) == desired.Keys && forall k :: k in desired ==> Same(s, desired, k)
  {
    if Published(s, desired) {
      forall k | k in desired ensures k in s.objects && StartsWith(k, SitePrefix) {
        assert s.Holds(k, desired[k]);
      }
    }
    if forall k :: k in desired ==> Same(s, desired, k) {
      forall k | k in desired ensures s.Holds(k, desired[k]) { assert Same(s, desired, k); }
    }
  }

  // ---- What a plan leaves at every step ----

  /** After the writes for the first `j` keys those keys hold the build and all others are as before. */
  lemma {:induction false} WritesDone(s: StoreState, desired: map<Key, Object>, ks: seq<Key>, j: nat)
    requires s.Valid() && IsSite(desired) && Distinct(ks) && j <= |ks| && forall k :: k in ks ==> k in desired
    ensures var run := RunOps(s, Writes(Pending(s, desired, ks[..j])));
            && run.error.None? && run.state.Valid()
            && (forall k :: k in ks[..j] ==> Same(run.state, desired, k))
            && forall k :: k !in ks[..j] ==> run.state.Get(k) == s.Get(k)
  {
    hide *;
    if j == 0 {
      NothingPending(s, desired);
      NothingRun(s);
      assert ks[..0] == [] && Writes([]) == [];
    } else {
      var k, done := ks[j - 1], Pending(s, desired, ks[..j - 1]);
      assert k in ks;
      WritesDone(s, desired, ks, j - 1);
      PendingNext(s, desired, ks, j - 1);
      NotYetListed(ks, j - 1);
      var before := RunOps(s, Writes(done)).state;
      if Same(s, desired, k) {
        StillSame(s, before, desired, k);
      } else {
        WritesAppend(s, done, WriteFor(s, k, desired[k]));
        WriteSucceeds(s, before, desired, k);
        WriteKeepsOthers(before, Step(before, Write(WriteFor(s, k, desired[k]))).value, desired, k, ks[..j - 1]);
      }
    }
  }

  lemma {:induction false} NotYetListed(ks: seq<Key>, n: nat)
    requires n < |ks| && Distinct(ks)
    ensures ks[n] !in ks[..n]
  {
  }

  lemma {:induction false} StillSame(s: StoreState, t: StoreState, desired: map<Key, Object>, k: Key)
    requires s.Get(k) == t.Get(k)
    ensures Same(s, desired, k) <==> Same(t, desired, k)
  {
  }

  lemma {:induction false} WritesAppend(s: StoreState, writes: seq<SiteWrite>, w: SiteWrite)
    requires RunOps(s, Writes(writes)).error.None?
    ensures var r := Step(RunOps(s, Writes(writes)).state, Write(w));
            RunOps(s, Writes(writes + [w])) == if r.Ok? then SiteRun(r.value, None)
                                               else SiteRun(RunOps(s, Writes(writes)).state, Some(r.error))
  {
    hide Step, RunOps;
    var ops := Writes(writes + [w]);
    assert ops[..|writes|] == Writes(writes) && ops[..|writes| + 1] == ops;
    RunNext(s, ops, |writes|);
  }

  /** The captured precondition still matches, because nothing wrote this key. */
  lemma {:induction false} WriteSucceeds(s: StoreState, before: StoreState, desired: map<Key, Object>, k: Key)
    requires k in desired && IsSite(desired) && before.Valid() && before.Get(k) == s.Get(k)
    ensures var r := Step(before, Write(WriteFor(s, k, desired[k])));
            && r == Ok(before.Written(k, desired[k])) && r.value.Valid()
  {
    WrittenIsValid(before, k, desired[k]);
  }

  lemma {:induction false} WriteKeepsOthers(before: StoreState, t: StoreState, desired: map<Key, Object>, k: Key, done: seq<Key>)
    requires k in desired && t == before.Written(k, desired[k]) && k !in done
    ensures Same(t, desired, k)
    ensures forall l :: l in done && Same(before, desired, l) ==> Same(t, desired, l)
    ensures forall l :: l != k ==> t.Get(l) == before.Get(l)
  {
  }

  /** A fresh plan always goes through: its writes leave the whole build in place. */
  lemma {:induction false} AllWritten(s: StoreState, desired: map<Key, Object>)
    requires s.Valid() && IsSite(desired)
    ensures var run := RunOps(s, Writes(Difference(s, desired).writes));
            && run.error.None? && run.state.Valid()
            && (forall k :: k in desired ==> Same(run.state, desired, k))
            && forall k :: k !in desired ==> run.state.Get(k) == s.Get(k)
  {
    hide *;
    var ks := WriteOrder(desired.Keys);
    InWriteOrder(desired.Keys);
    ListsMeans(ks, desired.Keys);
    DistinctList(ks, desired.Keys);
    DifferenceMeans(s, desired);
    assert ks[..|ks|] == ks;
    WritesDone(s, desired, ks, |ks|);
  }

  lemma {:induction false} DistinctList(ks: seq<Key>, s: set<Key>)
    requires Lists(ks, s)
    ensures Distinct(ks)
  {
  }

  /** The deletions remove just their keys. */
  lemma {:induction false} RemovesDone(s: StoreState, ops: seq<SiteOp>, deletions: seq<Key>, m: nat)
    requires RunOps(s, ops).error.None? && RunOps(s, ops).state.Valid() && m <= |deletions|
    requires forall k :: k in deletions ==> StartsWith(k, SitePrefix)
    ensures var run := RunOps(s, ops + Removes(deletions[..m]));
            && run.error.None? && run.state.Valid()
            && forall k :: run.state.Get(k) == if k in deletions[..m] then None else RunOps(s, ops).state.Get(k)
  {
    hide RunOps, StartsWith, StoreState.Valid;
    if m == 0 {
      assert ops + Removes(deletions[..0]) == ops;
    } else {
      RemovesDone(s, ops, deletions, m - 1);
      var all := ops + Removes(deletions[..m]);
      assert all[..|all| - 1] == ops + Removes(deletions[..m - 1]) && all[..|all|] == all;
      assert deletions[..m] == deletions[..m - 1] + [deletions[m - 1]];
      assert deletions[m - 1] in deletions;
      RunNext(s, all, |all| - 1);
      WithoutIsValid(RunOps(s, all[..|all| - 1]).state, deletions[m - 1]);
    }
  }

  /** From any store a fresh plan ends without error, the prefix then equals the build, so that
      verification succeeds, and nothing outside the prefix has changed. */
  lemma {:induction false} FreshPlanPublishes(s: StoreState, desired: map<Key, Object>)
    requires s.Valid() && IsSite(desired)
    ensures var run := RunOps(s, Ops(Difference(s, desired)));
            && run.error.None? && run.state.Valid() && Published(run.state, desired)
            && forall k :: !StartsWith(k, SitePrefix) ==> run.state.Get(k) == s.Get(k)
  {
    hide *;
    var plan := Difference(s, desired);
    AllWritten(s, desired);
    SurplusMeans(s, desired);
    assert plan.deletions[..|plan.deletions|] == plan.deletions;
    RemovesDone(s, Writes(plan.writes), plan.deletions, |plan.deletions|);
    OpsMeans(plan);
    FinalState(s, RunOps(s, Writes(plan.writes)).state, RunOps(s, Ops(plan)).state, desired, plan.deletions);
  }

  lemma {:induction false} OpsMeans(p: SitePlan)
    ensures Ops(p) == Writes(p.writes) + Removes(p.deletions)
  {
  }

  lemma {:induction false} SurplusMeans(s: StoreState, desired: map<Key, Object>)
    ensures forall k :: k in Difference(s, desired).deletions <==>
      k in s.objects && StartsWith(k, SitePrefix) && k !in desired
    ensures forall k :: k in Difference(s, desired).deletions ==> StartsWith(k, SitePrefix)
  {
    hide StartsWith;
  }

  lemma {:induction false} FinalState(s: StoreState, written: StoreState, t: StoreState, desired: map<Key, Object>, deletions: seq<Key>)
    requires IsSite(desired)
    requires forall k :: k in deletions <==> k in s.objects && StartsWith(k, SitePrefix) && k !in desired
    requires forall k :: k in desired ==> Same(written, desired, k)
    requires forall k :: k !in desired ==> written.Get(k) == s.Get(k)
    requires forall k :: t.Get(k) == if k in deletions then None else written.Get(k)
    ensures Published(t, desired)
    ensures forall k :: !StartsWith(k, SitePrefix) ==> t.Get(k) == s.Get(k)
  {
    hide StartsWith;
    forall k | k in desired ensures t.Holds(k, desired[k]) {
      assert t.Get(k) == written.Get(k) && Same(written, desired, k);
    }
    forall k | k in t.objects && StartsWith(k, SitePrefix) ensures k in desired {
      assert t.Get(k) == if k in deletions then None else written.Get(k);
      assert k !in desired ==> written.Get(k) == s.Get(k);
    }
  }

  /** Each write belongs to one key of the order, behind the writes for all earlier keys. */
  lemma {:induction false} WritesFollowOrder(s: StoreState, desired: map<Key, Object>, ks: seq<Key>, i: nat) returns (j: nat)
    requires i < |Pending(s, desired, ks)|
    ensures j < |ks| && ks[j] in desired && Pending(s, desired, ks)[..i] == Pending(s, desired, ks[..j])
    ensures Pending(s, desired, ks)[i] == WriteFor(s, ks[j], desired[ks[j]])
  {
    hide Same, WriteFor;
    var n := |ks| - 1;
    var before := Pending(s, desired, ks[..n]);
    if i < |before| {
      j := WritesFollowOrder(s, desired, ks[..n], i);
      assert ks[..n][..j] == ks[..j] && Pending(s, desired, ks)[..i] == before[..i];
    } else {
      j := n;
    }
  }

  /** The state behind the first `n` operations of a fresh plan. */
  function Midway(s: StoreState, desired: map<Key, Object>, n: nat): SiteRun {
    var ops := Ops(Difference(s, desired));
    RunOps(s, if n <= |ops| then ops[..n] else ops)
  }

  ghost predicate SameOutside(s: StoreState, t: StoreState) {
    forall k :: !StartsWith(k, SitePrefix) ==> t.Get(k) == s.Get(k)
  }

  /** Whatever is in `ks[..j]` is in place, everything else untouched. */
  lemma {:induction false} MidwayThroughWrites(s: StoreState, desired: map<Key, Object>, n: nat) returns (j: nat)
    requires s.Valid() && IsSite(desired) && n < |Difference(s, desired).writes|
    ensures var run, ks := Midway(s, desired, n), WriteOrder(desired.Keys);
            && j < |ks| && Ops(Difference(s, desired))[n].Write? && OpKey(Ops(Difference(s, desired))[n]) == ks[j]
            && run.error.None? && run.state.Valid()
            && (forall k :: k in ks[..j] ==> Same(run.state, desired, k))
            && forall k :: k !in ks[..j] ==> run.state.Get(k) == s.Get(k)
  {
    hide *;
    var ks, plan := WriteOrder(desired.Keys), Difference(s, desired);
    InWriteOrder(desired.Keys);
    ListsMeans(ks, desired.Keys);
    DistinctList(ks, desired.Keys);
    DifferenceMeans(s, desired);
    j := WritesFollowOrder(s, desired, ks, n);
    WritesDone(s, desired, ks, j);
    OpsMeans(plan);
    assert Ops(plan)[..n] == Writes(plan.writes[..n]) && Ops(plan)[n] == Write(plan.writes[n]);
    MidwayMeans(s, desired, n);
    WriteForKey(s, ks[j], desired[ks[j]]);
  }

  lemma {:induction false} WriteForKey(s: StoreState, k: Key, o: Object)
    ensures OpKey(Write(WriteFor(s, k, o))) == k
  {
  }

  lemma {:induction false} MidwayMeans(s: StoreState, desired: map<Key, Object>, n: nat)
    requires n <= |Ops(Difference(s, desired))|
    ensures Midway(s, desired, n) == RunOps(s, Ops(Difference(s, desired))[..n])
  {
    hide RunOps, Ops, Difference;
  }

  lemma {:induction false} MidwayThroughRemoves(s: StoreState, desired: map<Key, Object>, n: nat)
    requires s.Valid() && IsSite(desired)
    requires |Difference(s, desired).writes| <= n <= |Ops(Difference(s, desired))|
    ensures var run, deletions := Midway(s, desired, n), Difference(s, desired).deletions;
            var m := n - |Difference(s, desired).writes|;
            && m <= |deletions| && run.error.None? && run.state.Valid()
            && (n < |Ops(Difference(s, desired))| ==> Ops(Difference(s, desired))[n].Remove?)
            && (forall k :: k in desired ==> Same(run.state, desired, k))
            && forall k :: k !in desired ==> run.state.Get(k) == if k in deletions[..m] then None else s.Get(k)
  {
    hide *;
    var plan := Difference(s, desired);
    var m := n - |plan.writes|;
    AllWritten(s, desired);
    SurplusMeans(s, desired);
    OpsMeans(plan);
    RemovesDone(s, Writes(plan.writes), plan.deletions, m);
    assert Ops(plan)[..n] == Writes(plan.writes) + Removes(plan.deletions[..m]);
    MidwayMeans(s, desired, n);
    var written, t := RunOps(s, Writes(plan.writes)).state, Midway(s, desired, n).state;
    forall k | k in desired ensures Same(t, desired, k) {
      assert k !in plan.deletions[..m] by { assert k !in plan.deletions; }
      StillSame(written, t, desired, k);
    }
  }

  /** At every step: no page is written before all assets are in place, the home page not before all
      other pages, nothing is deleted before the whole build is there, and nothing outside the prefix
      has changed. */
  lemma {:induction false} OrderAtEveryStep(s: StoreState, desired: map<Key, Object>, n: nat)
    requires s.Valid() && IsSite(desired) && n < |Ops(Difference(s, desired))|
    ensures var t, op := Midway(s, desired, n), Ops(Difference(s, desired))[n];
            && t.error.None? && SameOutside(s, t.state)
            && (op.Write? && IsPage(OpKey(op)) ==> forall k :: k in desired && !IsPage(k) ==> Same(t.state, desired, k))
            && (op.Write? && OpKey(op) == "site/index.html" ==>
                  forall k :: k in desired && k != "site/index.html" ==> Same(t.state, desired, k))
            && (op.Remove? ==> forall k :: k in desired ==> Same(t.state, desired, k))
  {
    hide *;
    var t, plan, ks := Midway(s, desired, n), Difference(s, desired), WriteOrder(desired.Keys);
    InWriteOrder(desired.Keys);
    ListsMeans(ks, desired.Keys);
    if n < |plan.writes| {
      var j := MidwayThroughWrites(s, desired, n);
      forall k | k in desired
        ensures IsPage(ks[j]) && !IsPage(k) ==> Same(t.state, desired, k)
        ensures ks[j] == "site/index.html" && k != "site/index.html" ==> Same(t.state, desired, k)
      {
        RankMeans(k, ks[j]);
        RankMeans(ks[j], k);
        RanksAre(k);
        RanksAre(ks[j]);
        assert k in ks;
        var a :| 0 <= a < |ks| && ks[a] == k;
        if Rank(k) < Rank(ks[j]) {
          LowerRankIsEarlier(ks, a, j);
          assert ks[..j][a] == k;
        }
      }
      OutsideIsNotDesired(s, t.state, desired, ks[..j]);
    } else {
      MidwayThroughRemoves(s, desired, n);
      SurplusMeans(s, desired);
      OutsideIsNotDeleted(s, t.state, desired, plan.deletions[..n - |plan.writes|]);
    }
  }

  lemma {:induction false} LowerRankIsEarlier(ks: seq<Key>, a: nat, j: nat)
    requires a < |ks| && j < |ks| && Rank(ks[a]) < Rank(ks[j])
    requires forall i, k :: 0 <= i < k < |ks| ==> Rank(ks[i]) <= Rank(ks[k])
    ensures a < j
  {
    hide Rank;
  }

  lemma {:induction false} OutsideIsNotDesired(s: StoreState, t: StoreState, desired: map<Key, Object>, ks: seq<Key>)
    requires IsSite(desired) && forall k :: k in ks ==> k in desired
    requires forall k :: k !in ks ==> t.Get(k) == s.Get(k)
    ensures SameOutside(s, t)
  {
    hide StartsWith;
  }

  lemma {:induction false} OutsideIsNotDeleted(s: StoreState, t: StoreState, desired: map<Key, Object>, deleted: seq<Key>)
    requires IsSite(desired) && forall k :: k in deleted ==> StartsWith(k, SitePrefix)
    requires forall k :: k !in desired ==> t.Get(k) == if k in deleted then None else s.Get(k)
    ensures SameOutside(s, t)
  {
    hide StartsWith;
  }

  // ---- Crashes ----

  /** Attempts that each stop after some operations, every one with a fresh plan. */
  function Attempts(s: StoreState, desired: map<Key, Object>, cuts: seq<nat>): StoreState
    decreases |cuts|
  {
    if cuts == [] then s else Attempts(Midway(s, desired, cuts[0]).state, desired, cuts[1..])
  }

  /** A cut attempt deletes nothing new to delete, so the deletion cap never begins to refuse. */
  lemma {:induction false} CutKeepsOutside(s: StoreState, desired: map<Key, Object>, n: nat)
    requires s.Valid() && IsSite(desired)
    ensures var t := Midway(s, desired, n).state;
            t.Valid() && SameOutside(s, t) && Surplus(t, desired) <= Surplus(s, desired)
  {
    hide *;
    var plan, ks := Difference(s, desired), WriteOrder(desired.Keys);
    InWriteOrder(desired.Keys);
    ListsMeans(ks, desired.Keys);
    SurplusMeans(s, desired);
    if n < |plan.writes| {
      OpsMeans(plan);
      var j := MidwayThroughWrites(s, desired, n);
      OutsideIsNotDesired(s, Midway(s, desired, n).state, desired, ks[..j]);
      SurplusShrinks(s, Midway(s, desired, n).state, desired, []);
    } else {
      var m := if n <= |Ops(plan)| then n else |Ops(plan)|;
      OpsMeans(plan);
      MidwayIsWhole(s, desired, n);
      MidwayThroughRemoves(s, desired, m);
      var deleted := plan.deletions[..m - |plan.writes|];
      OutsideIsNotDeleted(s, Midway(s, desired, m).state, desired, deleted);
      SurplusShrinks(s, Midway(s, desired, m).state, desired, deleted);
    }
  }

  lemma {:induction false} MidwayIsWhole(s: StoreState, desired: map<Key, Object>, n: nat)
    ensures n > |Ops(Difference(s, desired))| ==> Midway(s, desired, n) == Midway(s, desired, |Ops(Difference(s, desired))|)
  {
    hide RunOps, Ops, Difference;
    var ops := Ops(Difference(s, desired));
    assert ops[..|ops|] == ops;
  }

  lemma {:induction false} SurplusShrinks(s: StoreState, t: StoreState, desired: map<Key, Object>, deleted: seq<Key>)
    requires forall k :: k !in desired ==> t.Get(k) == if k in deleted then None else s.Get(k)
    ensures Surplus(t, desired) <= Surplus(s, desired)
  {
    hide StartsWith;
    forall k | k in Surplus(t, desired) ensures k in Surplus(s, desired) {
      assert t.Get(k) == if k in deleted then None else s.Get(k);
    }
  }

  /** Any number of crashed attempts, each followed by planning afresh, end like one attempt: the
      prefix equals the build and nothing outside it has changed. */
  lemma {:induction false} CrashesConverge(s: StoreState, desired: map<Key, Object>, cuts: seq<nat>)
    requires s.Valid() && IsSite(desired)
    ensures var t := Attempts(s, desired, cuts);
            && |Surplus(t, desired)| <= |Surplus(s, desired)|
            && var run := RunOps(t, Ops(Difference(t, desired)));
            run.error.None? && Published(run.state, desired) && SameOutside(s, run.state)
    decreases |cuts|
  {
    hide Midway, Ops, Difference, RunOps, IsSite, Published, Surplus, StoreState.Valid;
    if cuts == [] {
      FreshPlanPublishes(s, desired);
    } else {
      var t := Midway(s, desired, cuts[0]).state;
      CutKeepsOutside(s, desired, cuts[0]);
      CrashesConverge(t, desired, cuts[1..]);
      SubsetIsSmaller(Surplus(t, desired), Surplus(s, desired));
    }
  }
}
