/**
  Package-pool retention. One upstream patch release is indivisible; the newest release of every
  retained series is protected; the others leave oldest first until a byte budget is met.
 */
module Retention {
  import opened Outcome
  import opened Text
  import opened VersionOrder
  import opened DebianVersions

  datatype Mode = BySeriesOnly | BySeriesAndSize

  type Release = (nat, string)
  type KernelSeries = (nat, nat)

  datatype PoolObject = PoolObject(key: string, version: DebianVersion, size: nat)

  datatype RetentionDecision = RetentionDecision(
    mode: Mode,
    retainedKeys: set<string>,
    retainedSeries: seq<KernelSeries>,
    retainedReleases: set<Release>,
    retainedBytes: nat,
    fixedBytes: nat,
    maxBytes: Option<int>)

  datatype RetentionError =
    | InvalidArguments
    | RepeatedKey
    | EmptyPool
    | ReleaseSpansSeries
    | BudgetExceeded
    | SeriesLost

  function PatchRelease(o: PoolObject): Release {
    (o.version.epoch, o.version.upstream)
  }

  /** The version that stands for a whole release when releases are ordered. */
  function ReleaseVersion(r: Release): DebianVersion {
    DebianVersion(r.0, r.1, "", if r.0 == 0 then r.1 else Decimal(r.0) + ":" + r.1)
  }

  function ReleaseSeries(r: Release): KernelSeries {
    Series(ReleaseVersion(r))
  }

  predicate NotNewer(a: Release, b: Release) {
    Compare(ReleaseVersion(a), ReleaseVersion(b)) <= 0
  }

  /** Releases order like the versions of their objects, without the Debian revision: two objects are of one
      release exactly if epoch and upstream version are the same. */
  lemma {:induction false} ReleasesFollowVersions(a: PoolObject, b: PoolObject)
    ensures PatchRelease(a) == PatchRelease(b) <==> a.version.epoch == b.version.epoch && a.version.upstream == b.version.upstream
    ensures NotNewer(PatchRelease(a), PatchRelease(b)) <==>
      a.version.epoch < b.version.epoch
      || (a.version.epoch == b.version.epoch && Fragment(a.version.upstream, b.version.upstream) <= 0)
    ensures Compare(a.version, b.version) <= 0 ==> NotNewer(PatchRelease(a), PatchRelease(b))
  {
    hide Fragment;
    assert Fragment("", "") == 0 by { FragmentReflexive(""); }
  }

  lemma {:induction false} NotNewerTransitive(a: Release, b: Release, c: Release)
    requires NotNewer(a, b) && NotNewer(b, c)
    ensures NotNewer(a, c)
  {
    CompareTransitive(ReleaseVersion(a), ReleaseVersion(b), ReleaseVersion(c));
  }

  lemma {:induction false} NotNewerTotal(a: Release, b: Release)
    ensures NotNewer(a, b) || NotNewer(b, a)
  {
    CompareAntisymmetric(ReleaseVersion(a), ReleaseVersion(b));
  }

  // ---- Inventories ----

  function SizeOf(os: seq<PoolObject>): nat {
    if os == [] then 0 else SizeOf(os[..|os| - 1]) + os[|os| - 1].size
  }

  function KeysOf(os: seq<PoolObject>): set<string> {
    set k | 0 <= k < |os| :: os[k].key
  }

  predicate DistinctKeys(os: seq<PoolObject>) {
    forall i, j :: 0 <= i < j < |os| ==> os[i].key != os[j].key
  }

  /** The objects that belong to the given releases. */
  function Pick(os: seq<PoolObject>, rs: set<Release>): seq<PoolObject> {
    if os == [] then []
    else
      var rest, last := Pick(os[..|os| - 1], rs), os[|os| - 1];
      if PatchRelease(last) in rs then rest + [last] else rest
  }

  /** The objects that are left once the given releases are gone. */
  function Keep(os: seq<PoolObject>, gone: set<Release>): seq<PoolObject> {
    if os == [] then []
    else
      var rest, last := Keep(os[..|os| - 1], gone), os[|os| - 1];
      if PatchRelease(last) in gone then rest else rest + [last]
  }

  function InSeries(os: seq<PoolObject>, ss: seq<KernelSeries>): seq<PoolObject> {
    if os == [] then []
    else
      var rest, last := InSeries(os[..|os| - 1], ss), os[|os| - 1];
      if Series(last.version) in ss then rest + [last] else rest
  }

  function Releases(os: seq<PoolObject>): seq<Release> {
    if os == [] then []
    else
      var rest, r := Releases(os[..|os| - 1]), PatchRelease(os[|os| - 1]);
      if r in rest then rest else rest + [r]
  }

  // ---- Series, newest first ----

  /** Insertion into a strictly descending list; a present series is not repeated. */
  function InsertSeries(s: KernelSeries, ss: seq<KernelSeries>): seq<KernelSeries> {
    if ss == [] || SeriesBefore(ss[0], s) then [s] + ss
    else if ss[0] == s then ss
    else [ss[0]] + InsertSeries(s, ss[1..])
  }

  function SeriesNewestFirst(os: seq<PoolObject>): seq<KernelSeries> {
    if os == [] then [] else InsertSeries(Series(os[|os| - 1].version), SeriesNewestFirst(os[..|os| - 1]))
  }

  function NewestSeries(os: seq<PoolObject>, count: nat): seq<KernelSeries> {
    var ss := SeriesNewestFirst(os);
    if count < |ss| then ss[..count] else ss
  }

  // ---- Releases of one series, protection and the order of removal ----

  function OfSeries(rs: seq<Release>, s: KernelSeries): seq<Release> {
    if rs == [] then []
    else
      var rest, last := OfSeries(rs[..|rs| - 1], s), rs[|rs| - 1];
      if ReleaseSeries(last) == s then rest + [last] else rest
  }

  /** The first of the newest releases, as `max` returns it. */
  function Newest(rs: seq<Release>): (r: Release)
    requires rs != []
    ensures r in rs
  {
    if |rs| == 1 then rs[0]
    else
      var best, last := Newest(rs[..|rs| - 1]), rs[|rs| - 1];
      if NotNewer(last, best) then best else last
  }

  predicate IsProtected(rs: seq<Release>, r: Release) {
    var own := OfSeries(rs, ReleaseSeries(r));
    own != [] && r == Newest(own)
  }

  function InsertRelease(r: Release, rs: seq<Release>): seq<Release> {
    if rs != [] && NotNewer(rs[0], r) then [rs[0]] + InsertRelease(r, rs[1..]) else [r] + rs
  }

  /** The unprotected releases among the first `n`, oldest first. */
  function CandidatesAmong(rs: seq<Release>, n: nat): seq<Release>
    requires n <= |rs|
  {
    if n == 0 then []
    else if IsProtected(rs, rs[n - 1]) then CandidatesAmong(rs, n - 1)
    else InsertRelease(rs[n - 1], CandidatesAmong(rs, n - 1))
  }

  function Candidates(rs: seq<Release>): seq<Release> {
    CandidatesAmong(rs, |rs|)
  }

  function Gone(cs: seq<Release>, k: nat): set<Release>
    requires k <= |cs|
  {
    set i | 0 <= i < k :: cs[i]
  }

  function BytesAfter(os: seq<PoolObject>, fixed: nat, cs: seq<Release>, k: nat): nat
    requires k <= |cs|
  {
    fixed + SizeOf(Keep(os, Gone(cs, k)))
  }

  /** The least number of removals, from `k` on, that meets the limit; all of them when none does. */
  function Removals(os: seq<PoolObject>, fixed: nat, cs: seq<Release>, limit: int, k: nat): (n: nat)
    requires k <= |cs|
    ensures k <= n <= |cs|
    ensures forall j :: k <= j < n ==> BytesAfter(os, fixed, cs, j) > limit
    ensures n == |cs| || BytesAfter(os, fixed, cs, n) <= limit
    decreases |cs| - k
  {
    if k == |cs| || BytesAfter(os, fixed, cs, k) <= limit then k else Removals(os, fixed, cs, limit, k + 1)
  }

  predicate ValidArguments(mode: Mode, maxBytes: Option<int>, fixedBytes: int, maxSeries: int) {
    && maxSeries >= 1 && fixedBytes >= 0
    && (mode.BySeriesOnly? ==> maxBytes.None?)
    && (mode.BySeriesAndSize? ==> maxBytes.Some? && maxBytes.value >= 1)
  }

  /** How many of the candidates leave. */
  function RemovalCount(sel: seq<PoolObject>, fixed: nat, maxBytes: Option<int>): (k: nat)
    ensures k <= |Candidates(Releases(sel))|
  {
    if maxBytes.None? then 0 else Removals(sel, fixed, Candidates(Releases(sel)), maxBytes.value, 0)
  }

  function Decision(sel: seq<PoolObject>, ss: seq<KernelSeries>, mode: Mode, maxBytes: Option<int>, fixed: nat)
    : RetentionDecision
  {
    var cs := Candidates(Releases(sel));
    var k := RemovalCount(sel, fixed, maxBytes);
    var kept := Keep(sel, Gone(cs, k));
    RetentionDecision(mode, KeysOf(kept), ss, (set r | r in Releases(kept)),
                      fixed + SizeOf(kept), fixed, maxBytes)
  }

  /** The decision the selector takes on any arguments. */
  function Retain(objects: seq<PoolObject>, mode: Mode, maxBytes: Option<int>, fixedBytes: int, maxSeries: int)
    : Result<RetentionDecision, RetentionError>
  {
    if maxSeries < 1 || fixedBytes < 0 then Err(InvalidArguments)
    else if !DistinctKeys(objects) then Err(RepeatedKey)
    else if !ValidArguments(mode, maxBytes, fixedBytes, maxSeries) then Err(InvalidArguments)
    else if objects == [] then Err(EmptyPool)
    else
      var ss := NewestSeries(objects, maxSeries);
      var d := Decision(InSeries(objects, ss), ss, mode, maxBytes, fixedBytes);
      if maxBytes.Some? && d.retainedBytes > maxBytes.value then Err(BudgetExceeded) else Ok(d)
  }

  // ---- Facts about inventories ----

  lemma {:induction false} KeepStep(os: seq<PoolObject>, gone: set<Release>, r: Release)
    requires r !in gone
    ensures SizeOf(Keep(os, gone)) == SizeOf(Keep(os, gone + {r})) + SizeOf(Pick(os, {r}))
  {
    if os != [] {
      var rest, last := os[..|os| - 1], os[|os| - 1];
      KeepStep(rest, gone, r);
      SizeAppend(Keep(rest, gone), last);
      SizeAppend(Keep(rest, gone + {r}), last);
      SizeAppend(Pick(rest, {r}), last);
    }
  }

  lemma {:induction false} SizeAppend(os: seq<PoolObject>, o: PoolObject)
    ensures SizeOf(os + [o]) == SizeOf(os) + o.size
  {
    assert (os + [o])[..|os|] == os;
  }

  lemma {:induction false} KeepElements(os: seq<PoolObject>, gone: set<Release>)
    ensures forall o :: o in Keep(os, gone) <==> o in os && PatchRelease(o) !in gone
  {
    if os != [] {
      KeepElements(os[..|os| - 1], gone);
      assert os == os[..|os| - 1] + [os[|os| - 1]];
    }
  }

  lemma {:induction false} PickElements(os: seq<PoolObject>, rs: set<Release>)
    ensures forall o :: o in Pick(os, rs) <==> o in os && PatchRelease(o) in rs
  {
    if os != [] {
      PickElements(os[..|os| - 1], rs);
      assert os == os[..|os| - 1] + [os[|os| - 1]];
    }
  }

  lemma {:induction false} InSeriesElements(os: seq<PoolObject>, ss: seq<KernelSeries>)
    ensures forall o :: o in InSeries(os, ss) <==> o in os && Series(o.version) in ss
    ensures DistinctKeys(os) ==> DistinctKeys(InSeries(os, ss))
  {
    if os != [] {
      var rest, last := os[..|os| - 1], os[|os| - 1];
      InSeriesElements(rest, ss);
      assert os == rest + [last];
      var kept := InSeries(rest, ss);
      forall k | 0 <= k < |kept| && DistinctKeys(os) ensures kept[k].key != last.key {
        assert kept[k] in kept && kept[k] in rest;
        var j :| 0 <= j < |rest| && rest[j] == kept[k];
        assert os[j].key != os[|os| - 1].key;
      }
    }
  }

  lemma {:induction false} KeysOfElements(os: seq<PoolObject>)
    ensures forall key :: key in KeysOf(os) <==> exists o :: o in os && o.key == key
  {
    forall o | o in os ensures o.key in KeysOf(os) {
      var k :| 0 <= k < |os| && os[k] == o;
    }
  }

  lemma {:induction false} SameKeySameObject(os: seq<PoolObject>, a: PoolObject, b: PoolObject)
    requires DistinctKeys(os) && a in os && b in os && a.key == b.key
    ensures a == b
  {
    var i :| 0 <= i < |os| && os[i] == a;
    var j :| 0 <= j < |os| && os[j] == b;
  }

  lemma {:induction false} ReleasesElements(os: seq<PoolObject>)
    ensures forall r :: r in Releases(os) <==> exists o :: o in os && PatchRelease(o) == r
    ensures forall i, j :: 0 <= i < j < |Releases(os)| ==> Releases(os)[i] != Releases(os)[j]
  {
    if os != [] {
      var rest, last := os[..|os| - 1], os[|os| - 1];
      ReleasesElements(rest);
      assert os == rest + [last];
      forall o | o in rest ensures o in os {}
    }
  }

  lemma {:induction false} SeriesOfRelease(o: PoolObject)
    ensures ReleaseSeries(PatchRelease(o)) == Series(o.version)
  {
  }

  // ---- The selector ----

  lemma {:induction false} OfSeriesElements(rs: seq<Release>, s: KernelSeries)
    ensures forall r :: r in OfSeries(rs, s) <==> r in rs && ReleaseSeries(r) == s
  {
    if rs != [] {
      OfSeriesElements(rs[..|rs| - 1], s);
      assert rs == rs[..|rs| - 1] + [rs[|rs| - 1]];
    }
  }

  method GroupReleases(sel: seq<PoolObject>)
    returns (groups: map<Release, seq<PoolObject>>, order: seq<Release>)
    ensures order == Releases(sel)
    ensures forall r :: r in groups <==> r in order
    ensures forall r: Release :: Pick(sel, {r}) == if r in groups then groups[r] else []
  {
    groups, order := map[], [];
    for i := 0 to |sel|
      invariant order == Releases(sel[..i])
      invariant forall r :: r in groups <==> r in order
      invariant forall r: Release :: Pick(sel[..i], {r}) == if r in groups then groups[r] else []
    {
      var r := PatchRelease(sel[i]);
      assert sel[..i + 1][..i] == sel[..i];
      if r !in groups {
        order := order + [r];
        groups := groups[r := []];
      }
      groups := groups[r := groups[r] + [sel[i]]];
    }
    assert sel[..|sel|] == sel;
  }

  lemma {:induction false} ReleaseHasOneSeries(sel: seq<PoolObject>, r: Release)
    requires r in Releases(sel)
    ensures var members := Pick(sel, {r});
            members != [] && forall m :: m in members ==> Series(m.version) == ReleaseSeries(r)
  {
    ReleasesElements(sel);
    PickElements(sel, {r});
    var o :| o in sel && PatchRelease(o) == r;
    assert o in Pick(sel, {r});
  }

  /** Releases grouped by series; a release cannot span two series, so the check never fails. */
  method GroupSeries(sel: seq<PoolObject>, groups: map<Release, seq<PoolObject>>, order: seq<Release>)
    returns (spans: bool, bySeries: map<KernelSeries, seq<Release>>)
    requires order == Releases(sel)
    requires forall r :: r in groups <==> r in order
    requires forall r: Release :: Pick(sel, {r}) == if r in groups then groups[r] else []
    ensures !spans
    ensures forall s :: s in bySeries ==> bySeries[s] != []
    ensures forall s: KernelSeries :: OfSeries(order, s) == if s in bySeries then bySeries[s] else []
  {
    hide Series, ReleaseSeries, Pick, Releases;
    spans, bySeries := false, map[];
    for i := 0 to |order|
      invariant !spans
      invariant forall s :: s in bySeries ==> bySeries[s] != []
      invariant forall s: KernelSeries :: OfSeries(order[..i], s) == if s in bySeries then bySeries[s] else []
    {
      var r := order[i];
      assert order[..i + 1][..i] == order[..i];
      var members := groups[r];
      ReleaseHasOneSeries(sel, r);
      var s := Series(members[0].version);
      if exists m :: m in members && Series(m.version) != s {
        return true, bySeries;
      }
      bySeries := bySeries[s := (if s in bySeries then bySeries[s] else []) + [r]];
    }
    assert order[..|order|] == order;
  }

  method SortCandidates(order: seq<Release>, bySeries: map<KernelSeries, seq<Release>>)
    returns (candidates: seq<Release>)
    requires forall s :: s in bySeries ==> bySeries[s] != []
    requires forall s: KernelSeries :: OfSeries(order, s) == if s in bySeries then bySeries[s] else []
    ensures candidates == Candidates(order)
  {
    var protected := set s | s in bySeries :: Newest(bySeries[s]);
    candidates := [];
    for i := 0 to |order|
      invariant candidates == CandidatesAmong(order, i)
    {
      var r := order[i];
      OfSeriesElements(order, ReleaseSeries(r));
      assert r in protected <==> IsProtected(order, r) by {
        if r in protected {
          var s :| s in bySeries && r == Newest(bySeries[s]);
          assert r in bySeries[s] && bySeries[s] == OfSeries(order, s);
          OfSeriesElements(order, s);
        }
        if IsProtected(order, r) {
          assert ReleaseSeries(r) in bySeries;
        }
      }
      if r !in protected {
        candidates := InsertRelease(r, candidates);
      }
    }
  }

  lemma {:induction false} GoneStep(cs: seq<Release>, k: nat)
    requires k < |cs|
    ensures Gone(cs, k + 1) == Gone(cs, k) + {cs[k]}
  {
  }

  lemma {:induction false} KeepKeysStep(sel: seq<PoolObject>, gone: set<Release>, r: Release)
    requires DistinctKeys(sel)
    ensures KeysOf(Keep(sel, gone + {r})) == KeysOf(Keep(sel, gone)) - KeysOf(Pick(sel, {r}))
  {
    KeepElements(sel, gone);
    KeepElements(sel, gone + {r});
    PickElements(sel, {r});
    KeysOfElements(Keep(sel, gone));
    KeysOfElements(Keep(sel, gone + {r}));
    KeysOfElements(Pick(sel, {r}));
    forall a, b | a in sel && b in sel && a.key == b.key ensures a == b { SameKeySameObject(sel, a, b); }
  }

  /** The dictionary of an inventory, by key. */
  predicate Indexes(m: map<string, PoolObject>, os: seq<PoolObject>) {
    m.Keys == KeysOf(os) && forall o :: o in os ==> o.key in m && m[o.key] == o
  }

  /** Popping one release's objects one by one. */
  method RemoveRelease(selected: map<string, PoolObject>, total: int, members: seq<PoolObject>)
    returns (left: map<string, PoolObject>, size: int)
    ensures left == selected - KeysOf(members)
    ensures size == total - SizeOf(members)
  {
    left, size := selected, total;
    for i := 0 to |members|
      invariant left == selected - KeysOf(members[..i])
      invariant size == total - SizeOf(members[..i])
    {
      assert members[..i + 1][..i] == members[..i];
      assert KeysOf(members[..i + 1]) == KeysOf(members[..i]) + {members[i].key} by {
        assert forall k :: 0 <= k < i ==> members[..i + 1][k] == members[..i][k];
        assert members[..i + 1][i] == members[i];
      }
      left := left - {members[i].key};
      size := size - members[i].size;
    }
    assert members[..|members|] == members;
  }

  /** Dropping one more release from the dictionary and from the total. */
  lemma {:induction false} RemovalStep(sel: seq<PoolObject>, cs: seq<Release>, k: nat, m: map<string, PoolObject>)
    requires DistinctKeys(sel) && k < |cs| && forall j :: 0 <= j < k ==> cs[j] != cs[k]
    requires Indexes(m, Keep(sel, Gone(cs, k)))
    ensures Indexes(m - KeysOf(Pick(sel, {cs[k]})), Keep(sel, Gone(cs, k + 1)))
    ensures SizeOf(Keep(sel, Gone(cs, k))) == SizeOf(Keep(sel, Gone(cs, k + 1))) + SizeOf(Pick(sel, {cs[k]}))
  {
    GoneStep(cs, k);
    KeepStep(sel, Gone(cs, k), cs[k]);
    KeepKeysStep(sel, Gone(cs, k), cs[k]);
    KeepElements(sel, Gone(cs, k));
    KeepElements(sel, Gone(cs, k + 1));
    KeysOfElements(Keep(sel, Gone(cs, k + 1)));
  }

  method RemoveOldest(sel: seq<PoolObject>, groups: map<Release, seq<PoolObject>>, candidates: seq<Release>,
                      selected: map<string, PoolObject>, fixed: nat, limit: int)
    returns (left: map<string, PoolObject>, total: int)
    requires DistinctKeys(sel) && Indexes(selected, sel)
    requires forall i, j :: 0 <= i < j < |candidates| ==> candidates[i] != candidates[j]
    requires forall i :: 0 <= i < |candidates| ==> candidates[i] in groups
    requires forall r :: r in groups ==> groups[r] == Pick(sel, {r})
    ensures var kept := Keep(sel, Gone(candidates, Removals(sel, fixed, candidates, limit, 0)));
            Indexes(left, kept) && total == fixed + SizeOf(kept)
  {
    hide Keep, Pick, SizeOf, KeysOf, Indexes, DistinctKeys, Gone;
    KeepAll(sel);
    assert Gone(candidates, 0) == {} by { GoneNone(candidates); }
    left, total := selected, fixed + SizeOf(sel);
    var k := 0;
    while k < |candidates| && total > limit
      invariant k <= |candidates|
      invariant Indexes(left, Keep(sel, Gone(candidates, k)))
      invariant total == BytesAfter(sel, fixed, candidates, k)
      invariant Removals(sel, fixed, candidates, limit, 0) == Removals(sel, fixed, candidates, limit, k)
    {
      RemovalStep(sel, candidates, k, left);
      left, total := RemoveRelease(left, total, groups[candidates[k]]);
      k := k + 1;
    }
  }

  lemma {:induction false} GoneNone(cs: seq<Release>)
    ensures Gone(cs, 0) == {}
  {
  }

  lemma {:induction false} KeepAll(os: seq<PoolObject>)
    ensures Keep(os, {}) == os
  {
    if os != [] {
      KeepAll(os[..|os| - 1]);
      assert os == os[..|os| - 1] + [os[|os| - 1]];
    }
  }

  predicate Distinct(rs: seq<Release>) {
    forall i, j :: 0 <= i < j < |rs| ==> rs[i] != rs[j]
  }

  predicate OldestFirst(rs: seq<Release>) {
    forall i, j :: 0 <= i < j < |rs| ==> NotNewer(rs[i], rs[j])
  }

  lemma {:induction false} InsertReleaseSorts(r: Release, rs: seq<Release>)
    requires OldestFirst(rs) && Distinct(rs) && r !in rs
    ensures OldestFirst(InsertRelease(r, rs)) && Distinct(InsertRelease(r, rs))
    ensures forall q :: q in InsertRelease(r, rs) <==> q == r || q in rs
  {
    hide NotNewer;
    if rs != [] && NotNewer(rs[0], r) {
      InsertReleaseSorts(r, rs[1..]);
      assert forall q :: q in rs <==> q == rs[0] || q in rs[1..];
      var rest := InsertRelease(r, rs[1..]);
      forall k | 0 <= k < |rest| ensures NotNewer(rs[0], rest[k]) && rs[0] != rest[k] {
        assert rest[k] in rest;
      }
    } else if rs != [] {
      NotNewerTotal(rs[0], r);
      forall k | 0 <= k < |rs| ensures NotNewer(r, rs[k]) {
        if k > 0 { NotNewerTransitive(r, rs[0], rs[k]); }
      }
    }
  }

  /** The candidates are exactly the unprotected releases, each once, oldest first. */
  lemma {:induction false} CandidatesAmongAre(rs: seq<Release>, n: nat)
    requires Distinct(rs) && n <= |rs|
    ensures OldestFirst(CandidatesAmong(rs, n)) && Distinct(CandidatesAmong(rs, n))
    ensures forall r :: r in CandidatesAmong(rs, n) <==> r in rs[..n] && !IsProtected(rs, r)
  {
    hide NotNewer, IsProtected;
    if n > 0 {
      CandidatesAmongAre(rs, n - 1);
      assert rs[..n] == rs[..n - 1] + [rs[n - 1]];
      assert rs[n - 1] !in rs[..n - 1];
      if !IsProtected(rs, rs[n - 1]) {
        InsertReleaseSorts(rs[n - 1], CandidatesAmong(rs, n - 1));
      }
    }
  }

  lemma {:induction false} CandidatesAre(rs: seq<Release>)
    requires Distinct(rs)
    ensures OldestFirst(Candidates(rs)) && Distinct(Candidates(rs))
    ensures forall r :: r in Candidates(rs) <==> r in rs && !IsProtected(rs, r)
  {
    CandidatesAmongAre(rs, |rs|);
    assert rs[..|rs|] == rs;
  }

  method IndexObjects(objects: seq<PoolObject>, ss: seq<KernelSeries>)
    returns (sel: seq<PoolObject>, selected: map<string, PoolObject>)
    requires DistinctKeys(objects)
    ensures sel == InSeries(objects, ss) && Indexes(selected, sel)
  {
    sel, selected := [], map[];
    for i := 0 to |objects|
      invariant sel == InSeries(objects[..i], ss)
      invariant Indexes(selected, sel)
    {
      var o := objects[i];
      assert objects[..i + 1][..i] == objects[..i];
      if Series(o.version) in ss {
        InSeriesElements(objects[..i], ss);
        IndexOneMore(selected, sel, o, objects, i);
        sel := sel + [o];
        selected := selected[o.key := o];
      }
    }
    assert objects[..|objects|] == objects;
  }

  lemma {:induction false} IndexOneMore(m: map<string, PoolObject>, os: seq<PoolObject>, o: PoolObject, objects: seq<PoolObject>, i: nat)
    requires DistinctKeys(objects) && i < |objects| && objects[i] == o
    requires Indexes(m, os) && forall x :: x in os ==> x in objects[..i]
    ensures Indexes(m[o.key := o], os + [o])
  {
    forall x | x in os ensures x.key != o.key {
      var j :| 0 <= j < i && objects[..i][j] == x;
    }
    KeysOfElements(os);
    KeysOfElements(os + [o]);
    assert forall x :: x in os + [o] <==> x == o || x in os;
  }

  lemma {:induction false} SeriesStillPresent(sel: seq<PoolObject>, s: KernelSeries, k: nat)
    requires exists o :: o in sel && Series(o.version) == s
    requires k <= |Candidates(Releases(sel))|
    ensures exists o :: o in Keep(sel, Gone(Candidates(Releases(sel)), k)) && Series(o.version) == s
  {
    hide Series, NotNewer;
    var rs := Releases(sel);
    var o :| o in sel && Series(o.version) == s;
    SeriesOfRelease(o);
    ReleasesElements(sel);
    assert PatchRelease(o) in rs;
    OfSeriesElements(rs, s);
    var own := OfSeries(rs, s);
    assert PatchRelease(o) in own;
    var p := Newest(own);
    assert ReleaseSeries(p) == s && IsProtected(rs, p);
    CandidatesAre(rs);
    assert p !in Gone(Candidates(rs), k) by { GoneAreCandidates(Candidates(rs), k); }
    var q :| q in sel && PatchRelease(q) == p;
    SeriesOfRelease(q);
    KeepElements(sel, Gone(Candidates(rs), k));
  }

  lemma {:induction false} GoneAreCandidates(cs: seq<Release>, k: nat)
    requires k <= |cs|
    ensures forall r :: r in Gone(cs, k) <==> r in cs[..k]
    ensures forall r :: r in Gone(cs, k) ==> r in cs
  {
  }

  /** Every retained series is the series of some object. */
  lemma {:induction false} SeriesListElements(os: seq<PoolObject>)
    ensures forall s :: s in SeriesNewestFirst(os) <==> exists o :: o in os && Series(o.version) == s
    ensures NewestFirst(SeriesNewestFirst(os))
  {
    hide Series;
    if os != [] {
      var rest, last := os[..|os| - 1], os[|os| - 1];
      SeriesListElements(rest);
      InsertSeriesElements(Series(last.version), SeriesNewestFirst(rest));
      assert os == rest + [last];
      forall s ensures s in SeriesNewestFirst(os) <==> exists o :: o in os && Series(o.version) == s {
        if s in SeriesNewestFirst(rest) {
          var o :| o in rest && Series(o.version) == s;
          assert o in os;
        }
        if s == Series(last.version) { assert last in os; }
      }
    }
  }

  predicate NewestFirst(ss: seq<KernelSeries>) {
    forall i, j :: 0 <= i < j < |ss| ==> SeriesBefore(ss[j], ss[i])
  }

  lemma {:induction false} InsertSeriesElements(s: KernelSeries, ss: seq<KernelSeries>)
    requires NewestFirst(ss)
    ensures NewestFirst(InsertSeries(s, ss))
    ensures forall t :: t in InsertSeries(s, ss) <==> t == s || t in ss
  {
    if ss == [] || SeriesBefore(ss[0], s) || ss[0] == s {
    } else {
      InsertSeriesElements(s, ss[1..]);
      assert forall t :: t in ss <==> t == ss[0] || t in ss[1..];
      var rest := InsertSeries(s, ss[1..]);
      forall k | 0 <= k < |rest| ensures SeriesBefore(rest[k], ss[0]) {
        assert rest[k] in rest;
      }
    }
  }

  lemma {:induction false} RemovalsOfNone(sel: seq<PoolObject>, fixed: nat, cs: seq<Release>, limit: int)
    ensures Gone(cs, 0) == {} && Keep(sel, Gone(cs, 0)) == sel
    ensures fixed + SizeOf(sel) <= limit ==> Removals(sel, fixed, cs, limit, 0) == 0
  {
    GoneNone(cs);
    KeepAll(sel);
  }

  predicate HasSeries(os: set<PoolObject>, s: KernelSeries) {
    exists o :: o in os && Series(o.version) == s
  }

  function ReleaseSet(os: set<PoolObject>): set<Release> {
    set o | o in os :: PatchRelease(o)
  }

  lemma {:induction false} IndexedObjects(m: map<string, PoolObject>, kept: seq<PoolObject>)
    requires Indexes(m, kept)
    ensures m.Keys == KeysOf(kept) && m.Values == set o | o in kept
    ensures ReleaseSet(m.Values) == set r | r in Releases(kept)
  {
    ReleasesElements(kept);
    KeysOfElements(kept);
    forall o | o in kept ensures o in m.Values {
      assert o.key in m;
    }
    forall o | o in m.Values ensures o in kept {
      var key :| key in m && m[key] == o;
      var q :| q in kept && q.key == key;
    }
  }

  lemma {:induction false} SeriesRemain(objects: seq<PoolObject>, count: nat, sel: seq<PoolObject>, k: nat, s: KernelSeries)
    requires sel == InSeries(objects, NewestSeries(objects, count)) && k <= |Candidates(Releases(sel))|
    requires s in NewestSeries(objects, count)
    ensures HasSeries((set o | o in Keep(sel, Gone(Candidates(Releases(sel)), k))), s)
  {
    hide Series, Keep, Candidates, Gone;
    var ss := NewestSeries(objects, count);
    SeriesListElements(objects);
    InSeriesElements(objects, ss);
    assert s in SeriesNewestFirst(objects);
    var o :| o in objects && Series(o.version) == s;
    assert o in sel;
    SeriesStillPresent(sel, s, k);
    var q :| q in Keep(sel, Gone(Candidates(Releases(sel)), k)) && Series(q.version) == s;
    assert q in set o | o in Keep(sel, Gone(Candidates(Releases(sel)), k));
  }

  /** Removal down to the budget, from the dictionary of the selected objects. */
  method FitBudget(sel: seq<PoolObject>, selected: map<string, PoolObject>, groups: map<Release, seq<PoolObject>>,
                   order: seq<Release>, bySeries: map<KernelSeries, seq<Release>>, fixed: nat, limit: int)
    returns (left: map<string, PoolObject>, total: int)
    requires DistinctKeys(sel) && Indexes(selected, sel) && order == Releases(sel)
    requires forall r :: r in groups <==> r in order
    requires forall r: Release :: Pick(sel, {r}) == if r in groups then groups[r] else []
    requires forall s :: s in bySeries ==> bySeries[s] != []
    requires forall s: KernelSeries :: OfSeries(order, s) == if s in bySeries then bySeries[s] else []
    ensures var kept := Keep(sel, Gone(Candidates(order), RemovalCount(sel, fixed, Some(limit))));
            Indexes(left, kept) && total == fixed + SizeOf(kept)
  {
    hide Series, NotNewer, Keep, Pick, Indexes, KeysOf, SizeOf, IsProtected, Releases, CandidatesAmong, Gone;
    var candidates := SortCandidates(order, bySeries);
    ReleasesElements(sel);
    CandidatesAre(order);
    RemovalsOfNone(sel, fixed, candidates, limit);
    left, total := selected, fixed + SizeOf(sel);
    if total > limit {
      left, total := RemoveOldest(sel, groups, candidates, selected, fixed, limit);
    }
  }

  /** The retained releases, each once, none in front of a newer one. */
  ghost predicate ListsNewestFirst(listing: seq<Release>, rs: set<Release>) {
    && Distinct(listing) && (forall q :: q in listing <==> q in rs)
    && forall i, j :: 0 <= i < j < |listing| ==> NotNewer(listing[j], listing[i])
  }

  lemma {:induction false} InsertNewest(r: Release, listing: seq<Release>, i: nat, rs: set<Release>)
    requires ListsNewestFirst(listing, rs) && r !in rs && i <= |listing|
    requires forall k :: 0 <= k < i ==> NotNewer(r, listing[k])
    requires i < |listing| ==> NotNewer(listing[i], r)
    ensures ListsNewestFirst(listing[..i] + [r] + listing[i..], rs + {r})
  {
    hide NotNewer;
    forall k | i <= k < |listing| ensures NotNewer(listing[k], r) {
      if k > i { NotNewerTransitive(listing[k], listing[i], r); }
    }
    Inserted(r, listing, i);
  }

  lemma {:induction false} Inserted(r: Release, listing: seq<Release>, i: nat)
    requires i <= |listing|
    ensures var all := listing[..i] + [r] + listing[i..];
      && (forall k :: 0 <= k < |all| ==> all[k] == if k < i then listing[k] else if k == i then r else listing[k - 1])
      && forall q :: q in all <==> q == r || q in listing
  {
    assert listing == listing[..i] + listing[i..];
  }

  method ListNewestFirst(rs: set<Release>) returns (listing: seq<Release>)
    ensures ListsNewestFirst(listing, rs)
  {
    hide NotNewer, ListsNewestFirst;
    listing := [];
    var rest := rs;
    NothingListed();
    assert rs - rest == {};
    while rest != {}
      invariant rest <= rs && ListsNewestFirst(listing, rs - rest)
      decreases rest
    {
      var r :| r in rest;
      var i := 0;
      while i < |listing| && !NotNewer(listing[i], r)
        invariant i <= |listing| && forall k :: 0 <= k < i ==> NotNewer(r, listing[k])
      {
        NotNewerTotal(listing[i], r);
        i := i + 1;
      }
      InsertNewest(r, listing, i, rs - rest);
      assert rs - (rest - {r}) == rs - rest + {r};
      rest, listing := rest - {r}, listing[..i] + [r] + listing[i..];
    }
    assert rs - {} == rs;
  }

  lemma {:induction false} NothingListed()
    ensures ListsNewestFirst([], {})
  {
  }

  method SelectRetained(objects: seq<PoolObject>, mode: Mode, maxBytes: Option<int>, fixedBytes: int, maxSeries: int)
    returns (r: Result<RetentionDecision, RetentionError>, listing: seq<Release>)
    ensures r == Retain(objects, mode, maxBytes, fixedBytes, maxSeries)
    ensures r != Err(SeriesLost) && r != Err(ReleaseSpansSeries)
    ensures r.Ok? ==> ListsNewestFirst(listing, r.value.retainedReleases)
  {
    hide Series, NotNewer, Keep, Pick, Indexes, KeysOf, SizeOf, InSeries, SeriesNewestFirst, IsProtected;
    hide Releases, CandidatesAmong, Gone, HasSeries, ReleaseSet, OfSeries, DistinctKeys, ListsNewestFirst;
    if maxSeries < 1 || fixedBytes < 0 {
      return Err(InvalidArguments), [];
    }
    if !DistinctKeys(objects) {
      return Err(RepeatedKey), [];
    }
    if !ValidArguments(mode, maxBytes, fixedBytes, maxSeries) {
      return Err(InvalidArguments), [];
    }
    if objects == [] {
      return Err(EmptyPool), [];
    }
    var ss := NewestSeries(objects, maxSeries);
    var sel, selected := IndexObjects(objects, ss);
    var groups, order := GroupReleases(sel);
    var spans, bySeries := GroupSeries(sel, groups, order);
    if spans {
      return Err(ReleaseSpansSeries), [];
    }
    InSeriesElements(objects, ss);
    var total: int := fixedBytes + SizeOf(sel);
    ghost var k := RemovalCount(sel, fixedBytes, maxBytes);
    ghost var kept := Keep(sel, Gone(Candidates(order), k));
    if mode.BySeriesAndSize? {
      selected, total := FitBudget(sel, selected, groups, order, bySeries, fixedBytes, maxBytes.value);
      if total > maxBytes.value {
        return Err(BudgetExceeded), [];
      }
    } else {
      RemovalsOfNone(sel, fixedBytes, Candidates(order), 0);
    }
    IndexedObjects(selected, kept);
    for i := 0 to |ss|
    {
      SeriesRemain(objects, maxSeries, sel, k, ss[i]);
      if !HasSeries(selected.Values, ss[i]) {
        return Err(SeriesLost), [];
      }
    }
    var releases := ReleaseSet(selected.Values);
    listing := ListNewestFirst(releases);
    return Ok(RetentionDecision(mode, selected.Keys, ss, releases, total, fixedBytes, maxBytes)), listing;
  }

  // ---- What a decision guarantees ----

  /** Series outside the retained ones are all older, and only left out when the count is used up. */
  lemma {:induction false} RetainedSeriesAreNewest(os: seq<PoolObject>, count: nat)
    ensures var ss := NewestSeries(os, count);
            && |ss| <= count && NewestFirst(ss)
            && (forall s :: s in ss ==> exists o :: o in os && Series(o.version) == s)
            && (forall o :: o in os && Series(o.version) !in ss ==>
                  |ss| == count && forall s :: s in ss ==> SeriesBefore(Series(o.version), s))
  {
    hide Series;
    SeriesListElements(os);
    var all, ss := SeriesNewestFirst(os), NewestSeries(os, count);
    forall s | s in ss ensures s in all {}
    forall o, s | o in os && Series(o.version) !in ss && s in ss ensures SeriesBefore(Series(o.version), s) {
      assert Series(o.version) in all;
      var i :| 0 <= i < |ss| && ss[i] == s;
      var j :| 0 <= j < |all| && all[j] == Series(o.version);
      assert forall k :: 0 <= k < |ss| ==> ss[k] == all[k];
    }
  }

  /** `dropped` is the shortest oldest-first prefix of the unprotected releases that meets the limit. */
  ghost predicate ShortestPrefix(sel: seq<PoolObject>, fixed: nat, limit: Option<int>, dropped: seq<Release>) {
    exists cs: seq<Release> ::
      && OldestFirst(cs) && Distinct(cs) && dropped <= cs
      && (forall r :: r in cs <==> r in Releases(sel) && !IsProtected(Releases(sel), r))
      && (limit.None? ==> dropped == [])
      && (limit.Some? ==> BytesAfter(sel, fixed, cs, |dropped|) <= limit.value)
      && (limit.Some? ==> forall j :: 0 <= j < |dropped| ==> BytesAfter(sel, fixed, cs, j) > limit.value)
  }

  /** A decision keeps everything in the newest series except the shortest prefix, and counts exactly that. */
  lemma {:induction false} RetentionIsOptimal(objects: seq<PoolObject>, mode: Mode, maxBytes: Option<int>, fixed: int, count: int)
    returns (dropped: seq<Release>)
    requires Retain(objects, mode, maxBytes, fixed, count).Ok?
    ensures var d := Retain(objects, mode, maxBytes, fixed, count).value;
            var sel := InSeries(objects, NewestSeries(objects, count));
            && d.retainedSeries == NewestSeries(objects, count)
            && ShortestPrefix(sel, fixed, maxBytes, dropped)
            && (forall o :: o in objects ==>
                  (o.key in d.retainedKeys <==> Series(o.version) in d.retainedSeries && PatchRelease(o) !in dropped))
            && d.retainedBytes == fixed + SizeOf(Keep(sel, set r | r in dropped))
  {
    hide Series, NotNewer, IsProtected, SeriesNewestFirst, InSeries, Keep, Candidates, Releases, PatchRelease;
    var ss := NewestSeries(objects, count);
    var sel := InSeries(objects, ss);
    var cs, k := Candidates(Releases(sel)), RemovalCount(sel, fixed, maxBytes);
    dropped := cs[..k];
    GoneAreCandidates(cs, k);
    assert Gone(cs, k) == set r | r in dropped;
    RemovalsAreShortest(sel, fixed, maxBytes);
    forall o | o in objects
      ensures o.key in KeysOf(Keep(sel, Gone(cs, k))) <==> Series(o.version) in ss && PatchRelease(o) !in dropped
    {
      KeptKeys(objects, ss, Gone(cs, k), o);
    }
  }

  lemma {:induction false} RemovalsAreShortest(sel: seq<PoolObject>, fixed: nat, maxBytes: Option<int>)
    requires maxBytes.Some? ==>
               BytesAfter(sel, fixed, Candidates(Releases(sel)), RemovalCount(sel, fixed, maxBytes)) <= maxBytes.value
    ensures ShortestPrefix(sel, fixed, maxBytes, Candidates(Releases(sel))[..RemovalCount(sel, fixed, maxBytes)])
  {
    hide NotNewer, IsProtected, Keep, CandidatesAmong;
    ReleasesElements(sel);
    CandidatesAre(Releases(sel));
    var cs, k := Candidates(Releases(sel)), RemovalCount(sel, fixed, maxBytes);
    assert cs[..k] <= cs && |cs[..k]| == k;
  }

  lemma {:induction false} KeptKeys(objects: seq<PoolObject>, ss: seq<KernelSeries>, gone: set<Release>, o: PoolObject)
    requires DistinctKeys(objects) && o in objects
    ensures o.key in KeysOf(Keep(InSeries(objects, ss), gone))
       <==> Series(o.version) in ss && PatchRelease(o) !in gone
  {
    hide Series, PatchRelease, InSeries, Keep;
    var kept := Keep(InSeries(objects, ss), gone);
    InSeriesElements(objects, ss);
    KeepElements(InSeries(objects, ss), gone);
    KeysOfElements(kept);
    if o.key in KeysOf(kept) {
      var q :| q in kept && q.key == o.key;
      SameKeySameObject(objects, o, q);
    }
  }

  /** A release is never split: its objects are kept or dropped together. */
  lemma {:induction false} ReleasesStayWhole(objects: seq<PoolObject>, mode: Mode, maxBytes: Option<int>, fixed: int, count: int,
                          a: PoolObject, b: PoolObject)
    requires Retain(objects, mode, maxBytes, fixed, count).Ok?
    requires a in objects && b in objects && PatchRelease(a) == PatchRelease(b)
    ensures var keys := Retain(objects, mode, maxBytes, fixed, count).value.retainedKeys;
            a.key in keys <==> b.key in keys
  {
    var dropped := RetentionIsOptimal(objects, mode, maxBytes, fixed, count);
    SeriesOfRelease(a);
    SeriesOfRelease(b);
  }

  function ProtectedReleases(sel: seq<PoolObject>): set<Release> {
    set r | r in Releases(sel) && IsProtected(Releases(sel), r)
  }

  lemma {:induction false} PickIsKeep(os: seq<PoolObject>, rs: set<Release>, gone: set<Release>)
    requires forall o :: o in os ==> (PatchRelease(o) in rs <==> PatchRelease(o) !in gone)
    ensures Pick(os, rs) == Keep(os, gone)
  {
    if os != [] {
      assert os == os[..|os| - 1] + [os[|os| - 1]];
      PickIsKeep(os[..|os| - 1], rs, gone);
    }
  }

  lemma {:induction false} ProtectedIsTheFloor(sel: seq<PoolObject>)
    ensures var cs := Candidates(Releases(sel));
            Keep(sel, Gone(cs, |cs|)) == Pick(sel, ProtectedReleases(sel))
  {
    hide NotNewer, IsProtected;
    var rs, cs := Releases(sel), Candidates(Releases(sel));
    ReleasesElements(sel);
    CandidatesAre(rs);
    GoneAreCandidates(cs, |cs|);
    assert cs[..|cs|] == cs;
    PickIsKeep(sel, ProtectedReleases(sel), Gone(cs, |cs|));
  }

  lemma {:induction false} KeepShrinks(os: seq<PoolObject>, a: set<Release>, b: set<Release>)
    requires a <= b
    ensures SizeOf(Keep(os, b)) <= SizeOf(Keep(os, a))
  {
    if os != [] {
      var rest, last := os[..|os| - 1], os[|os| - 1];
      KeepShrinks(rest, a, b);
      SizeAppend(Keep(rest, a), last);
      SizeAppend(Keep(rest, b), last);
    }
  }

  lemma {:induction false} GoneGrows(cs: seq<Release>, k: nat)
    requires k <= |cs|
    ensures Gone(cs, k) <= Gone(cs, |cs|)
  {
  }

  /** Retention fails for lack of space exactly when the protected releases alone do not fit. */
  lemma {:induction false} FailsIffProtectedExceed(objects: seq<PoolObject>, limit: int, fixed: nat, count: nat)
    requires objects != [] && DistinctKeys(objects) && count >= 1 && limit >= 1
    ensures var sel := InSeries(objects, NewestSeries(objects, count));
            var r := Retain(objects, BySeriesAndSize, Some(limit), fixed, count);
            && (r == Err(BudgetExceeded) <==> fixed + SizeOf(Pick(sel, ProtectedReleases(sel))) > limit)
            && (r.Ok? || r == Err(BudgetExceeded))
  {
    hide InSeries, NewestSeries, Keep, Pick, Releases, Candidates, SizeOf, ProtectedReleases, Gone, KeysOf;
    var sel := InSeries(objects, NewestSeries(objects, count));
    var cs := Candidates(Releases(sel));
    ProtectedIsTheFloor(sel);
    var k := RemovalCount(sel, fixed, Some(limit));
    GoneGrows(cs, k);
    KeepShrinks(sel, Gone(cs, k), Gone(cs, |cs|));
  }

  /** A larger budget never turns success into failure and never drops an object a smaller one kept. */
  lemma {:induction false} MonotoneInBudget(objects: seq<PoolObject>, small: int, large: int, fixed: nat, count: nat)
    requires 1 <= small <= large
    requires Retain(objects, BySeriesAndSize, Some(small), fixed, count).Ok?
    ensures Retain(objects, BySeriesAndSize, Some(large), fixed, count).Ok?
    ensures Retain(objects, BySeriesAndSize, Some(small), fixed, count).value.retainedKeys
         <= Retain(objects, BySeriesAndSize, Some(large), fixed, count).value.retainedKeys
  {
    hide Series, NotNewer, IsProtected, SeriesNewestFirst;
    var sel := InSeries(objects, NewestSeries(objects, count));
    var cs := Candidates(Releases(sel));
    var s, l := RemovalCount(sel, fixed, Some(small)), RemovalCount(sel, fixed, Some(large));
    assert BytesAfter(sel, fixed, cs, s) <= small;
    assert Gone(cs, l) <= Gone(cs, s);
    KeepElements(sel, Gone(cs, l));
    KeepElements(sel, Gone(cs, s));
    KeysOfElements(Keep(sel, Gone(cs, l)));
    KeysOfElements(Keep(sel, Gone(cs, s)));
  }

  // ---- The newest release ----

  /** After X the text has ended, continues with `.` and a digit, or with a character below `.`. */
  predicate RegularUpstream(s: string) {
    var rest := s[DigitCount(s)..];
    rest != "" ==>
      if rest[0] == '.' then |rest| > 1 && IsDigit(rest[1]) else Order(rest[0]) < Order('.')
  }

  /** For regular upstream versions the series order agrees with the version order. */
  lemma {:induction false} SeriesOrderAgrees(a: string, b: string)
    requires IsUpstream(a) && IsUpstream(b) && RegularUpstream(a) && RegularUpstream(b)
    requires SeriesBefore(Series(DebianVersion(0, a, "", a)), Series(DebianVersion(0, b, "", b)))
    ensures Fragment(a, b) < 0
  {
    hide Fragment;
    var n, m := DigitCount(a), DigitCount(b);
    assert a[0..] == a && b[0..] == b && a[0..n] == a[..n] && b[0..m] == b[..m];
    NumberStep(a, b, 0, 0, n, m);
    if Value(a[..n]) == Value(b[..m]) {
      MinorOrder(a[n..], b[m..]);
    }
  }

  lemma {:induction false} MinorOrder(p: string, q: string)
    requires p != "" ==> !IsDigit(p[0])
    requires p != "" ==> if p[0] == '.' then |p| > 1 && IsDigit(p[1]) else Order(p[0]) < Order('.')
    requires Minor(p) < Minor(q)
    ensures Fragment(p, q) < 0
  {
    hide Fragment;
    assert p[0..] == p && q[0..] == q;
    TextStep(p, q, 0, 0);
    if p != "" && p[0] == '.' {
      NumeralBehindDot(p);
      NumeralBehindDot(q);
      NumberStep(p, q, 1, 1, 1 + DigitCount(p[1..]), 1 + DigitCount(q[1..]));
    }
  }

  lemma {:induction false} NumeralBehindDot(s: string)
    requires s != ""
    ensures var n := DigitCount(s[1..]); Numeral(s, 1, 1 + n) && s[1..][..n] == s[1..1 + n]
  {
    hide DigitCount;
    var n := DigitCount(s[1..]);
    forall k | 1 <= k < 1 + n ensures IsDigit(s[k]) { assert s[k] == s[1..][k - 1]; }
    if n < |s[1..]| { assert s[1 + n] == s[1..][n]; }
  }

  lemma {:induction false} NewestIsNewest(rs: seq<Release>, r: Release)
    requires r in rs
    ensures NotNewer(r, Newest(rs))
  {
    hide NotNewer;
    NotNewerTotal(r, r);
    if |rs| > 1 {
      var rest, last := rs[..|rs| - 1], rs[|rs| - 1];
      assert rs == rest + [last];
      var best := Newest(rest);
      NotNewerTotal(last, best);
      NotNewerTotal(last, last);
      if r in rest {
        NewestIsNewest(rest, r);
        if !NotNewer(last, best) { NotNewerTransitive(r, best, last); }
      }
    }
  }

  /** Exactly one release of every series that is left is protected: one that no other is newer than. */
  lemma {:induction false} OneIsProtected(sel: seq<PoolObject>, o: PoolObject) returns (p: Release)
    requires o in sel
    ensures p in Releases(sel) && ReleaseSeries(p) == Series(o.version) && IsProtected(Releases(sel), p)
    ensures forall q :: q in Releases(sel) && ReleaseSeries(q) == ReleaseSeries(p) ==> NotNewer(q, p)
    ensures forall q :: IsProtected(Releases(sel), q) && ReleaseSeries(q) == ReleaseSeries(p) ==> q == p
  {
    hide NotNewer, Series;
    var rs, s := Releases(sel), ReleaseSeries(PatchRelease(o));
    ReleasesElements(sel);
    SeriesOfRelease(o);
    OfSeriesElements(rs, s);
    var own := OfSeries(rs, s);
    assert PatchRelease(o) in own;
    p := Newest(own);
    forall q | q in own ensures NotNewer(q, p) { NewestIsNewest(own, q); }
  }

  lemma {:induction false} NewerSeriesIsNewer(a: PoolObject, b: PoolObject)
    requires a.version.epoch == b.version.epoch && SeriesBefore(Series(a.version), Series(b.version))
    requires IsUpstream(a.version.upstream) && RegularUpstream(a.version.upstream)
    requires IsUpstream(b.version.upstream) && RegularUpstream(b.version.upstream)
    ensures !NotNewer(PatchRelease(b), PatchRelease(a))
  {
    hide Fragment;
    SeriesOrderAgrees(a.version.upstream, b.version.upstream);
    FragmentAntisymmetric(a.version.upstream, b.version.upstream);
  }

  lemma {:induction false} NewestSeriesIsRetained(objects: seq<PoolObject>, count: nat, newest: PoolObject)
    requires count >= 1 && newest in objects
    requires forall o :: o in objects ==> NotNewer(PatchRelease(o), PatchRelease(newest))
    requires forall o :: o in objects ==>
               o.version.epoch == newest.version.epoch && IsUpstream(o.version.upstream) && RegularUpstream(o.version.upstream)
    ensures Series(newest.version) in NewestSeries(objects, count)
  {
    hide Series, NotNewer, RegularUpstream, SeriesNewestFirst;
    var s, ss := Series(newest.version), NewestSeries(objects, count);
    RetainedSeriesAreNewest(objects, count);
    if s !in ss {
      assert ss[0] in ss;
      var o :| o in objects && Series(o.version) == ss[0];
      NewerSeriesIsNewer(newest, o);
    }
  }

  /** With one epoch and regular upstream versions the newest release of the pool is always kept. */
  lemma {:induction false} NewestReleaseIsKept(objects: seq<PoolObject>, mode: Mode, maxBytes: Option<int>, fixed: int, count: int,
                            newest: PoolObject)
    returns (kept: PoolObject)
    requires Retain(objects, mode, maxBytes, fixed, count).Ok?
    requires newest in objects && forall o :: o in objects ==> NotNewer(PatchRelease(o), PatchRelease(newest))
    requires forall o :: o in objects ==>
               o.version.epoch == newest.version.epoch && IsUpstream(o.version.upstream) && RegularUpstream(o.version.upstream)
    ensures kept in objects && kept.key in Retain(objects, mode, maxBytes, fixed, count).value.retainedKeys
    ensures forall o :: o in objects ==> NotNewer(PatchRelease(o), PatchRelease(kept))
  {
    hide Series, NotNewer, RegularUpstream, SeriesNewestFirst, Keep;
    NewestSeriesIsRetained(objects, count, newest);
    kept := NewestOfSeries(objects, mode, maxBytes, fixed, count, Series(newest.version), newest);
    forall o | o in objects ensures NotNewer(PatchRelease(o), PatchRelease(kept)) {
      NotNewerTransitive(PatchRelease(o), PatchRelease(newest), PatchRelease(kept));
    }
  }

  /** The newest release of every retained series is kept. */
  lemma {:induction false} NewestOfSeries(objects: seq<PoolObject>, mode: Mode, maxBytes: Option<int>, fixed: int, count: int,
                       s: KernelSeries, o: PoolObject)
    returns (kept: PoolObject)
    requires Retain(objects, mode, maxBytes, fixed, count).Ok?
    requires s in NewestSeries(objects, count) && o in objects && Series(o.version) == s
    ensures kept in objects && Series(kept.version) == s
    ensures kept.key in Retain(objects, mode, maxBytes, fixed, count).value.retainedKeys
    ensures NotNewer(PatchRelease(o), PatchRelease(kept))
  {
    hide Series, NotNewer, SeriesNewestFirst, Keep;
    var dropped := RetentionIsOptimal(objects, mode, maxBytes, fixed, count);
    var ss := NewestSeries(objects, count);
    var sel := InSeries(objects, ss);
    InSeriesElements(objects, ss);
    ReleasesElements(sel);
    var rs := Releases(sel);
    SeriesOfRelease(o);
    assert PatchRelease(o) in rs;
    OfSeriesElements(rs, s);
    var own := OfSeries(rs, s);
    var p := Newest(own);
    NewestIsNewest(own, PatchRelease(o));
    kept :| kept in sel && PatchRelease(kept) == p;
    SeriesOfRelease(kept);
    assert IsProtected(rs, p);
  }

  // ---- Series as they are spelled ----

  ghost predicate AllUpstream(objects: seq<PoolObject>) {
    forall o :: o in objects ==> IsUpstream(o.version.upstream)
  }

  /** Objects of one X.Y stay only if X.Y is retained, and then a release that spells the same X.Y and is
      not older stays; other series never stand in for it. */
  lemma {:induction false} NewestOfSpelledSeries(objects: seq<PoolObject>, mode: Mode, maxBytes: Option<int>, fixed: int,
                                                 count: int, x: nat, y: nat, o: PoolObject)
    returns (kept: PoolObject)
    requires Retain(objects, mode, maxBytes, fixed, count).Ok? && AllUpstream(objects)
    requires o in objects && Spells(o.version.upstream, x, y)
    ensures var d := Retain(objects, mode, maxBytes, fixed, count).value;
      && ((x, y) !in d.retainedSeries ==> o.key !in d.retainedKeys)
      && ((x, y) in d.retainedSeries ==>
            && kept in objects && kept.key in d.retainedKeys && Spells(kept.version.upstream, x, y)
            && NotNewer(PatchRelease(o), PatchRelease(kept)))
  {
    hide *;
    assert IsUpstream(o.version.upstream) by { UpstreamOf(objects, o); }
    SeriesIffSpelled(o.version, x, y);
    var dropped := RetentionIsOptimal(objects, mode, maxBytes, fixed, count);
    kept := o;
    if (x, y) in Retain(objects, mode, maxBytes, fixed, count).value.retainedSeries {
      kept := NewestOfSeries(objects, mode, maxBytes, fixed, count, (x, y), o);
      assert IsUpstream(kept.version.upstream) by { UpstreamOf(objects, kept); }
      SeriesIffSpelled(kept.version, x, y);
    }
  }

  lemma {:induction false} UpstreamOf(objects: seq<PoolObject>, o: PoolObject)
    requires AllUpstream(objects) && o in objects
    ensures IsUpstream(o.version.upstream)
  {
  }

  /** The retained series are the greatest `count` of all X.Y that the pool spells, each of which counts. */
  lemma {:induction false} RetainedSeriesAreSpelled(objects: seq<PoolObject>, count: nat, x: nat, y: nat)
    requires AllUpstream(objects)
    ensures var ss := NewestSeries(objects, count);
      && ((x, y) in ss ==> exists o :: o in objects && Spells(o.version.upstream, x, y))
      && ((exists o :: o in objects && Spells(o.version.upstream, x, y)) && (x, y) !in ss ==>
            |ss| == count && NewestFirst(ss) && forall s :: s in ss ==> SeriesBefore((x, y), s))
  {
    hide Series, NewestSeries, NewestFirst, Spells, IsUpstream;
    RetainedSeriesAreNewest(objects, count);
    forall o | o in objects ensures Series(o.version) == (x, y) <==> Spells(o.version.upstream, x, y) {
      SeriesIffSpelled(o.version, x, y);
    }
  }
}
