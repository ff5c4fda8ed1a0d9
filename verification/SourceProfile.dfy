/** Registry of per-series source profiles: an accepted registry gives every version at most one profile. */
module SourceProfiles {
  import opened Outcome
  import opened Text
  import opened VersionOrder
  import opened DebianVersions

  type KernelSeries = (nat, nat)

  /** A profile's version bounds; the other reviewed fields play no part in selection. */
  datatype SourceProfile = SourceProfile(
    id: string,
    series: KernelSeries,
    reviewed: DebianVersion,
    first: Option<DebianVersion>,
    before: Option<DebianVersion>)

  datatype ProfileError =
    | NoProfiles
    | EmptyRange(id: string)
    | ReviewedNotCovered(id: string)
    | Overlap(earlier: string, later: string)
    | NoMatch
    | SeveralMatches

  predicate Covers(p: SourceProfile, v: DebianVersion) {
    && Series(v) == p.series
    && (p.first.Some? ==> Compare(v, p.first.value) >= 0)
    && (p.before.Some? ==> Compare(v, p.before.value) < 0)
  }

  predicate NonEmptyRange(p: SourceProfile) {
    p.first.Some? && p.before.Some? ==> Compare(p.first.value, p.before.value) < 0
  }

  predicate NonEmptyRanges(ms: seq<SourceProfile>) {
    forall k :: 0 <= k < |ms| ==> NonEmptyRange(ms[k])
  }

  /** What `load_profile` requires of one profile's range. */
  predicate Loadable(p: SourceProfile) {
    NonEmptyRange(p) && Covers(p, p.reviewed)
  }

  // ---- Sorting the members of one series by their first version ----

  /** Stands in the sort for an absent lower bound. */
  const LOWEST := DebianVersion(0, "0~", "", "0~")

  /** The sort key `first_source_version or "0~"`. */
  function SortKey(p: SourceProfile): DebianVersion {
    if p.first.Some? then p.first.value else LOWEST
  }

  /** Stable insertion of one profile behind its equals. */
  function Insert(p: SourceProfile, ms: seq<SourceProfile>): seq<SourceProfile> {
    if ms != [] && Compare(SortKey(ms[0]), SortKey(p)) <= 0 then [ms[0]] + Insert(p, ms[1..]) else [p] + ms
  }

  function SortByFirst(ms: seq<SourceProfile>): seq<SourceProfile> {
    if ms == [] then [] else Insert(ms[|ms| - 1], SortByFirst(ms[..|ms| - 1]))
  }

  function Members(ps: seq<SourceProfile>, s: KernelSeries): seq<SourceProfile> {
    if ps == [] then []
    else
      var rest, last := Members(ps[..|ps| - 1], s), ps[|ps| - 1];
      if last.series == s then rest + [last] else rest
  }

  predicate NeighboursApart(earlier: SourceProfile, later: SourceProfile) {
    earlier.before.Some? && later.first.Some? && Compare(earlier.before.value, later.first.value) <= 0
  }

  predicate Apart(ms: seq<SourceProfile>) {
    forall i :: 0 <= i < |ms| - 1 ==> NeighboursApart(ms[i], ms[i + 1])
  }

  /** A registry without overlapping neighbours in any series. */
  ghost predicate Accepted(ps: seq<SourceProfile>) {
    && ps != []
    && (forall i :: 0 <= i < |ps| ==> Loadable(ps[i]))
    && forall s: KernelSeries :: Apart(SortByFirst(Members(ps, s)))
  }

  /** Grouping by series; `order` is the insertion order of the dictionary. */
  method GroupBySeries(entries: seq<SourceProfile>)
    returns (bySeries: map<KernelSeries, seq<SourceProfile>>, order: seq<KernelSeries>)
    ensures forall s :: s in order <==> s in bySeries
    ensures forall s: KernelSeries :: Members(entries, s) == if s in bySeries then bySeries[s] else []
  {
    bySeries, order := map[], [];
    for i := 0 to |entries|
      invariant forall s :: s in order <==> s in bySeries
      invariant forall s: KernelSeries :: Members(entries[..i], s) == if s in bySeries then bySeries[s] else []
    {
      var p := entries[i];
      assert entries[..i + 1][..i] == entries[..i];
      if p.series !in bySeries {
        order := order + [p.series];
        bySeries := bySeries[p.series := []];
      }
      bySeries := bySeries[p.series := bySeries[p.series] + [p]];
    }
    assert entries[..|entries|] == entries;
  }

  method CheckProfile(p: SourceProfile) returns (r: Option<ProfileError>)
    ensures r.None? <==> Loadable(p)
    ensures r.Some? ==> r.value.EmptyRange? || r.value.ReviewedNotCovered?
  {
    if p.first.Some? && p.before.Some? {
      var order := CompareVersions(p.first.value, p.before.value);
      if order >= 0 {
        return Some(EmptyRange(p.id));
      }
    }
    return if Covers(p, p.reviewed) then None else Some(ReviewedNotCovered(p.id));
  }

  method CheckNeighbours(members: seq<SourceProfile>) returns (r: Option<ProfileError>)
    ensures r.None? <==> Apart(members)
    ensures r.Some? ==> r.value.Overlap?
  {
    var k := 0;
    while k + 1 < |members|
      invariant forall j :: 0 <= j < k && j + 1 < |members| ==> NeighboursApart(members[j], members[j + 1])
    {
      if !NeighboursApart(members[k], members[k + 1]) {
        return Some(Overlap(members[k].id, members[k + 1].id));
      }
      k := k + 1;
    }
    return None;
  }

  method LoadProfiles(entries: seq<SourceProfile>) returns (r: Result<seq<SourceProfile>, ProfileError>)
    ensures r.Ok? <==> Accepted(entries)
    ensures r.Ok? ==> r.value == entries
    ensures r.Err? ==> !r.error.NoMatch? && !r.error.SeveralMatches?
  {
    hide Members, SortByFirst, Apart, Loadable, Covers;
    for i := 0 to |entries|
      invariant forall k :: 0 <= k < i ==> Loadable(entries[k])
    {
      var problem := CheckProfile(entries[i]);
      if problem.Some? {
        return Err(problem.value);
      }
    }
    if entries == [] {
      return Err(NoProfiles);
    }
    var bySeries, order := GroupBySeries(entries);
    for i := 0 to |order|
      invariant forall k :: 0 <= k < i ==> Apart(SortByFirst(Members(entries, order[k])))
    {
      assert order[i] in bySeries;
      var problem := CheckNeighbours(SortByFirst(bySeries[order[i]]));
      if problem.Some? {
        return Err(problem.value);
      }
    }
    forall s: KernelSeries ensures Apart(SortByFirst(Members(entries, s))) {
      if s in order {
        var k :| 0 <= k < |order| && order[k] == s;
      } else {
        NoMembersApart();
      }
    }
    return Ok(entries);
  }

  lemma {:induction false} NoMembersApart()
    ensures Apart(SortByFirst([]))
  {
  }

  // ---- At most one profile covers a version ----

  function Matches(ps: seq<SourceProfile>, v: DebianVersion): seq<SourceProfile> {
    if ps == [] then []
    else
      var rest, last := Matches(ps[..|ps| - 1], v), ps[|ps| - 1];
      if Covers(last, v) then rest + [last] else rest
  }

  function CountMatches(ps: seq<SourceProfile>, v: DebianVersion): nat {
    if ps == [] then 0 else (if Covers(ps[0], v) then 1 else 0) + CountMatches(ps[1..], v)
  }

  lemma {:induction false} CountInsert(p: SourceProfile, ms: seq<SourceProfile>, v: DebianVersion)
    ensures CountMatches(Insert(p, ms), v) == CountMatches(ms, v) + if Covers(p, v) then 1 else 0
  {
    if ms != [] && Compare(SortKey(ms[0]), SortKey(p)) <= 0 {
      CountInsert(p, ms[1..], v);
      assert Insert(p, ms)[1..] == Insert(p, ms[1..]);
    } else {
      assert ([p] + ms)[1..] == ms;
    }
  }

  /** Sorting the members of the version's series loses no match and adds none. */
  lemma {:induction false} MatchesAreCounted(ps: seq<SourceProfile>, v: DebianVersion)
    ensures |Matches(ps, v)| == CountMatches(SortByFirst(Members(ps, Series(v))), v)
  {
    if ps != [] {
      var rest, last := ps[..|ps| - 1], ps[|ps| - 1];
      MatchesAreCounted(rest, v);
      var ms := Members(rest, Series(v));
      if last.series == Series(v) {
        assert (ms + [last])[..|ms|] == ms;
        CountInsert(last, SortByFirst(ms), v);
      }
    }
  }

  /** Ranges that are apart from their neighbour are apart from every later range. */
  lemma {:induction false} AllApart(ms: seq<SourceProfile>, i: nat, j: nat)
    requires i < j < |ms| && Apart(ms) && NonEmptyRanges(ms)
    ensures NeighboursApart(ms[i], ms[j])
  {
    assert NeighboursApart(ms[j - 1], ms[j]);
    if i < j - 1 {
      AllApart(ms, i, j - 1);
      var b, f, g := ms[i].before.value, ms[j - 1].first.value, ms[j - 1].before.value;
      CompareTransitive(b, f, g);
      CompareTransitive(b, g, ms[j].first.value);
    }
  }

  lemma {:induction false} ApartExcludes(p: SourceProfile, q: SourceProfile, v: DebianVersion)
    requires NeighboursApart(p, q) && Covers(p, v)
    ensures !Covers(q, v)
  {
    CompareTransitive(v, p.before.value, q.first.value);
  }

  lemma {:induction false} ApartTail(ms: seq<SourceProfile>)
    requires ms != [] && Apart(ms)
    ensures Apart(ms[1..])
  {
    forall i | 0 <= i < |ms| - 2 ensures NeighboursApart(ms[1..][i], ms[1..][i + 1]) {
      assert NeighboursApart(ms[i + 1], ms[i + 1 + 1]);
    }
  }

  lemma {:induction false} ApartCountsOnce(ms: seq<SourceProfile>, v: DebianVersion)
    requires Apart(ms) && NonEmptyRanges(ms)
    ensures CountMatches(ms, v) <= 1
  {
    if ms != [] {
      ApartTail(ms);
      ApartCountsOnce(ms[1..], v);
      if Covers(ms[0], v) {
        forall k | 1 <= k < |ms| ensures !Covers(ms[k], v) {
          AllApart(ms, 0, k);
          ApartExcludes(ms[0], ms[k], v);
        }
        NoneCovers(ms[1..], v);
      }
    }
  }

  lemma {:induction false} NoneCovers(ms: seq<SourceProfile>, v: DebianVersion)
    requires forall k :: 0 <= k < |ms| ==> !Covers(ms[k], v)
    ensures CountMatches(ms, v) == 0
  {
    if ms != [] { NoneCovers(ms[1..], v); }
  }

  lemma {:induction false} InsertKeepsRanges(p: SourceProfile, ms: seq<SourceProfile>)
    requires NonEmptyRange(p) && NonEmptyRanges(ms)
    ensures NonEmptyRanges(Insert(p, ms))
  {
    if ms != [] && Compare(SortKey(ms[0]), SortKey(p)) <= 0 { InsertKeepsRanges(p, ms[1..]); }
  }

  lemma {:induction false} SortedRanges(ps: seq<SourceProfile>, s: KernelSeries)
    requires NonEmptyRanges(ps)
    ensures NonEmptyRanges(SortByFirst(Members(ps, s)))
  {
    if ps != [] {
      var rest, last := ps[..|ps| - 1], ps[|ps| - 1];
      SortedRanges(rest, s);
      var ms := Members(rest, s);
      if last.series == s {
        assert (ms + [last])[..|ms|] == ms;
        InsertKeepsRanges(last, SortByFirst(ms));
      }
    }
  }

  /** If a registry is accepted then every Debian version has at most one profile. */
  lemma {:induction false} AtMostOneProfile(ps: seq<SourceProfile>, v: DebianVersion)
    requires Accepted(ps)
    ensures |Matches(ps, v)| <= 1
    ensures forall i, j :: 0 <= i < j < |ps| ==> !(Covers(ps[i], v) && Covers(ps[j], v))
  {
    MatchesAreCounted(ps, v);
    SortedRanges(ps, Series(v));
    ApartCountsOnce(SortByFirst(Members(ps, Series(v))), v);
    forall i, j | 0 <= i < j < |ps| && Covers(ps[i], v) && Covers(ps[j], v) ensures false {
      TwoMatches(ps, v, i, j);
    }
  }

  lemma {:induction false} TwoMatches(ps: seq<SourceProfile>, v: DebianVersion, i: nat, j: nat)
    requires i < j < |ps| && Covers(ps[i], v) && Covers(ps[j], v)
    ensures |Matches(ps, v)| >= 2
    decreases |ps|
  {
    var rest := ps[..|ps| - 1];
    if j == |ps| - 1 { OneMatch(rest, v, i); } else { TwoMatches(rest, v, i, j); }
  }

  lemma {:induction false} OneMatch(ps: seq<SourceProfile>, v: DebianVersion, i: nat)
    requires i < |ps| && Covers(ps[i], v)
    ensures |Matches(ps, v)| >= 1 && exists k :: 0 <= k < |ps| && Matches(ps, v)[0] == ps[k] && Covers(ps[k], v)
  {
    var rest := ps[..|ps| - 1];
    if i < |ps| - 1 {
      OneMatch(rest, v, i);
      var k :| 0 <= k < |rest| && Matches(rest, v)[0] == rest[k] && Covers(rest[k], v);
      assert Matches(ps, v)[0] == ps[k];
    } else if Matches(rest, v) != [] {
      MatchesCover(rest, v);
      var k :| 0 <= k < |rest| && Matches(rest, v)[0] == rest[k] && Covers(rest[k], v);
      assert Matches(ps, v)[0] == ps[k];
    }
  }

  lemma {:induction false} MatchesCover(ps: seq<SourceProfile>, v: DebianVersion)
    ensures Matches(ps, v) != [] ==>
              exists k :: 0 <= k < |ps| && Matches(ps, v)[0] == ps[k] && Covers(ps[k], v)
  {
    if ps != [] {
      var rest := ps[..|ps| - 1];
      MatchesCover(rest, v);
      if Matches(rest, v) != [] {
        var k :| 0 <= k < |rest| && Matches(rest, v)[0] == rest[k] && Covers(rest[k], v);
        assert Matches(ps, v) != [] && Matches(ps, v)[0] == ps[k];
      } else if Covers(ps[|ps| - 1], v) {
        assert Matches(ps, v) == [ps[|ps| - 1]];
      }
    }
  }

  // ---- Separated ranges are accepted whatever order they are listed in ----

  predicate Separated(p: SourceProfile, q: SourceProfile) {
    NeighboursApart(p, q) || NeighboursApart(q, p)
  }

  predicate AllSeparated(ms: seq<SourceProfile>) {
    forall i, j :: 0 <= i < j < |ms| ==> Separated(ms[i], ms[j])
  }

  predicate Sorted(ms: seq<SourceProfile>) {
    forall i, j :: 0 <= i < j < |ms| ==> Compare(SortKey(ms[i]), SortKey(ms[j])) <= 0
  }

  lemma {:induction false} InsertSorts(p: SourceProfile, ms: seq<SourceProfile>)
    requires Sorted(ms)
    ensures Sorted(Insert(p, ms))
    ensures forall q :: q in Insert(p, ms) <==> q == p || q in ms
  {
    if ms != [] && Compare(SortKey(ms[0]), SortKey(p)) <= 0 {
      InsertSorts(p, ms[1..]);
      assert forall q :: q in ms <==> q == ms[0] || q in ms[1..];
      var rest := Insert(p, ms[1..]);
      forall k | 0 <= k < |rest| ensures Compare(SortKey(ms[0]), SortKey(rest[k])) <= 0 {
        assert rest[k] in rest;
      }
    } else if ms != [] {
      CompareAntisymmetric(SortKey(ms[0]), SortKey(p));
      forall k | 0 <= k < |ms| ensures Compare(SortKey(p), SortKey(ms[k])) <= 0 {
        if k > 0 { CompareTransitive(SortKey(p), SortKey(ms[0]), SortKey(ms[k])); }
      }
    }
  }

  lemma {:induction false} InsertSeparated(p: SourceProfile, ms: seq<SourceProfile>)
    requires AllSeparated(ms) && forall k :: 0 <= k < |ms| ==> Separated(ms[k], p)
    ensures AllSeparated(Insert(p, ms))
    ensures forall q :: q in Insert(p, ms) ==> q == p || q in ms
  {
    if ms != [] && Compare(SortKey(ms[0]), SortKey(p)) <= 0 {
      InsertSeparated(p, ms[1..]);
      var rest := Insert(p, ms[1..]);
      forall k | 0 <= k < |rest| ensures Separated(ms[0], rest[k]) {
        assert rest[k] in rest;
        if rest[k] != p {
          var j :| 0 <= j < |ms[1..]| && ms[1..][j] == rest[k];
          assert Separated(ms[0], ms[j + 1]);
        }
      }
    }
  }

  lemma {:induction false} SortSeparates(ms: seq<SourceProfile>)
    requires AllSeparated(ms)
    ensures AllSeparated(SortByFirst(ms)) && Sorted(SortByFirst(ms))
    ensures forall q :: q in SortByFirst(ms) ==> q in ms
  {
    if ms != [] {
      var rest, last := ms[..|ms| - 1], ms[|ms| - 1];
      SortSeparates(rest);
      forall k | 0 <= k < |SortByFirst(rest)| ensures Separated(SortByFirst(rest)[k], last) {
        assert SortByFirst(rest)[k] in SortByFirst(rest);
        var j :| 0 <= j < |rest| && rest[j] == SortByFirst(rest)[k];
        assert Separated(ms[j], ms[|ms| - 1]);
      }
      InsertSeparated(last, SortByFirst(rest));
      InsertSorts(last, SortByFirst(rest));
    }
  }

  lemma {:induction false} MembersSeparated(ps: seq<SourceProfile>, s: KernelSeries)
    requires forall i, j :: 0 <= i < j < |ps| && ps[i].series == ps[j].series ==> Separated(ps[i], ps[j])
    ensures AllSeparated(Members(ps, s))
    ensures forall q :: q in Members(ps, s) ==> q.series == s && q in ps
  {
    if ps != [] {
      var rest, last := ps[..|ps| - 1], ps[|ps| - 1];
      MembersSeparated(rest, s);
      var ms := Members(rest, s);
      forall k | 0 <= k < |ms| && last.series == s ensures Separated(ms[k], last) {
        assert ms[k] in ms;
        var j :| 0 <= j < |rest| && rest[j] == ms[k];
        assert Separated(ps[j], ps[|ps| - 1]);
      }
    }
  }

  lemma {:induction false} SortedNeighbours(p: SourceProfile, q: SourceProfile)
    requires Separated(p, q) && Compare(SortKey(p), SortKey(q)) <= 0
    requires NonEmptyRange(q) && (p.first.Some? ==> Compare(LOWEST, p.first.value) < 0)
    ensures NeighboursApart(p, q)
  {
    if NeighboursApart(q, p) {
      if q.first.Some? {
        CompareTransitive(q.first.value, q.before.value, p.first.value);
      }
      CompareAntisymmetric(SortKey(p), SortKey(q));
    }
  }

  /** No version `0~` of anything: the number it begins with is positive, or no tilde follows. */
  predicate IsOrdinary(v: DebianVersion) {
    && IsUpstream(v.upstream)
    && var n := DigitCount(v.upstream);
       v.epoch > 0 || Value(v.upstream[..n]) > 0 || n == |v.upstream| || v.upstream[n] != '~'
  }

  lemma {:induction false} OrdinaryIsAboveLowest(v: DebianVersion)
    requires IsOrdinary(v)
    ensures Compare(LOWEST, v) < 0
  {
    hide Fragment;
    var l, r := "0~", v.upstream;
    var n := DigitCount(r);
    assert l[0..] == l && r[0..] == r && l[0..1] == "0" && r[0..n] == r[..n];
    assert Value("0") == 0 by { assert "0"[..0] == ""; }
    NumberStep(l, r, 0, 0, 1, n);
    if Value(r[..n]) == 0 { TextStep(l, r, 1, n); }
  }

  /** With ordinary bounds, pairwise separate ranges are accepted in whatever order they are listed. */
  lemma {:induction false} SeparatedRangesAccepted(ps: seq<SourceProfile>)
    requires ps != [] && forall i :: 0 <= i < |ps| ==> Loadable(ps[i])
    requires forall i :: 0 <= i < |ps| && ps[i].first.Some? ==> IsOrdinary(ps[i].first.value)
    requires forall i, j :: 0 <= i < j < |ps| && ps[i].series == ps[j].series ==> Separated(ps[i], ps[j])
    ensures Accepted(ps)
  {
    forall s: KernelSeries ensures Apart(SortByFirst(Members(ps, s))) {
      MembersSeparated(ps, s);
      var ms := Members(ps, s);
      SortSeparates(ms);
      var sorted := SortByFirst(ms);
      forall i | 0 <= i < |sorted| - 1 ensures NeighboursApart(sorted[i], sorted[i + 1]) {
        assert sorted[i] in ms && sorted[i + 1] in ms;
        if sorted[i].first.Some? { OrdinaryIsAboveLowest(sorted[i].first.value); }
        SortedNeighbours(sorted[i], sorted[i + 1]);
      }
    }
  }

  // ---- Ranges ----

  /** A profile covers its own lower bound and not its upper one. */
  lemma {:induction false} RangesAreHalfOpen(p: SourceProfile, v: DebianVersion)
    ensures p.first == Some(v) && Series(v) == p.series && NonEmptyRange(p) ==> Covers(p, v)
    ensures p.before == Some(v) ==> !Covers(p, v)
  {
    hide Compare, Series;
    CompareReflexive(v);
  }

  /** Whatever lies between two covered versions of its series is covered. */
  lemma {:induction false} RangesHaveNoGaps(p: SourceProfile, a: DebianVersion, b: DebianVersion, c: DebianVersion)
    requires Covers(p, a) && Covers(p, c) && Series(b) == p.series && Compare(a, b) <= 0 && Compare(b, c) <= 0
    ensures Covers(p, b)
  {
    hide Compare, Series;
    if p.first.Some? {
      CompareAntisymmetric(a, p.first.value);
      CompareTransitive(p.first.value, a, b);
      CompareAntisymmetric(p.first.value, b);
    }
    if p.before.Some? { CompareTransitive(b, c, p.before.value); }
  }

  /** Of two profiles that meet at a version, an accepted registry gives that version to the later one. */
  lemma {:induction false} LaterProfileTakesOver(ps: seq<SourceProfile>, i: nat, j: nat, k: nat, v: DebianVersion)
    requires Accepted(ps) && i < |ps| && j < |ps| && k < |ps|
    requires ps[i].before == Some(v) && ps[j].first == Some(v) && Series(v) == ps[j].series
    ensures Covers(ps[k], v) <==> k == j
  {
    hide Covers, Series, Apart, SortByFirst, Members;
    assert Loadable(ps[j]);
    RangesAreHalfOpen(ps[j], v);
    AtMostOneProfile(ps, v);
  }

  /** Selection is exact: the one covering profile, or none; the several-matches branch is dead. */
  method SelectProfile(entries: seq<SourceProfile>, version: DebianVersion)
    returns (r: Result<SourceProfile, ProfileError>)
    ensures r != Err(SeveralMatches)
    ensures r.Ok? ==> r.value in entries && Covers(r.value, version)
    ensures r.Ok? <==> Accepted(entries) && exists k :: 0 <= k < |entries| && Covers(entries[k], version)
    ensures r == Err(NoMatch) <==>
            Accepted(entries) && forall k :: 0 <= k < |entries| ==> !Covers(entries[k], version)
  {
    var profiles := LoadProfiles(entries);
    if profiles.Err? {
      return Err(profiles.error);
    }
    var matches := [];
    for i := 0 to |entries|
      invariant matches == Matches(entries[..i], version)
    {
      assert entries[..i + 1][..i] == entries[..i];
      if Covers(entries[i], version) {
        matches := matches + [entries[i]];
      }
    }
    assert entries[..|entries|] == entries;
    AtMostOneProfile(entries, version);
    MatchesCover(entries, version);
    forall k | 0 <= k < |entries| && Covers(entries[k], version) ensures matches != [] {
      OneMatch(entries, version, k);
    }
    if matches == [] {
      return Err(NoMatch);
    }
    if |matches| != 1 {
      return Err(SeveralMatches);
    }
    return Ok(matches[0]);
  }
}
