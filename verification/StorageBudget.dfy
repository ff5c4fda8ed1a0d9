/** Exact accounting of the whole namespace before the first write. */
module StorageBudget {
  import opened Outcome
  import opened Keys
  import opened Store
  import opened Publication
  import opened PublicationRuns
  import Collector
  import Lease

  datatype Sized = Sized(key: Key, size: int)

  datatype Projection = Projection(objectCount: nat, size: int)

  datatype BudgetError = MalformedInventory | MalformedWrites | RepeatedDeletion | WrittenAndDeleted

  type Sizes = map<Key, int>

  /** The sizes an inventory lists. */
  function Table(items: seq<Sized>): Sizes {
    if items == [] then map[]
    else Table(items[..|items| - 1])[items[|items| - 1].key := items[|items| - 1].size]
  }

  function Sum(sizes: Sizes): int
    decreases |sizes|
  {
    if sizes == map[] then 0 else var k := First(sizes.Keys); sizes[k] + Sum(sizes - {k})
  }

  predicate WellFormed(items: seq<Sized>) {
    && (forall i :: 0 <= i < |items| ==> items[i].size >= 0)
    && forall i, j :: 0 <= i < j < |items| ==> items[i].key != items[j].key
  }

  /** The namespace after the writes and the deletions. */
  function Projected(current: seq<Sized>, writes: seq<Sized>, deletions: seq<Key>): Sizes {
    Table(current) + Table(writes) - set k | k in deletions
  }

  lemma {:induction false} TableNext(items: seq<Sized>, i: nat)
    requires i < |items| && WellFormed(items[..i])
    ensures Table(items[..i + 1]) == Table(items[..i])[items[i].key := items[i].size]
    ensures WellFormed(items[..i + 1]) <==> items[i].key !in Table(items[..i]) && items[i].size >= 0
    ensures WellFormed(items) ==> WellFormed(items[..i + 1])
  {
    var done, upTo := items[..i], items[..i + 1];
    assert upTo[..i] == done && upTo[i] == items[i];
    TableKeys(done, items[i].key);
    hide Table;
    forall j | 0 <= j < i ensures upTo[j] == done[j] {}
  }

  lemma {:induction false} TableKeys(items: seq<Sized>, k: Key)
    ensures k in Table(items) <==> exists i :: 0 <= i < |items| && items[i].key == k
  {
    if items != [] {
      var n := |items| - 1;
      TableKeys(items[..n], k);
      if i :| 0 <= i < n && items[..n][i].key == k { assert items[i].key == k; }
      if i :| 0 <= i < |items| && items[i].key == k && i < n { assert items[..n][i].key == k; }
    }
  }

  /** Reads one inventory into a table and refuses repeated keys and negative sizes. */
  method Load(items: seq<Sized>) returns (r: Option<Sizes>)
    ensures r.Some? <==> WellFormed(items)
    ensures r.Some? ==> r.value == Table(items)
  {
    hide Table, WellFormed;
    var sizes: Sizes := map[];
    NothingListed();
    assert items[..0] == [];
    for i := 0 to |items|
      invariant WellFormed(items[..i]) && sizes == Table(items[..i])
    {
      TableNext(items, i);
      if items[i].key in sizes || items[i].size < 0 {
        return None;
      }
      sizes := sizes[items[i].key := items[i].size];
    }
    assert items[..|items|] == items;
    return Some(sizes);
  }

  lemma {:induction false} NothingListed()
    ensures WellFormed([]) && Table([]) == map[]
  {
  }

  /** The projection is exact whenever there is one. */
  method ProjectStorage(current: seq<Sized>, writes: seq<Sized>, deletions: seq<Key>)
    returns (r: Result<Projection, BudgetError>)
    ensures r.Ok? <==> WellFormed(current) && WellFormed(writes) && Distinct(deletions)
                       && forall k :: k in deletions ==> k !in Table(writes)
    ensures r.Ok? ==>
      var after := Projected(current, writes, deletions); r.value == Projection(|after|, Sum(after))
  {
    hide Table, WellFormed, Sum;
    var listed := Load(current);
    if listed.None? {
      return Err(MalformedInventory);
    }
    var written := Load(writes);
    if written.None? {
      return Err(MalformedWrites);
    }
    var objects := listed.value + written.value;
    for i := 0 to |deletions|
      invariant Distinct(deletions[..i])
    {
      if deletions[i] in deletions[..i] {
        assert !Distinct(deletions);
        return Err(RepeatedDeletion);
      }
    }
    assert deletions[..|deletions|] == deletions;
    if k :| k in deletions && k in written.value {
      return Err(WrittenAndDeleted);
    }
    for i := 0 to |deletions|
      invariant objects == listed.value + written.value - set k | k in deletions[..i]
    {
      assert deletions[..i + 1] == deletions[..i] + [deletions[i]];
      objects := objects - {deletions[i]};
    }
    var size := Add(objects);
    return Ok(Projection(|objects|, size));
  }

  /** Adds up a table, entry by entry. */
  method Add(sizes: Sizes) returns (total: int)
    ensures total == Sum(sizes)
  {
    total := 0;
    var rest := sizes;
    while rest != map[]
      invariant total + Sum(rest) == Sum(sizes)
      decreases |rest|
    {
      var k := First(rest.Keys);
      total, rest := total + rest[k], rest - {k};
    }
  }

  // ---- Sums over tables ----

  lemma {:induction false} SumWithout(sizes: Sizes, k: Key)
    requires k in sizes
    ensures Sum(sizes) == sizes[k] + Sum(sizes - {k})
    decreases |sizes|
  {
    var f := First(sizes.Keys);
    if f != k {
      SumWithout(sizes - {f}, k);
      assert sizes - {f} - {k} == sizes - {k} - {f};
      SumWithout(sizes - {k}, f);
    }
  }

  // ---- Conservation ----

  function Data(o: Object): seq<bv8> { if o.body.Bytes? then o.body.data else [] }

  /** All bytes of the namespace, one object behind the other. */
  function AllBytes(contents: map<Key, Object>): seq<bv8>
    decreases |contents|
  {
    if contents == map[] then []
    else
      var k := First(contents.Keys);
      assert contents.Keys - {k} == (contents - {k}).Keys;
      assert |contents| == |contents.Keys| && |contents - {k}| == |(contents - {k}).Keys|;
      Data(contents[k]) + AllBytes(contents - {k})
  }

  /** What is added up is the number of these bytes. */
  lemma {:induction false} SumIsBytes(contents: map<Key, Object>)
    ensures Sum(SizesOf(contents)) == |AllBytes(contents)|
    decreases |contents|
  {
    if contents == map[] {
      assert SizesOf(contents) == map[];
    } else {
      var k := First(contents.Keys);
      assert SizesOf(contents).Keys == contents.Keys;
      assert SizesOf(contents) - {k} == SizesOf(contents - {k});
      assert contents.Keys - {k} == (contents - {k}).Keys;
      assert |contents| == |contents.Keys| && |contents - {k}| == |(contents - {k}).Keys|;
      SumIsBytes(contents - {k});
    }
  }

  /** Bytes of an object; the size of a lease document is not part of the accounting. */
  function SizeOf(o: Object): int { if o.body.Bytes? then |o.body.data| else 0 }

  function SizesOf(contents: map<Key, Object>): Sizes { map k | k in contents :: SizeOf(contents[k]) }

  /** How the store lists itself. */
  function Listing(contents: map<Key, Object>): (items: seq<Sized>)
    ensures |items| == |Sorted(contents.Keys)|
    ensures forall i :: 0 <= i < |items| ==>
      Sorted(contents.Keys)[i] in contents && items[i] == Sized(Sorted(contents.Keys)[i], SizeOf(contents[Sorted(contents.Keys)[i]]))
  {
    var ks := Sorted(contents.Keys);
    assert forall i :: 0 <= i < |ks| ==> ks[i] in ks;
    seq(|ks|, i requires 0 <= i < |ks| => Sized(ks[i], SizeOf(contents[ks[i]])))
  }

  lemma {:induction false} TableOf(items: seq<Sized>, sizes: Sizes)
    requires forall i :: 0 <= i < |items| ==> items[i].key in sizes && items[i].size == sizes[items[i].key]
    ensures forall k :: k in Table(items) ==> k in sizes && Table(items)[k] == sizes[k]
  {
    if items != [] {
      var rest := items[..|items| - 1];
      forall i | 0 <= i < |rest| ensures rest[i].key in sizes && rest[i].size == sizes[rest[i].key] {
        assert rest[i] == items[i];
      }
      TableOf(rest, sizes);
    }
  }

  lemma {:induction false} ListingIsFaithful(contents: map<Key, Object>)
    ensures WellFormed(Listing(contents)) && Table(Listing(contents)) == SizesOf(contents)
  {
    hide Table;
    var items, ks := Listing(contents), Sorted(contents.Keys);
    TableOf(items, SizesOf(contents));
    forall k | k in contents ensures k in Table(items) {
      assert k in ks;
      var i :| 0 <= i < |ks| && ks[i] == k;
      assert items[i].key == k;
      TableKeys(items, k);
    }
    assert Table(items).Keys == SizesOf(contents).Keys;
  }

  ghost predicate OnlyLease(es: seq<Event>) {
    forall i :: 0 <= i < |es| && es[i].Foreign? ==> es[i].key == Lease.LeaseKey
  }

  lemma {:induction false} EffectsOfLease(contents: map<Key, Object>, es: seq<Event>)
    requires OnlyLease(es)
    ensures Effects(contents, es) - {Lease.LeaseKey} == contents - {Lease.LeaseKey}
    decreases |es|
  {
    if es != [] {
      var e := es[0];
      var rest := if !e.Foreign? then contents
                  else if e.content.Some? then contents[e.key := e.content.value] else contents - {e.key};
      assert rest - {Lease.LeaseKey} == contents - {Lease.LeaseKey};
      forall i | 0 <= i < |es[1..]| && es[1..][i].Foreign? ensures es[1..][i].key == Lease.LeaseKey {
        assert es[1..][i] == es[i + 1];
      }
      EffectsOfLease(rest, es[1..]);
    }
  }

  /** The keys of the deletion targets. */
  function KeysOf(targets: seq<Collector.GcTarget>): seq<Key> {
    seq(|targets|, i requires 0 <= i < |targets| => targets[i].key)
  }

  lemma {:induction false} SweptContents(s: StoreState, targets: seq<Collector.GcTarget>)
    ensures Collector.Swept(s, targets).Contents() == s.Contents() - set k | k in KeysOf(targets)
  {
    var t, ks := Collector.Swept(s, targets), KeysOf(targets);
    forall k ensures t.Get(k) == if k in ks then None else s.Get(k) {
      Collector.SweptObjects(s, targets, k);
      if k in ks {
        var i :| 0 <= i < |ks| && ks[i] == k;
        assert targets[i].key == k;
      }
      if i :| 0 <= i < |targets| && targets[i].key == k { assert ks[i] == k; }
    }
    forall k ensures k in t.objects <==> k in s.objects && k !in ks {
      assert t.Get(k) == if k in ks then None else s.Get(k);
    }
    forall k | k in t.objects ensures t.objects[k] == s.objects[k] {
      assert t.Get(k) == s.Get(k);
    }
  }

  /** The namespace that a publication and its collection leave, crashes included. */
  function Left(s: StoreState, p: Plan, es: seq<Event>, targets: seq<Collector.GcTarget>): map<Key, Object> {
    Collector.Swept(Finish(PublicationRuns.After(Config(s, p, 0), es)).state, targets).Contents()
  }

  lemma {:induction false} WithoutLease(before: map<Key, Object>, effects: map<Key, Object>, target: map<Key, Object>,
                                        deleted: set<Key>)
    requires effects - {Lease.LeaseKey} == before - {Lease.LeaseKey} && Lease.LeaseKey !in target
    ensures SizesOf(effects + target - deleted - {Lease.LeaseKey})
         == SizesOf(before) + SizesOf(target) - deleted - {Lease.LeaseKey}
  {
    var a, b := effects + target - deleted - {Lease.LeaseKey}, SizesOf(before) + SizesOf(target) - deleted - {Lease.LeaseKey};
    forall k | k != Lease.LeaseKey
      ensures k in effects <==> k in before
      ensures k in effects ==> effects[k] == before[k]
    {
      assert k in effects <==> k in effects - {Lease.LeaseKey};
      assert k in before <==> k in before - {Lease.LeaseKey};
      if k in effects { assert effects[k] == (effects - {Lease.LeaseKey})[k] == (before - {Lease.LeaseKey})[k]; }
    }
    forall k ensures k in SizesOf(a) <==> k in b {}
    forall k | k in b ensures SizesOf(a)[k] == b[k] {}
  }

  /** Apart from the lease object, whose size changes while it is renewed, the namespace after a
      publication and its collection has exactly the projected objects and sizes. */
  lemma {:induction false} StorageIsConserved(s: StoreState, p: Plan, es: seq<Event>, writes: seq<Sized>,
                                              targets: seq<Collector.GcTarget>)
    requires s.Valid() && p.Separated() && Recoverable(s, p) && !p.Has(Lease.LeaseKey)
    requires PublicationRuns.AllEnabled(Config(s, p, 0), es) && OnlyLease(es)
    requires Table(writes) == SizesOf(p.Target())
    ensures SizesOf(Left(s, p, es, targets) - {Lease.LeaseKey})
         == Projected(Listing(s.Contents()), writes, KeysOf(targets)) - {Lease.LeaseKey}
  {
    hide *;
    CrashRecovery(s, p, es);
    var finished := Finish(PublicationRuns.After(Config(s, p, 0), es)).state;
    SweptContents(finished, targets);
    LeftMeans(s, p, es, targets);
    EffectsOfLease(s.Contents(), es);
    ListingIsFaithful(s.Contents());
    TargetKeys(p);
    ProjectedMeans(Listing(s.Contents()), writes, KeysOf(targets));
    WithoutLease(s.Contents(), Effects(s.Contents(), es), p.Target(), set k | k in KeysOf(targets));
  }

  lemma {:induction false} LeftMeans(s: StoreState, p: Plan, es: seq<Event>, targets: seq<Collector.GcTarget>)
    ensures Left(s, p, es, targets) ==
            Collector.Swept(Finish(PublicationRuns.After(Config(s, p, 0), es)).state, targets).Contents()
  {
  }

  lemma {:induction false} ProjectedMeans(current: seq<Sized>, writes: seq<Sized>, deletions: seq<Key>)
    ensures Projected(current, writes, deletions) == Table(current) + Table(writes) - set k | k in deletions
  {
  }

  /** Hence the projected count and size are met to the object and to the byte. */
  lemma {:induction false} ProjectionIsMet(left: map<Key, Object>, projected: Sizes, leaseBefore: int)
    requires SizesOf(left - {Lease.LeaseKey}) == projected - {Lease.LeaseKey}
    requires Lease.LeaseKey in left && Lease.LeaseKey in projected && projected[Lease.LeaseKey] == leaseBefore
    ensures |left| == |projected|
    ensures Sum(SizesOf(left)) - SizeOf(left[Lease.LeaseKey]) == Sum(projected) - leaseBefore
  {
    hide Sum, SizeOf;
    assert SizesOf(left) - {Lease.LeaseKey} == SizesOf(left - {Lease.LeaseKey});
    SumWithout(SizesOf(left), Lease.LeaseKey);
    SumWithout(projected, Lease.LeaseKey);
    MapSize(left);
    SizeWithout(SizesOf(left), Lease.LeaseKey);
    SizeWithout(projected, Lease.LeaseKey);
  }

  lemma {:induction false} MapSize(contents: map<Key, Object>)
    ensures |SizesOf(contents)| == |contents|
  {
    assert SizesOf(contents).Keys == contents.Keys;
    assert |SizesOf(contents)| == |SizesOf(contents).Keys| && |contents| == |contents.Keys|;
  }

  lemma {:induction false} SizeWithout(sizes: Sizes, k: Key)
    requires k in sizes
    ensures |sizes - {k}| == |sizes| - 1
  {
    assert (sizes - {k}).Keys == sizes.Keys - {k};
    assert |(sizes - {k}).Keys| == |sizes - {k}| && |sizes.Keys| == |sizes|;
  }
}
