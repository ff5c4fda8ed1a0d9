/** What retention drops from the pool is what the next generation tombstones. */
module Retirement {
  import opened Outcome
  import Keys
  import DebianVersions
  import Retention
  import Collector

  /** The keys of the next generation: the retained pool, and whatever else it lists. */
  function Current(d: Retention.RetentionDecision, others: set<Keys.Key>): set<Keys.Key> { d.retainedKeys + others }

  /** An immutable object of the pool that was live joins the tombstones if and only if retention dropped
      it; a retained one is current, so that assembly keeps it live. */
  lemma {:induction false} DroppedIsTombstoned(m: Collector.Manifest, pool: seq<Retention.PoolObject>, mode: Retention.Mode,
                                               maxBytes: Option<int>, fixed: int, count: int, others: set<Keys.Key>, k: Keys.Key)
    requires Collector.ValidManifest(m) && Retention.Retain(pool, mode, maxBytes, fixed, count).Ok?
    requires k in Retention.KeysOf(pool) && k !in others && k in m.live && Collector.ImmutableKey(k)
    ensures var current := Current(Retention.Retain(pool, mode, maxBytes, fixed, count).value, others);
      && (Collector.Queued(Collector.NextQueue(m, current), k) <==> k !in current)
      && (k in current <==> k in Retention.Retain(pool, mode, maxBytes, fixed, count).value.retainedKeys)
  {
    hide Retention.Retain, Collector.ImmutableKey, Collector.Queued;
    var current := Current(Retention.Retain(pool, mode, maxBytes, fixed, count).value, others);
    Collector.ExtendedKeys(m.queue, m.artifacts, m.live, current);
    assert Collector.Lists(m.artifacts, k);
  }

  /** Spelled out: the tombstones gain exactly the live immutable objects of series that are not retained
      and of the dropped releases. */
  lemma {:induction false} TombstonesAreDroppedReleases(m: Collector.Manifest, pool: seq<Retention.PoolObject>,
                                                        mode: Retention.Mode, maxBytes: Option<int>, fixed: int, count: int,
                                                        others: set<Keys.Key>)
    returns (dropped: seq<Retention.Release>)
    requires Collector.ValidManifest(m) && Retention.Retain(pool, mode, maxBytes, fixed, count).Ok?
    requires forall o :: o in pool ==> o.key in m.live && Collector.ImmutableKey(o.key) && o.key !in others
    ensures var d := Retention.Retain(pool, mode, maxBytes, fixed, count).value;
      && Retention.ShortestPrefix(Retention.InSeries(pool, Retention.NewestSeries(pool, count)), fixed, maxBytes, dropped)
      && forall o :: o in pool ==>
           (Collector.Queued(Collector.NextQueue(m, Current(d, others)), o.key) <==>
              DebianVersions.Series(o.version) !in d.retainedSeries || Retention.PatchRelease(o) in dropped)
  {
    hide *;
    dropped := Retention.RetentionIsOptimal(pool, mode, maxBytes, fixed, count);
    forall o | o in pool ensures o.key in Retention.KeysOf(pool) { PoolKey(pool, o); }
    var d := Retention.Retain(pool, mode, maxBytes, fixed, count).value;
    forall o | o in pool
      ensures Collector.Queued(Collector.NextQueue(m, Current(d, others)), o.key) <==>
                DebianVersions.Series(o.version) !in d.retainedSeries || Retention.PatchRelease(o) in dropped
    {
      DroppedIsTombstoned(m, pool, mode, maxBytes, fixed, count, others, o.key);
    }
  }

  lemma {:induction false} PoolKey(pool: seq<Retention.PoolObject>, o: Retention.PoolObject)
    requires o in pool
    ensures o.key in Retention.KeysOf(pool)
  {
    var i :| 0 <= i < |pool| && pool[i] == o;
    assert pool[i].key == o.key;
  }
}
