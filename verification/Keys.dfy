/** Object keys: their order, sorting, and the fixed parts of key names. */
module Keys {
  type Key = string

  /** Strict lexicographic order by code point. */
  predicate Before(a: Key, b: Key) {
    b != "" && (a == "" || a[0] < b[0] || (a[0] == b[0] && Before(a[1..], b[1..])))
  }

  /** One key goes before another if it is a proper beginning of it or has the lower character where they
      first differ. */
  lemma {:induction false} BeforeMeans(a: Key, b: Key, n: nat)
    requires n <= |a| && n <= |b| && a[..n] == b[..n] && (n == |a| || n == |b| || a[n] != b[n])
    ensures Before(a, b) <==> n < |b| && (n == |a| || a[n] < b[n])
    decreases n
  {
    if n > 0 {
      assert a[0] == a[..n][0] == b[..n][0] == b[0];
      assert a[1..][..n - 1] == a[..n][1..] && b[1..][..n - 1] == b[..n][1..];
      BeforeMeans(a[1..], b[1..], n - 1);
    }
  }

  lemma {:induction false} BeforeIsTotal(a: Key, b: Key)
    ensures a == b || Before(a, b) || Before(b, a)
  {
    if a != "" && b != "" && a[0] == b[0] {
      BeforeIsTotal(a[1..], b[1..]);
      assert a == [a[0]] + a[1..] && b == [b[0]] + b[1..];
    }
  }

  lemma {:induction false} BeforeIsStrict(a: Key, b: Key, c: Key)
    ensures !Before(a, a)
    ensures Before(a, b) ==> !Before(b, a)
    ensures Before(a, b) && Before(b, c) ==> Before(a, c)
  {
    if a != "" {
      BeforeIsStrict(a[1..], if b != "" then b[1..] else "", if c != "" then c[1..] else "");
    }
  }

  predicate IsFirst(s: set<Key>, k: Key) {
    k in s && forall l :: l in s ==> l == k || Before(k, l)
  }

  lemma {:induction false} FirstExists(s: set<Key>)
    requires s != {}
    ensures exists k :: IsFirst(s, k)
  {
    hide Before;
    var k :| k in s;
    if s == {k} {
      assert IsFirst(s, k);
    } else {
      FirstExists(s - {k});
      var m :| IsFirst(s - {k}, m);
      FirstOfBoth(s, k, m);
    }
  }

  lemma {:induction false} FirstOfBoth(s: set<Key>, k: Key, m: Key)
    requires k in s && IsFirst(s - {k}, m)
    ensures IsFirst(s, if Before(k, m) then k else m)
  {
    hide Before;
    BeforeIsTotal(k, m);
    forall l | l in s - {k} ensures Before(k, m) ==> Before(k, l) {
      BeforeIsStrict(k, m, l);
    }
  }

  lemma {:induction false} FirstIsUnique(s: set<Key>, k: Key, l: Key)
    requires IsFirst(s, k) && IsFirst(s, l)
    ensures k == l
  {
    BeforeIsStrict(k, l, k);
  }

  function First(s: set<Key>): (k: Key)
    requires s != {}
    ensures IsFirst(s, k)
  {
    hide Before;
    FirstExists(s);
    assert forall k, l :: IsFirst(s, k) && IsFirst(s, l) ==> k == l by {
      forall k, l | IsFirst(s, k) && IsFirst(s, l) ensures k == l { FirstIsUnique(s, k, l); }
    }
    var k :| IsFirst(s, k);
    k
  }

  predicate Distinct(ks: seq<Key>) {
    forall i, j :: 0 <= i < j < |ks| ==> ks[i] != ks[j]
  }

  ghost predicate Lists(ks: seq<Key>, s: set<Key>) {
    (forall k :: k in ks <==> k in s) && Distinct(ks)
  }

  ghost predicate Ascending(ks: seq<Key>) {
    forall i, j :: 0 <= i < j < |ks| ==> Before(ks[i], ks[j])
  }

  /** The elements of a set, each once, in ascending order. */
  function Sorted(s: set<Key>): (ks: seq<Key>)
    ensures Lists(ks, s) && Ascending(ks)
    decreases |s|
  {
    if s == {} then []
    else
      SortedCons(s, First(s), Sorted(s - {First(s)}));
      [First(s)] + Sorted(s - {First(s)})
  }

  lemma {:induction false} SortedCons(s: set<Key>, k: Key, rest: seq<Key>)
    requires IsFirst(s, k) && Lists(rest, s - {k}) && Ascending(rest)
    ensures Lists([k] + rest, s) && Ascending([k] + rest)
  {
    hide Before;
    var all := [k] + rest;
    forall j | 1 <= j < |all| ensures all[j] in s && all[j] != k && Before(k, all[j]) {
      assert all[j] == rest[j - 1] && rest[j - 1] in rest;
    }
    forall l ensures l in all <==> l in s {
      assert l in all <==> l == k || l in rest;
    }
  }

  lemma {:induction false} SubsetIsSmaller(a: set<Key>, b: set<Key>)
    requires a <= b
    ensures |a| <= |b|
  {
    assert b == a + (b - a);
  }

  predicate StartsWith(k: Key, prefix: string) { prefix <= k }

  predicate EndsWith(k: Key, suffix: string) { |suffix| <= |k| && k[|k| - |suffix|..] == suffix }

  predicate Contains(k: Key, part: string) {
    part <= k || (k != "" && Contains(k[1..], part))
  }

  lemma {:induction false} ContainsMeans(k: Key, part: string)
    ensures Contains(k, part) <==> exists a: string, b: string :: k == a + part + b
  {
    hide Contains;
    if Contains(k, part) { var a, b := Parts(k, part); }
    forall a: string, b: string | k == a + part + b ensures Contains(k, part) { ContainsPart(a, part, b); }
  }

  lemma {:induction false} Parts(k: Key, part: string) returns (a: string, b: string)
    requires Contains(k, part)
    ensures k == a + part + b
  {
    if part <= k {
      a, b := "", k[|part|..];
    } else {
      a, b := Parts(k[1..], part);
      a := [k[0]] + a;
    }
  }

  lemma {:induction false} ContainsPart(a: string, part: string, b: string)
    ensures Contains(a + part + b, part)
  {
    if a == "" {
      assert a + part + b == part + b && part <= part + b;
    } else {
      assert (a + part + b)[1..] == a[1..] + part + b;
      ContainsPart(a[1..], part, b);
    }
  }
}
