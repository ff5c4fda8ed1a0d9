/** For exactly which pairs of Debian versions the derived versions order like the pairs of version
    and downstream revision. */
module NamingOrder {
  import opened Outcome
  import opened Text
  import opened VersionOrder
  import opened DebianVersions
  import opened Naming

  // ---- What two fragments share ----

  /** What remains of two fragments behind the characters and numbers they share. */
  function Strip(a: string, b: string): (string, string)
    decreases |a| + |b|
  {
    if a == "" || b == "" then (a, b)
    else if IsDigit(a[0]) && IsDigit(b[0]) then
      var n, m := DigitCount(a), DigitCount(b);
      if Value(a[..n]) == Value(b[..m]) then Strip(a[n..], b[m..]) else (a, b)
    else if a[0] == b[0] then Strip(a[1..], b[1..])
    else (a, b)
  }

  lemma {:induction false} JoinsTail(a: string, n: nat, s: string)
    requires n <= |a| && Joins(a, s)
    ensures Joins(a[n..], s)
  {
  }

  /** What is shared never decides, whatever is appended. */
  lemma {:induction false} StripKeeps(a: string, b: string, s: string, t: string)
    requires Joins(a, s) && Joins(b, t)
    ensures var (x, y) := Strip(a, b);
            Fragment(a + s, b + t) == Fragment(x + s, y + t) && Joins(x, s) && Joins(y, t)
    decreases |a| + |b|
  {
    hide Fragment, Joins;
    if a != "" && b != "" {
      if IsDigit(a[0]) && IsDigit(b[0]) {
        var n, m := DigitCount(a), DigitCount(b);
        AppendedNumberStep(a, b, s, t);
        if Value(a[..n]) == Value(b[..m]) {
          JoinsTail(a, n, s);
          JoinsTail(b, m, t);
          StripKeeps(a[n..], b[m..], s, t);
        }
      } else if a[0] == b[0] {
        JoinsTail(a, 1, s);
        JoinsTail(b, 1, t);
        SharedPrefix([a[0]], a[1..] + s, b[1..] + t);
        assert a + s == [a[0]] + (a[1..] + s) && b + t == [b[0]] + (b[1..] + t);
        StripKeeps(a[1..], b[1..], s, t);
      }
    }
  }

  lemma {:induction false} StripOnce(a: string, b: string)
    ensures var (x, y) := Strip(a, b); Strip(x, y) == (x, y)
    decreases |a| + |b|
  {
    if a != "" && b != "" {
      if IsDigit(a[0]) && IsDigit(b[0]) {
        var n, m := DigitCount(a), DigitCount(b);
        if Value(a[..n]) == Value(b[..m]) { StripOnce(a[n..], b[m..]); }
      } else if a[0] == b[0] {
        StripOnce(a[1..], b[1..]);
      }
    }
  }

  /** Two remainders that both go on decide at once. */
  lemma {:induction false} StoppedDecides(x: string, y: string, s: string, t: string)
    requires x != "" && y != "" && Strip(x, y) == (x, y) && Joins(x, s) && Joins(y, t)
    ensures Fragment(x, y) != 0 && Fragment(x + s, y + t) == Fragment(x, y)
  {
    hide Fragment;
    var l, r := x + s, y + t;
    assert x[0..] == x && y[0..] == y && l[0..] == l && r[0..] == r;
    if IsDigit(x[0]) && IsDigit(y[0]) {
      var n, m := DigitCount(x), DigitCount(y);
      ShorterStrip(x[n..], y[m..]);
      AppendedNumberStep(x, y, s, t);
    } else {
      ShorterStrip(x[1..], y[1..]);
      if !IsDigit(x[0]) && !IsDigit(y[0]) && Order(x[0]) == Order(y[0]) { OrderInjective(x[0], y[0]); }
      TextStep(x, y, 0, 0);
      TextStep(l, r, 0, 0);
    }
  }

  lemma {:induction false} ShorterStrip(a: string, b: string)
    ensures |Strip(a, b).0| <= |a| && |Strip(a, b).1| <= |b|
    decreases |a| + |b|
  {
    if a != "" && b != "" {
      if IsDigit(a[0]) && IsDigit(b[0]) {
        var n, m := DigitCount(a), DigitCount(b);
        if Value(a[..n]) == Value(b[..m]) { ShorterStrip(a[n..], b[m..]); }
      } else if a[0] == b[0] {
        ShorterStrip(a[1..], b[1..]);
      }
    }
  }

  // ---- Remainders against the suffix ----

  const Prefix: string := "+dkc13."

  /** Whatever number ends the suffix, `u` lies above it. */
  predicate AboveSuffix(u: string) {
    var (p, x) := Strip(Prefix, u);
    if p == "" then x != "" && !IsDigit(x[0]) && x[0] != '~' else Fragment(p, x) < 0
  }

  predicate Plain(p: string) { forall k :: 0 <= k < |p| ==> p[k] != '~' && p[k] != '0' }

  lemma {:induction false} PlainTail(a: string, b: string)
    requires Plain(a)
    ensures Plain(Strip(a, b).0)
    decreases |a| + |b|
  {
    if a != "" && b != "" {
      if IsDigit(a[0]) && IsDigit(b[0]) {
        var n, m := DigitCount(a), DigitCount(b);
        if Value(a[..n]) == Value(b[..m]) { PlainTail(a[n..], b[m..]); }
      } else if a[0] == b[0] {
        PlainTail(a[1..], b[1..]);
      }
    }
  }

  /** The first element of a fragment against the end of a string. */
  lemma {:induction false} AgainstEnd(u: string)
    ensures u == "" ==> Fragment("", u) == 0
    ensures u != "" && u[0] == '~' ==> Fragment("", u) == 1
    ensures u != "" && !IsDigit(u[0]) && u[0] != '~' ==> Fragment("", u) == -1
    ensures u != "" && IsDigit(u[0]) ==>
      var n := DigitCount(u);
      0 < n && Fragment("", u) == if Value(u[..n]) > 0 then -1 else Fragment("", u[n..])
  {
    hide Fragment;
    assert ""[0..] == "" && u[0..] == u;
    FragmentReflexive("");
    if u != "" {
      if IsDigit(u[0]) {
        var n := DigitCount(u);
        assert u[0..n] == u[..n] && ""[0..0] == "";
        NumberStep("", u, 0, 0, 0, n);
      } else {
        TextStep("", u, 0, 0);
      }
    }
  }

  lemma {:induction false} PlainIsPositive(p: string, s: string)
    requires p != "" && Plain(p) && Joins(p, s)
    ensures Fragment(p + s, "") == 1
  {
    hide Fragment;
    var l := p + s;
    AgainstEnd(l);
    FragmentAntisymmetric(l, "");
    if IsDigit(p[0]) {
      var n := DigitCount(p);
      DigitCountIs(l, n);
      assert l[..n] == p[..n];
      LastDigitCounts(p[..n]);
    }
  }

  lemma {:induction false} LastDigitCounts(s: string)
    requires s != "" && AllDigits(s) && s[|s| - 1] != '0'
    ensures Value(s) > 0
  {
  }

  /** The suffix starts with `+`, which lies above digits and `~`. */
  lemma {:induction false} SuffixAgainst(n: nat, u: string)
    ensures u != "" && (IsDigit(u[0]) || u[0] == '~') ==> Fragment(Suffix(n), u) == 1
  {
    hide Fragment;
    var s := Suffix(n);
    assert s[0..] == s && u[0..] == u;
    if u != "" && (IsDigit(u[0]) || u[0] == '~') { TextStep(s, u, 0, 0); }
  }

  lemma {:induction false} PrefixFacts(n: nat)
    ensures Suffix(n) == Prefix + Decimal(n) && Joins(Prefix, Decimal(n)) && Plain(Prefix)
  {
  }

  /** The number that ends the suffix against what remains of `u` behind the shared prefix. */
  lemma {:induction false} NumberAgainst(n: nat, x: string)
    ensures x == "" && n > 0 ==> Fragment(Decimal(n), x) == 1
    ensures x != "" && !IsDigit(x[0]) ==> Fragment(Decimal(n), x) == if x[0] == '~' then 1 else -1
    ensures x != "" && IsDigit(x[0]) && n > Value(x[..DigitCount(x)]) ==> Fragment(Decimal(n), x) == 1
  {
    hide Fragment;
    var d := Decimal(n);
    DecimalValue(n);
    assert d[0..] == d && x[0..] == x && d[0..|d|] == d && d[|d|..] == "";
    if x != "" && !IsDigit(x[0]) {
      TextStep(d, x, 0, 0);
    } else {
      var k := if x == "" then 0 else DigitCount(x);
      assert x[0..k] == x[..k];
      NumberStep(d, x, 0, 0, |d|, k);
    }
  }

  lemma {:induction false} AboveMeans(u: string, t: string, n: nat)
    requires AboveSuffix(u) && Joins(u, t)
    ensures Fragment(Suffix(n), u + t) == -1
  {
    hide Fragment, Strip, Joins, Plain;
    var d := Decimal(n);
    var (p, x) := Strip(Prefix, u);
    PrefixFacts(n);
    StripKeeps(Prefix, u, d, t);
    if p == "" {
      NumberAgainst(n, x + t);
      assert "" + d == d;
    } else {
      PlainTail(Prefix, u);
      PlainWithNothing(p);
      StripOnce(Prefix, u);
      StoppedDecides(p, x, d, t);
      FragmentSign(p, x);
    }
  }

  lemma {:induction false} PlainWithNothing(p: string)
    requires p != "" && Plain(p)
    ensures Fragment(p, "") == 1
  {
    assert p + "" == p;
    PlainIsPositive(p, "");
  }

  /** Below some suffix, and then below one that a positive revision gives. */
  lemma {:induction false} NotAboveMeans(u: string, t: string) returns (n: nat)
    requires !AboveSuffix(u) && Joins(u, t) && (t == "" || Strip(Prefix, u).1 != "")
    ensures n >= 1 && Fragment(Suffix(n), u + t) == 1
  {
    hide Fragment, Strip, Plain;
    var (p, x) := Strip(Prefix, u);
    n := if p == "" && x != "" && IsDigit(x[0]) then Value(x[..DigitCount(x)]) + 1 else 1;
    var d := Decimal(n);
    PrefixFacts(n);
    StripKeeps(Prefix, u, d, t);
    assert x == "" ==> x + t == "";
    if p == "" {
      assert "" + d == d;
      NumberAgainst(n, x + t);
      if x != "" && IsDigit(x[0]) {
        DigitCountIs(x + t, DigitCount(x));
        assert (x + t)[..DigitCount(x)] == x[..DigitCount(x)];
      }
    } else {
      PlainTail(Prefix, u);
      if x == "" {
        PlainIsPositive(p, d);
      } else {
        StripOnce(Prefix, u);
        StoppedDecides(p, x, d, t);
        FragmentSign(p, x);
      }
    }
  }

  // ---- One fragment exhausted where the other goes on ----

  /** The remainder lies below the end of the string, or above every suffix once it carries its own. */
  predicate SafeTail(u: string) { Fragment("", u) > 0 || AboveSuffix(u + "+") }

  /** What the order of two derived fragments should be. */
  function Wanted(order: int, n: nat, m: nat): int { if order != 0 then order else Sign(n - m) }

  ghost predicate TailIsKept(u: string) {
    forall n: nat, m: nat :: n >= 1 && m >= 1 ==> Fragment(Suffix(n), u + Suffix(m)) == Wanted(Fragment("", u), n, m)
  }

  lemma {:induction false} StripLeavesPlus(a: string, b: string)
    requires '+' !in a
    ensures Strip(a, b + "+").1 != ""
    decreases |a| + |b|
  {
    var c := b + "+";
    if a != "" {
      if IsDigit(a[0]) && IsDigit(c[0]) {
        var n, m := DigitCount(a), DigitCount(c);
        if Value(a[..n]) == Value(c[..m]) {
          assert c[|b|] == '+' && c[m..] == b[m..] + "+";
          StripLeavesPlus(a[n..], b[m..]);
        }
      } else if a[0] == c[0] {
        assert b != "" && c[1..] == b[1..] + "+";
        StripLeavesPlus(a[1..], b[1..]);
      }
    }
  }

  lemma {:induction false} PlusRemains(u: string)
    requires u != ""
    ensures Strip(Prefix, u + "+").1 != ""
  {
    var c := u + "+";
    if c[0] == '+' {
      assert Prefix[1..] == "dkc13." && c[1..] == u[1..] + "+";
      StripLeavesPlus("dkc13.", u[1..]);
    }
  }

  lemma {:induction false} SuffixFromPlus(u: string, m: nat)
    ensures u + Suffix(m) == (u + "+") + ("dkc13." + Decimal(m))
    ensures Joins(u + "+", "dkc13." + Decimal(m)) && Joins(u, Suffix(m))
  {
  }

  lemma {:induction false} TailIsKeptIff(u: string)
    requires u != ""
    ensures TailIsKept(u) <==> SafeTail(u)
  {
    hide Fragment, AboveSuffix, Suffix, Strip;
    AgainstEnd(u);
    FragmentSign("", u);
    if SafeTail(u) {
      forall n: nat, m: nat | n >= 1 && m >= 1
        ensures Fragment(Suffix(n), u + Suffix(m)) == Wanted(Fragment("", u), n, m)
      {
        SafeTailHolds(u, n, m);
      }
    } else if Fragment("", u) == 0 {
      SuffixAgainst(1, u + Suffix(1));
      assert Fragment(Suffix(1), u + Suffix(1)) != Wanted(Fragment("", u), 1, 1);
    } else {
      SuffixFromPlus(u, 1);
      PlusRemains(u);
      var n := NotAboveMeans(u + "+", "dkc13." + Decimal(1));
      assert Fragment(Suffix(n), u + Suffix(1)) != Wanted(Fragment("", u), n, 1);
    }
  }

  lemma {:induction false} SafeTailHolds(u: string, n: nat, m: nat)
    requires u != "" && SafeTail(u)
    ensures Fragment("", u) != 0 && Fragment(Suffix(n), u + Suffix(m)) == Fragment("", u)
  {
    hide Fragment, AboveSuffix, Suffix;
    AgainstEnd(u);
    FragmentSign("", u);
    var l := u + Suffix(m);
    SuffixAgainst(n, l);
    if Fragment("", u) <= 0 {
      SuffixFromPlus(u, m);
      AboveMeans(u + "+", "dkc13." + Decimal(m), n);
    }
  }

  // ---- Two fragments that both carry the suffix ----

  /** Unless one fragment ends where the other goes on, nothing can happen. */
  predicate Safe(a: string, b: string) {
    var (x, y) := Strip(a, b);
    (x == "" && y != "" ==> SafeTail(y)) && (x != "" && y == "" ==> SafeTail(x))
  }

  ghost predicate IsKept(a: string, b: string) {
    forall n: nat, m: nat :: n >= 1 && m >= 1 ==>
      Fragment(a + Suffix(n), b + Suffix(m)) == Wanted(Fragment(a, b), n, m)
  }

  lemma {:induction false} StripBoth(a: string, b: string, n: nat, m: nat)
    ensures var (x, y) := Strip(a, b);
            && Fragment(a, b) == Fragment(x, y)
            && Fragment(a + Suffix(n), b + Suffix(m)) == Fragment(x + Suffix(n), y + Suffix(m))
  {
    hide Fragment, Strip;
    var (x, y) := Strip(a, b);
    StripKeeps(a, b, "", "");
    assert a + "" == a && b + "" == b && x + "" == x && y + "" == y;
    SuffixFromPlus(a, n);
    SuffixFromPlus(b, m);
    StripKeeps(a, b, Suffix(n), Suffix(m));
  }

  lemma {:induction false} IsKeptIff(a: string, b: string)
    ensures IsKept(a, b) <==> Safe(a, b)
  {
    hide Fragment, Strip, SafeTail, Suffix, TailIsKept;
    var (x, y) := Strip(a, b);
    StripOnce(a, b);
    StripBoth(a, b, 1, 1);
    forall n: nat, m: nat
      ensures Fragment(a + Suffix(n), b + Suffix(m)) == Fragment(x + Suffix(n), y + Suffix(m))
    {
      StripBoth(a, b, n, m);
    }
    if x == "" && y == "" {
      BothExhausted(a, b);
    } else if x != "" && y != "" {
      BothGoOn(a, b, x, y);
    } else if x == "" {
      TailIsKeptIff(y);
      OneExhausted(a, b, y);
    } else {
      TailIsKeptIff(x);
      OtherExhausted(a, b, x);
    }
  }

  lemma {:induction false} BothExhausted(a: string, b: string)
    requires Fragment(a, b) == Fragment("", "")
    requires forall n: nat, m: nat :: Fragment(a + Suffix(n), b + Suffix(m)) == Fragment("" + Suffix(n), "" + Suffix(m))
    ensures IsKept(a, b)
  {
    hide Fragment, Suffix;
    FragmentReflexive("");
    forall n: nat, m: nat ensures Fragment(a + Suffix(n), b + Suffix(m)) == Sign(n - m) {
      SuffixOrder(n, m);
      assert "" + Suffix(n) == Suffix(n) && "" + Suffix(m) == Suffix(m);
    }
  }

  lemma {:induction false} BothGoOn(a: string, b: string, x: string, y: string)
    requires x != "" && y != "" && Strip(x, y) == (x, y) && Fragment(a, b) == Fragment(x, y)
    requires forall n: nat, m: nat :: Fragment(a + Suffix(n), b + Suffix(m)) == Fragment(x + Suffix(n), y + Suffix(m))
    ensures IsKept(a, b)
  {
    hide Fragment, Suffix, Strip;
    forall n: nat, m: nat ensures Fragment(a + Suffix(n), b + Suffix(m)) == Wanted(Fragment(a, b), n, m) {
      SuffixFromPlus(x, n);
      SuffixFromPlus(y, m);
      StoppedDecides(x, y, Suffix(n), Suffix(m));
    }
  }

  lemma {:induction false} OneExhausted(a: string, b: string, u: string)
    requires Fragment(a, b) == Fragment("", u)
    requires forall n: nat, m: nat :: Fragment(a + Suffix(n), b + Suffix(m)) == Fragment("" + Suffix(n), u + Suffix(m))
    ensures IsKept(a, b) <==> TailIsKept(u)
  {
    hide Fragment, Suffix;
    forall n: nat, m: nat ensures Fragment(a + Suffix(n), b + Suffix(m)) == Fragment(Suffix(n), u + Suffix(m)) {
      assert "" + Suffix(n) == Suffix(n);
    }
  }

  lemma {:induction false} OtherExhausted(a: string, b: string, u: string)
    requires Fragment(a, b) == Fragment(u, "")
    requires forall n: nat, m: nat :: Fragment(a + Suffix(n), b + Suffix(m)) == Fragment(u + Suffix(n), "" + Suffix(m))
    ensures IsKept(a, b) <==> TailIsKept(u)
  {
    hide Fragment, Suffix;
    FragmentAntisymmetric(u, "");
    forall n: nat, m: nat
      ensures Fragment(a + Suffix(n), b + Suffix(m)) == -Fragment(Suffix(m), u + Suffix(n))
      ensures Wanted(Fragment(a, b), n, m) == -Wanted(Fragment("", u), m, n)
    {
      assert "" + Suffix(m) == Suffix(m);
      FragmentAntisymmetric(u + Suffix(n), Suffix(m));
    }
  }

  // ---- A native version against one with a revision ----

  /** The derived native version carries the suffix in its upstream version, the other behind it. */
  function OrderBeside(upstreams: int, revision: string): int {
    if upstreams != 0 then upstreams else Fragment("", revision)
  }

  /** `a` and `b` are the upstream versions and `r` is the revision that only the second version has. */
  predicate SafeBeside(a: string, b: string, r: string) {
    var (x, y) := Strip(a, b);
    if Fragment(a, b) == 0 then Fragment("", r) > 0
    else Fragment(a, b) > 0 || x != "" || AboveSuffix(y)
  }

  ghost predicate IsKeptBeside(a: string, b: string, r: string) {
    forall n: nat, m: nat :: n >= 1 && m >= 1 ==>
      OrderBeside(Fragment(a + Suffix(n), b), r + Suffix(m)) == Wanted(OrderBeside(Fragment(a, b), r), n, m)
  }

  /** What lies below the end of the string does so with anything appended. */
  lemma {:induction false} BelowStays(u: string, s: string)
    requires Fragment("", u) > 0 && Joins(u, s)
    ensures Fragment("", u + s) == 1
    decreases |u|
  {
    hide Fragment, Joins;
    AgainstEnd(u);
    AgainstEnd(u + s);
    if u != "" && IsDigit(u[0]) {
      var n := DigitCount(u);
      SameRun(u, s);
      JoinsTail(u, n, s);
      assert (u + s)[..n] == u[..n] && (u + s)[n..] == u[n..] + s;
      BelowStays(u[n..], s);
    }
  }

  lemma {:induction false} SameRun(u: string, s: string)
    requires u != "" && IsDigit(u[0]) && Joins(u, s)
    ensures DigitCount(u + s) == DigitCount(u)
  {
    DigitCountIs(u + s, DigitCount(u));
  }

  /** The derived upstream version stays below whenever the native one is below safely. */
  lemma {:induction false} StaysBelow(a: string, b: string, n: nat)
    requires Fragment(a, b) < 0 && (Strip(a, b).0 != "" || AboveSuffix(Strip(a, b).1))
    ensures Fragment(a + Suffix(n), b) == -1
  {
    hide Fragment, Strip, AboveSuffix, Suffix;
    var (x, y) := Strip(a, b);
    StripNative(a, b, n);
    FragmentSign(x, y);
    if x == "" {
      AboveMeans(y, "", n);
      assert "" + Suffix(n) == Suffix(n) && y + "" == y;
    } else if y == "" {
      FragmentAntisymmetric(x, "");
      FragmentAntisymmetric(x + Suffix(n), "");
      SuffixFromPlus(x, n);
      BelowStays(x, Suffix(n));
    } else {
      StripOnce(a, b);
      SuffixFromPlus(x, n);
      StoppedDecides(x, y, Suffix(n), "");
      assert y + "" == y;
    }
  }

  lemma {:induction false} StripNative(a: string, b: string, n: nat)
    ensures var (x, y) := Strip(a, b);
            Fragment(a, b) == Fragment(x, y) && Fragment(a + Suffix(n), b) == Fragment(x + Suffix(n), y)
  {
    hide Fragment, Strip;
    var (x, y) := Strip(a, b);
    StripKeeps(a, b, "", "");
    assert a + "" == a && b + "" == b && x + "" == x && y + "" == y;
    SuffixFromPlus(a, n);
    StripKeeps(a, b, Suffix(n), "");
  }

  /** Otherwise some derivation overtakes. */
  lemma {:induction false} Overtakes(a: string, b: string) returns (n: nat)
    requires Fragment(a, b) < 0 && Strip(a, b).0 == "" && !AboveSuffix(Strip(a, b).1)
    ensures n >= 1 && Fragment(a + Suffix(n), b) == 1
  {
    hide Fragment, Strip, AboveSuffix, Suffix;
    var y := Strip(a, b).1;
    n := NotAboveMeans(y, "");
    StripNative(a, b, n);
    assert "" + Suffix(n) == Suffix(n) && y + "" == y;
  }

  lemma {:induction false} AppendedAbove(a: string, b: string, n: nat)
    requires Fragment(a, b) >= 0
    ensures Fragment(a + Suffix(n), b) == 1
  {
    hide Fragment;
    AppendedIsGreater(a, Suffix(n));
    FragmentAntisymmetric(a, b);
    FragmentTransitive(b, a, a + Suffix(n));
    FragmentAntisymmetric(a + Suffix(n), b);
    FragmentSign(a + Suffix(n), b);
  }

  lemma {:induction false} IsKeptBesideIff(a: string, b: string, r: string)
    ensures IsKeptBeside(a, b, r) <==> SafeBeside(a, b, r)
  {
    hide Fragment, Strip, AboveSuffix, Suffix;
    FragmentSign(a, b);
    FragmentSign("", r);
    if Fragment(a, b) >= 0 {
      forall n: nat, m: nat ensures OrderBeside(Fragment(a + Suffix(n), b), r + Suffix(m)) == 1 {
        AppendedAbove(a, b, n);
      }
      assert Wanted(OrderBeside(Fragment(a, b), r), 1, 1) == OrderBeside(Fragment(a, b), r);
      if IsKeptBeside(a, b, r) { AtOne(a, b, r); }
    } else if Strip(a, b).0 != "" || AboveSuffix(Strip(a, b).1) {
      forall n: nat, m: nat ensures OrderBeside(Fragment(a + Suffix(n), b), r + Suffix(m)) == -1 {
        StaysBelow(a, b, n);
      }
    } else {
      var n := Overtakes(a, b);
      assert OrderBeside(Fragment(a + Suffix(n), b), r + Suffix(1)) != Wanted(OrderBeside(Fragment(a, b), r), n, 1);
    }
  }

  lemma {:induction false} AtOne(a: string, b: string, r: string)
    requires IsKeptBeside(a, b, r)
    ensures OrderBeside(Fragment(a + Suffix(1), b), r + Suffix(1)) == Wanted(OrderBeside(Fragment(a, b), r), 1, 1)
  {
    hide Fragment, Suffix, OrderBeside;
  }

  // ---- Whole versions ----

  /** The derived versions of every two positive revisions order like the pairs. */
  ghost predicate KeepsPairOrder(v: DebianVersion, w: DebianVersion) {
    forall n: nat, m: nat :: n >= 1 && m >= 1 ==>
      Compare(Extended(v, n), Extended(w, m)) == ComparePairs(v, n, w, m)
  }

  /** What a caller can check about two versions: the suffix never gets into the comparison at a place
      where only one of them has ended, or it does so safely. */
  predicate PairIsSafe(v: DebianVersion, w: DebianVersion) {
    if v.epoch != w.epoch then true
    else if HasRevision(v) && HasRevision(w) then
      Fragment(v.upstream, w.upstream) != 0 || Safe(v.revision, w.revision)
    else if !HasRevision(v) && !HasRevision(w) then Safe(v.upstream, w.upstream)
    else if !HasRevision(v) then SafeBeside(v.upstream, w.upstream, w.revision)
    else SafeBeside(w.upstream, v.upstream, v.revision)
  }

  lemma {:induction false} NativeHasNoRevision(v: DebianVersion)
    requires Parsed(v) && !HasRevision(v)
    ensures v.revision == ""
  {
    SplitSpelling(Rest(v.raw));
  }

  /** Derivation keeps the order of pairs, for every two parsed versions, if and only if they are safe. */
  lemma {:induction false} PairOrderIsKeptIff(v: DebianVersion, w: DebianVersion)
    requires Parsed(v) && Parsed(w)
    ensures KeepsPairOrder(v, w) <==> PairIsSafe(v, w)
    ensures forall n: nat :: PackageVersion(v, n) == Some(Extended(v, n)) && PackageVersion(w, n) == Some(Extended(w, n))
  {
    hide Fragment, Parsed, Suffix, HasRevision, Strip;
    forall n: nat ensures PackageVersion(v, n) == Some(Extended(v, n)) && PackageVersion(w, n) == Some(Extended(w, n)) {
      PackageVersionExtends(v, n);
      PackageVersionExtends(w, n);
    }
    if v.epoch == w.epoch {
      if HasRevision(v) && HasRevision(w) {
        BothRevised(v, w);
      } else if !HasRevision(v) && !HasRevision(w) {
        NativeHasNoRevision(v);
        NativeHasNoRevision(w);
        BothNative(v, w);
      } else if !HasRevision(v) {
        NativeHasNoRevision(v);
        NativeBeside(v, w);
      } else {
        NativeHasNoRevision(w);
        NativeBeside(w, v);
        if KeepsPairOrder(v, w) { KeptEitherWay(v, w); }
        if KeepsPairOrder(w, v) { KeptEitherWay(w, v); }
      }
    }
  }

  lemma {:induction false} BothRevised(v: DebianVersion, w: DebianVersion)
    requires v.epoch == w.epoch && HasRevision(v) && HasRevision(w)
    ensures KeepsPairOrder(v, w) <==> Fragment(v.upstream, w.upstream) != 0 || Safe(v.revision, w.revision)
  {
    hide Fragment, Suffix, HasRevision, Safe;
    IsKeptIff(v.revision, w.revision);
    if Fragment(v.upstream, w.upstream) == 0 {
      forall n: nat, m: nat
        ensures Compare(Extended(v, n), Extended(w, m)) == Fragment(v.revision + Suffix(n), w.revision + Suffix(m))
        ensures ComparePairs(v, n, w, m) == Wanted(Fragment(v.revision, w.revision), n, m)
      {}
    }
  }

  lemma {:induction false} BothNative(v: DebianVersion, w: DebianVersion)
    requires v.epoch == w.epoch && !HasRevision(v) && !HasRevision(w) && v.revision == w.revision == ""
    ensures KeepsPairOrder(v, w) <==> Safe(v.upstream, w.upstream)
  {
    hide Fragment, Suffix, HasRevision, Safe;
    IsKeptIff(v.upstream, w.upstream);
    FragmentReflexive("");
    forall n: nat, m: nat
      ensures Compare(Extended(v, n), Extended(w, m)) == Fragment(v.upstream + Suffix(n), w.upstream + Suffix(m))
      ensures ComparePairs(v, n, w, m) == Wanted(Fragment(v.upstream, w.upstream), n, m)
    {}
  }

  lemma {:induction false} NativeBeside(v: DebianVersion, w: DebianVersion)
    requires v.epoch == w.epoch && !HasRevision(v) && HasRevision(w) && v.revision == ""
    ensures KeepsPairOrder(v, w) <==> SafeBeside(v.upstream, w.upstream, w.revision)
  {
    hide Fragment, Suffix, HasRevision, SafeBeside;
    IsKeptBesideIff(v.upstream, w.upstream, w.revision);
    forall n: nat, m: nat
      ensures Compare(Extended(v, n), Extended(w, m))
           == OrderBeside(Fragment(v.upstream + Suffix(n), w.upstream), w.revision + Suffix(m))
      ensures ComparePairs(v, n, w, m) == Wanted(OrderBeside(Fragment(v.upstream, w.upstream), w.revision), n, m)
    {}
  }

  lemma {:induction false} KeptEitherWay(v: DebianVersion, w: DebianVersion)
    requires KeepsPairOrder(v, w)
    ensures KeepsPairOrder(w, v)
  {
    hide Compare;
    CompareAntisymmetric(v, w);
    forall n: nat, m: nat | n >= 1 && m >= 1
      ensures Compare(Extended(w, n), Extended(v, m)) == ComparePairs(w, n, v, m)
    {
      CompareAntisymmetric(Extended(w, n), Extended(v, m));
    }
  }

  /** What the condition says for each first character of a remainder; a remainder that starts with `+`
      has to lie above the suffix. */
  lemma {:induction false} SafeTailByFirst(u: string)
    requires u != ""
    ensures u[0] == '~' ==> SafeTail(u)
    ensures u[0] in {'.', '-', ':'} ==> SafeTail(u)
    ensures IsAlpha(u[0]) ==> !SafeTail(u)
    ensures u[0] == '+' ==> (SafeTail(u) <==> AboveSuffix(u + "+"))
    ensures IsDigit(u[0]) ==>
      (SafeTail(u) <==> Value(u[..DigitCount(u)]) == 0 && Fragment("", u[DigitCount(u)..]) > 0)
  {
    hide Fragment;
    AgainstEnd(u);
    var c := u + "+";
    if u[0] != '+' {
      assert Strip(Prefix, c) == (Prefix, c);
      assert Prefix[0..] == Prefix && c[0..] == c;
      TextStep(Prefix, c, 0, 0);
    }
  }

  /** Revisions of digits, dots and tildes that end in a digit are always safe. */
  lemma {:induction false} OrderlyIsSafe(v: DebianVersion, w: DebianVersion)
    requires Parsed(v) && Parsed(w) && HasOrderlyRevision(v) && HasOrderlyRevision(w)
    ensures PairIsSafe(v, w)
  {
    hide PairIsSafe, Parsed, Compare, HasOrderlyRevision;
    PairOrderIsKeptIff(v, w);
    forall n: nat, m: nat ensures Compare(Extended(v, n), Extended(w, m)) == ComparePairs(v, n, w, m) {
      PackageVersionOrdersPairs(v, n, w, m);
    }
  }

  lemma {:induction false} ParseRevised(upstream: string, revision: string)
    requires IsUpstream(upstream) && IsRevision(revision) && ':' !in upstream
    ensures var v := DebianVersion(0, upstream, revision, upstream + "-" + revision);
            Parse(v.raw) == Some(v) && HasRevision(v)
  {
    var raw := upstream + "-" + revision;
    assert raw[|upstream|] == '-' && forall k :: |upstream| < k < |raw| ==> raw[k] == revision[k - |upstream| - 1];
    assert ':' !in raw && NoSpace(raw);
    assert FirstIndex(raw, ':') == |raw| && LastIndex(raw, '-') == |upstream|;
    assert raw[..|upstream|] == upstream && raw[|upstream| + 1..] == revision;
  }

  // ---- Consequences ----

  /** Derivation keeps the pair order of all versions whose revisions use the alphabet and end in a digit. */
  ghost predicate AlphabetKeepsOrder(allowed: set<char>) {
    forall v: DebianVersion, w: DebianVersion | Parsed(v) && Parsed(w) && HasRevision(v) && HasRevision(w) ::
      RevisionOver(allowed, v.revision) && RevisionOver(allowed, w.revision) ==> KeepsPairOrder(v, w)
  }

  /** Besides digits, `.` and `~` are exactly the revision characters that keep the order. */
  lemma {:induction false} OrderlyAlphabetIsExact(allowed: set<char>)
    requires forall c :: c in allowed ==> IsRevisionChar(c) && !IsDigit(c)
    ensures AlphabetKeepsOrder(allowed) <==> allowed <= {'.', '~'}
  {
    hide Parsed, HasRevision, PairIsSafe, KeepsPairOrder;
    if allowed <= {'.', '~'} {
      forall v: DebianVersion, w: DebianVersion
        | Parsed(v) && Parsed(w) && HasRevision(v) && HasRevision(w)
          && RevisionOver(allowed, v.revision) && RevisionOver(allowed, w.revision)
        ensures KeepsPairOrder(v, w)
      {
        OrderlyIsSafe(v, w);
        PairOrderIsKeptIff(v, w);
      }
    } else {
      var c :| c in allowed && c != '.' && c != '~';
      LetterOrPlusReverses(c);
      assert RevisionOver(allowed, "1") && RevisionOver(allowed, ['1', c, '1']);
    }
  }

  const OneOne: DebianVersion := DebianVersion(0, "1", "1", "1-1")

  function With(c: char): DebianVersion { DebianVersion(0, "1", ['1', c, '1'], "1-" + ['1', c, '1']) }

  /** For every letter and for `+`, `1-1` lies below `1-1c1`, but what is derived from it lies above. */
  lemma {:induction false} LetterOrPlusReverses(c: char)
    requires IsAlpha(c) || c == '+'
    ensures Parsed(OneOne) && HasRevision(OneOne) && Parsed(With(c)) && HasRevision(With(c))
    ensures Compare(OneOne, With(c)) < 0 && !KeepsPairOrder(OneOne, With(c))
    ensures forall n: nat, m: nat :: Compare(Extended(OneOne, n), Extended(With(c), m)) > 0
  {
    hide Fragment, Parsed, HasRevision, Suffix;
    LettersParse(c);
    FragmentReflexive("1");
    LetterBelow(c);
    forall n: nat, m: nat ensures Compare(Extended(OneOne, n), Extended(With(c), m)) > 0 { LetterAbove(c, n, m); }
    NotKept(OneOne, With(c));
  }

  lemma {:induction false} LettersParse(c: char)
    requires IsAlpha(c) || c == '+'
    ensures Parsed(OneOne) && HasRevision(OneOne) && Parsed(With(c)) && HasRevision(With(c))
  {
    hide Parse, HasRevision;
    assert "1" + "-" + "1" == "1-1" && "1" + "-" + ['1', c, '1'] == "1-" + ['1', c, '1'];
    ParseRevised("1", "1");
    ParseRevised("1", ['1', c, '1']);
  }

  lemma {:induction false} LetterBelow(c: char)
    requires IsAlpha(c) || c == '+'
    ensures Fragment("1", ['1', c, '1']) == -1
  {
    hide Fragment;
    assert "1" + "" == "1" && "1" + [c, '1'] == ['1', c, '1'];
    SharedPrefix("1", "", [c, '1']);
    AgainstEnd([c, '1']);
  }

  lemma {:induction false} LetterAbove(c: char, n: nat, m: nat)
    requires IsAlpha(c) || c == '+'
    ensures Fragment("1" + Suffix(n), ['1', c, '1'] + Suffix(m)) == 1
  {
    hide Fragment;
    var s, t := Suffix(n), [c, '1'] + Suffix(m);
    assert ['1', c, '1'] + Suffix(m) == "1" + t && s[0..] == s && t[0..] == t;
    SharedPrefix("1", s, t);
    TextStep(s, t, 0, 0);
    if c == '+' { TextStep(s, t, 1, 1); }
  }

  /** A native version whose upstream version is not below always derives above a version with a revision. */
  lemma {:induction false} NativeLandsAbove(v: DebianVersion, n: nat, w: DebianVersion, m: nat)
    requires Parsed(v) && Parsed(w) && !HasRevision(v) && HasRevision(w)
    requires v.epoch == w.epoch && Fragment(v.upstream, w.upstream) >= 0
    ensures PackageVersion(v, n).Some? && PackageVersion(w, m).Some?
    ensures Compare(PackageVersion(v, n).value, PackageVersion(w, m).value) > 0
  {
    hide Fragment, Parse, Suffix;
    PackageVersionExtends(v, n);
    PackageVersionExtends(w, m);
    AppendedAbove(v.upstream, w.upstream, n);
  }

  const Released: DebianVersion := DebianVersion(0, "7.1", "1", "7.1-1")
  const SecurityUpdate: DebianVersion := DebianVersion(0, "7.1", "1+deb13u1", "7.1-1+deb13u1")

  lemma {:induction false} UpdateParses()
    ensures Parsed(Released) && HasRevision(Released) && Parsed(SecurityUpdate) && HasRevision(SecurityUpdate)
  {
    hide Parse, HasRevision, IsUpstream, IsRevision;
    UpdateCharacters();
    ParseRevised("7.1", "1");
    ParseRevised("7.1", "1+deb13u1");
    assert "7.1" + "-" + "1" == "7.1-1" && "7.1" + "-" + "1+deb13u1" == "7.1-1+deb13u1";
  }

  lemma {:induction false} UpdateCharacters()
    ensures IsUpstream("7.1") && ':' !in "7.1" && IsRevision("1") && IsRevision("1+deb13u1")
  {
  }

  lemma {:induction false} UpdateIsLater()
    ensures Compare(Released, SecurityUpdate) < 0
  {
    hide Fragment;
    FragmentReflexive("7.1");
    assert "1" + "" == "1" && "1" + "+deb13u1" == "1+deb13u1";
    SharedPrefix("1", "", "+deb13u1");
    AgainstEnd("+deb13u1");
  }

  /** A stable security update of a kernel sorts above the version it updates, and every version
      derived from it sorts below every version derived from the old one. */
  lemma {:induction false} SecurityUpdateReverses()
    ensures Parsed(Released) && Parsed(SecurityUpdate) && Compare(Released, SecurityUpdate) < 0
    ensures forall n: nat, m: nat :: Compare(Extended(Released, n), Extended(SecurityUpdate, m)) > 0
    ensures !PairIsSafe(Released, SecurityUpdate)
  {
    hide *;
    UpdateParses();
    UpdateIsLater();
    forall n: nat, m: nat ensures Compare(Extended(Released, n), Extended(SecurityUpdate, m)) > 0 {
      DerivedUpdateIsEarlier(n, m);
    }
    PairOrderIsKeptIff(Released, SecurityUpdate);
    NotKept(Released, SecurityUpdate);
  }

  lemma {:induction false} NotKept(v: DebianVersion, w: DebianVersion)
    requires Compare(v, w) < 0 && Compare(Extended(v, 1), Extended(w, 1)) > 0
    ensures !KeepsPairOrder(v, w)
  {
    hide Compare, Extended;
    assert Compare(Extended(v, 1), Extended(w, 1)) != ComparePairs(v, 1, w, 1);
  }

  lemma {:induction false} DerivedUpdateIsEarlier(n: nat, m: nat)
    ensures Compare(Extended(Released, n), Extended(SecurityUpdate, m)) > 0
  {
    hide Fragment, Parsed, HasRevision, Suffix;
    UpdateParses();
    FragmentReflexive("7.1");
    LateRevision(n, m);
  }

  lemma {:induction false} LateRevision(n: nat, m: nat)
    ensures Fragment("1" + Suffix(n), "1+deb13u1" + Suffix(m)) == 1
  {
    hide Fragment;
    var l, r := "kc13." + Decimal(n), "eb13u1" + Suffix(m);
    assert "1" + Suffix(n) == "1+d" + l && "1+deb13u1" + Suffix(m) == "1+d" + r;
    SharedPrefix("1+d", l, r);
    assert l[0..] == l && r[0..] == r;
    TextStep(l, r, 0, 0);
  }
}
