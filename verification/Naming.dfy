/** Downstream versions: the Debian version with `+dkc13.N` appended, and how that orders. */
module Naming {
  import opened Outcome
  import opened Text
  import opened VersionOrder
  import opened DebianVersions

  const DKC_SUFFIX := "dkc13"

  function Suffix(revision: nat): (s: string)
    ensures |s| > 7 && s == "+dkc13." + Decimal(revision)
  {
    "+" + DKC_SUFFIX + "." + Decimal(revision)
  }

  /** `Identity.package_version`: the derived version, re-parsed before it is returned. */
  function PackageVersion(source: DebianVersion, dkcRevision: nat): Option<DebianVersion> {
    Parse(source.raw + Suffix(dkcRevision))
  }

  // ---- Appending to a fragment ----

  /** A shared prefix drops out of the comparison unless it would cut a numeric run in two. */
  lemma {:induction false} SharedPrefix(p: string, x: string, y: string)
    requires p == "" || !IsDigit(p[|p| - 1]) || (!StartsWithDigit(x) && !StartsWithDigit(y))
    ensures Fragment(p + x, p + y) == Fragment(x, y)
    decreases |p|
  {
    hide Fragment;
    var l, r := p + x, p + y;
    assert l[0..] == l && r[0..] == r;
    if p == "" {
      assert l == x && r == y;
    } else {
      var n := if IsDigit(p[0]) then DigitCount(p) else 1;
      if IsDigit(p[0]) {
        assert Numeral(l, 0, n) && Numeral(r, 0, n) && l[0..n] == r[0..n];
        NumberStep(l, r, 0, 0, n, n);
      } else {
        TextStep(l, r, 0, 0);
      }
      assert l[n..] == p[n..] + x && r[n..] == p[n..] + y;
      SharedPrefix(p[n..], x, y);
    }
  }

  /** Appending text that starts with `+` to any fragment makes it strictly greater. */
  lemma {:induction false} AppendedIsGreater(s: string, t: string)
    requires t != "" && t[0] == '+'
    ensures Fragment(s, s + t) == -1
  {
    assert s + "" == s && t[0..] == t && ""[0..] == "";
    SharedPrefix(s, "", t);
    TextStep("", t, 0, 0);
  }

  lemma {:induction false} SuffixOrder(n: nat, m: nat)
    ensures Fragment(Suffix(n), Suffix(m)) == Sign(n - m)
  {
    var x, y := Decimal(n), Decimal(m);
    SharedPrefix("+dkc13.", x, y);
    NumberStep(x, y, 0, 0, |x|, |y|);
    assert x[0..] == x && y[0..] == y && x[0..|x|] == x && y[0..|y|] == y;
    assert x[|x|..] == "" && y[|y|..] == "";
    FragmentReflexive("");
    DecimalValue(n);
    DecimalValue(m);
  }

  /** Digits and the given characters, ending in a digit. */
  predicate RevisionOver(allowed: set<char>, s: string) {
    s != "" && IsDigit(s[|s| - 1]) && forall k :: 0 <= k < |s| ==> IsDigit(s[k]) || s[k] in allowed
  }

  /** As `RevisionOver({'.', '~'})`, for what remains of such a revision after some of its runs. */
  predicate OrderlyTail(s: string) {
    s != "" ==> RevisionOver({'.', '~'}, s)
  }

  /** What is left of two orderly revisions: neither has ended inside a numeric run of the other. */
  predicate OrderlyTails(a: string, b: string) {
    OrderlyTail(a) && OrderlyTail(b) && (a == "" || b == "" ==> !StartsWithDigit(a) && !StartsWithDigit(b))
  }

  lemma {:induction false} AppendedTextStep(a: string, b: string, s: string, t: string)
    requires OrderlyTails(a, b) && (InText(a, 0) || InText(b, 0))
    requires s != "" && t != "" && s[0] == '+' && t[0] == '+'
    ensures Weight(a, 0) != Weight(b, 0) ==>
              Fragment(a, b) != 0 && (Fragment(a, b) < 0 ==> Fragment(a + s, b + t) < 0)
    ensures Weight(a, 0) == Weight(b, 0) ==>
              && a != "" && b != "" && OrderlyTails(a[1..], b[1..])
              && Fragment(a, b) == Fragment(a[1..], b[1..])
              && Fragment(a + s, b + t) == Fragment(a[1..] + s, b[1..] + t)
  {
    hide Fragment;
    var l, r := a + s, b + t;
    assert a[0..] == a && b[0..] == b && l[0..] == l && r[0..] == r;
    TextStep(a, b, 0, 0);
    TextStep(l, r, 0, 0);
    if Weight(a, 0) == Weight(b, 0) {
      assert l[1..] == a[1..] + s && r[1..] == b[1..] + t;
    }
  }

  /** Appending `s` extends no numeric run of `a`. */
  predicate Joins(a: string, s: string) {
    a == "" || !IsDigit(a[|a| - 1]) || !StartsWithDigit(s)
  }

  lemma {:induction false} AppendedNumberStep(a: string, b: string, s: string, t: string)
    requires StartsWithDigit(a) && StartsWithDigit(b) && Joins(a, s) && Joins(b, t)
    ensures var n, m := DigitCount(a), DigitCount(b); var x, y := Value(a[..n]), Value(b[..m]);
            && Fragment(a, b) == (if x < y then -1 else if x > y then 1 else Fragment(a[n..], b[m..]))
            && Fragment(a + s, b + t)
            == if x < y then -1 else if x > y then 1 else Fragment(a[n..] + s, b[m..] + t)
  {
    hide Fragment;
    var l, r, n, m := a + s, b + t, DigitCount(a), DigitCount(b);
    assert a[0..] == a && b[0..] == b && l[0..] == l && r[0..] == r;
    assert a[0..n] == a[..n] && b[0..m] == b[..m];
    assert Numeral(l, 0, n) && Numeral(r, 0, m) && l[0..n] == a[..n] && r[0..m] == b[..m];
    NumberStep(a, b, 0, 0, n, m);
    NumberStep(l, r, 0, 0, n, m);
    assert l[n..] == a[n..] + s && r[m..] == b[m..] + t;
  }

  /** Appended suffixes decide only between equal orderly revisions. */
  lemma {:induction false} AppendedTails(a: string, b: string, s: string, t: string)
    requires OrderlyTails(a, b)
    requires s != "" && t != "" && s[0] == '+' && t[0] == '+'
    ensures Fragment(a, b) < 0 ==> Fragment(a + s, b + t) < 0
    ensures Fragment(a, b) == 0 ==> Fragment(a + s, b + t) == Fragment(s, t)
    decreases |a| + |b|
  {
    hide Fragment;
    if a == "" && b == "" {
      FragmentReflexive("");
      assert a + s == s && b + t == t;
    } else if InText(a, 0) || InText(b, 0) {
      AppendedTextStep(a, b, s, t);
      if Weight(a, 0) == Weight(b, 0) {
        AppendedTails(a[1..], b[1..], s, t);
      }
    } else {
      AppendedNumberStep(a, b, s, t);
      AppendedTails(a[DigitCount(a)..], b[DigitCount(b)..], s, t);
    }
  }

  function Sign(x: int): int {
    if x < 0 then -1 else if x > 0 then 1 else 0
  }

  lemma {:induction false} AppendedRevisions(a: string, n: nat, b: string, m: nat)
    requires RevisionOver({'.', '~'}, a) && RevisionOver({'.', '~'}, b)
    ensures Fragment(a + Suffix(n), b + Suffix(m))
         == if Fragment(a, b) != 0 then Fragment(a, b) else Sign(n - m)
  {
    var s, t := Suffix(n), Suffix(m);
    SuffixOrder(n, m);
    AppendedTails(a, b, s, t);
    AppendedTails(b, a, t, s);
    FragmentAntisymmetric(a, b);
    FragmentAntisymmetric(a + s, b + t);
    FragmentSign(a, b);
    FragmentSign(a + s, b + t);
  }

  lemma {:induction false} FragmentSign(a: string, b: string)
    ensures -1 <= Fragment(a, b) <= 1
  {
    ComparePaddedSign(TextKey(a), TextKey(b));
  }

  lemma {:induction false} ComparePaddedSign(a: seq<int>, b: seq<int>)
    ensures -1 <= ComparePadded(a, b) <= 1
    decreases |a| + |b|
  {
    if a != [] || b != [] { ComparePaddedSign(Tail(a), Tail(b)); }
  }

  // ---- Downstream versions ----

  lemma {:induction false} SuffixIsRevision(n: nat)
    ensures IsSuffix(Suffix(n)) && Suffix(n)[0] == '+'
  {
  }

  /** The version whose last component carries the suffix. */
  function Extended(v: DebianVersion, n: nat): DebianVersion {
    var raw := v.raw + Suffix(n);
    if HasRevision(v) then v.(revision := v.revision + Suffix(n), raw := raw)
    else v.(upstream := v.upstream + Suffix(n), raw := raw)
  }

  lemma {:induction false} PackageVersionExtends(v: DebianVersion, n: nat)
    requires Parsed(v)
    ensures PackageVersion(v, n) == Some(Extended(v, n))
  {
    SuffixIsRevision(n);
    ParseAppended(v, Suffix(n));
  }

  /** `package_version` always parses and is strictly above the Debian version it derives from. */
  lemma {:induction false} PackageVersionAboveSource(v: DebianVersion, n: nat)
    requires Parsed(v)
    ensures PackageVersion(v, n).Some? && PackageVersion(v, n).value.raw == v.raw + "+dkc13." + Decimal(n)
    ensures Compare(v, PackageVersion(v, n).value) < 0
  {
    PackageVersionExtends(v, n);
    AppendedIsGreater(v.upstream, Suffix(n));
    AppendedIsGreater(v.revision, Suffix(n));
    FragmentReflexive(v.upstream);
  }

  lemma {:induction false} ExtendedOrdersRevisions(v: DebianVersion, n: nat, m: nat)
    ensures Compare(Extended(v, n), Extended(v, m)) == Sign(n - m)
  {
    SuffixOrder(n, m);
    SharedPrefix(v.revision, Suffix(n), Suffix(m));
    SharedPrefix(v.upstream, Suffix(n), Suffix(m));
    FragmentReflexive(v.upstream);
    FragmentReflexive(v.revision);
  }

  /** For one Debian version the derived version orders exactly as the downstream revision. */
  lemma {:induction false} PackageVersionOrdersRevisions(v: DebianVersion, n: nat, m: nat)
    requires Parsed(v)
    ensures PackageVersion(v, n).Some? && PackageVersion(v, m).Some?
    ensures Compare(PackageVersion(v, n).value, PackageVersion(v, m).value) == Sign(n - m)
  {
    PackageVersionExtends(v, n);
    PackageVersionExtends(v, m);
    ExtendedOrdersRevisions(v, n, m);
  }

  predicate HasOrderlyRevision(v: DebianVersion) {
    HasRevision(v) && RevisionOver({'.', '~'}, v.revision)
  }

  /** The order of the pair (Debian version, downstream revision). */
  function ComparePairs(v: DebianVersion, n: nat, w: DebianVersion, m: nat): int {
    if Compare(v, w) != 0 then Compare(v, w) else Sign(n - m)
  }

  lemma {:induction false} ExtendedOrdersPairs(v: DebianVersion, n: nat, w: DebianVersion, m: nat)
    requires HasOrderlyRevision(v) && HasOrderlyRevision(w)
    ensures Compare(Extended(v, n), Extended(w, m)) == ComparePairs(v, n, w, m)
  {
    AppendedRevisions(v.revision, n, w.revision, m);
  }

  /** For orderly revisions the derived version orders exactly as the pair it is made from. */
  lemma {:induction false} PackageVersionOrdersPairs(v: DebianVersion, n: nat, w: DebianVersion, m: nat)
    requires Parsed(v) && Parsed(w) && HasOrderlyRevision(v) && HasOrderlyRevision(w)
    ensures PackageVersion(v, n).Some? && PackageVersion(w, m).Some?
    ensures Compare(PackageVersion(v, n).value, PackageVersion(w, m).value) == ComparePairs(v, n, w, m)
  {
    PackageVersionExtends(v, n);
    PackageVersionExtends(w, m);
    ExtendedOrdersPairs(v, n, w, m);
  }
}
