/**
  Ordering of one upstream or revision fragment (section 5.6.12 of Debian Policy).
  The two-index loop is proved to be the lexicographic order of an integer key,
  so every law of a total preorder follows from the key.
 */
module VersionOrder {
  import opened Text

  /** Collation weight of one character of a non-numeric run. */
  function Order(c: char): (w: int)
    ensures !IsDigit(c) ==> w != 0
  {
    if c == '~' then -1
    else if IsDigit(c) then 0
    else if IsAlpha(c) then c as int
    else c as int + 256
  }

  lemma {:induction false} OrderInjective(c: char, d: char)
    requires !IsDigit(c) && !IsDigit(d) && Order(c) == Order(d)
    ensures c == d
  {
  }

  // ---- Keys compared with zero padding ----

  function Head(a: seq<int>): int {
    if a == [] then 0 else a[0]
  }

  function Tail(a: seq<int>): seq<int> {
    if a == [] then [] else a[1..]
  }

  function At(a: seq<int>, i: nat): int {
    if i < |a| then a[i] else 0
  }

  /** Lexicographic comparison of two keys, each continued with zeroes. */
  function ComparePadded(a: seq<int>, b: seq<int>): int
    decreases |a| + |b|
  {
    if a == [] && b == [] then 0
    else if Head(a) < Head(b) then -1
    else if Head(a) > Head(b) then 1
    else ComparePadded(Tail(a), Tail(b))
  }

  /** What the recursion computes: the sign at the first position where the padded keys differ. */
  lemma {:induction false} ComparePaddedMeaning(a: seq<int>, b: seq<int>)
    ensures ComparePadded(a, b) == 0 <==> forall i: nat :: At(a, i) == At(b, i)
    ensures ComparePadded(a, b) < 0 <==>
            exists i: nat :: At(a, i) < At(b, i) && forall j: nat :: j < i ==> At(a, j) == At(b, j)
    decreases |a| + |b|
  {
    if a == [] && b == [] {
    } else {
      assert Head(a) == At(a, 0) && Head(b) == At(b, 0);
      if Head(a) == Head(b) {
        var c, d := Tail(a), Tail(b);
        ComparePaddedMeaning(c, d);
        assert forall i: nat :: At(c, i) == At(a, i + 1) && At(d, i) == At(b, i + 1);
        if ComparePadded(c, d) < 0 {
          var i: nat :| At(c, i) < At(d, i) && forall j: nat :: j < i ==> At(c, j) == At(d, j);
          assert At(a, i + 1) < At(b, i + 1);
          forall j: nat | j < i + 1 ensures At(a, j) == At(b, j) {
            if j > 0 { assert At(c, j - 1) == At(d, j - 1); }
          }
        }
        if i: nat :| At(a, i) < At(b, i) && forall j: nat :: j < i ==> At(a, j) == At(b, j) {
          assert At(c, i - 1) < At(d, i - 1);
          assert forall j: nat :: j < i - 1 ==> At(c, j) == At(a, j + 1) == At(b, j + 1) == At(d, j);
        }
        if forall i: nat :: At(c, i) == At(d, i) {
          forall i: nat ensures At(a, i) == At(b, i) {
            if i > 0 { assert At(c, i - 1) == At(d, i - 1); }
          }
        }
      }
    }
  }

  lemma {:induction false} ComparePaddedReflexive(a: seq<int>)
    ensures ComparePadded(a, a) == 0
  {
    if a != [] { ComparePaddedReflexive(a[1..]); }
  }

  lemma {:induction false} ComparePaddedAntisymmetric(a: seq<int>, b: seq<int>)
    ensures ComparePadded(a, b) == -ComparePadded(b, a)
    decreases |a| + |b|
  {
    if a != [] || b != [] { ComparePaddedAntisymmetric(Tail(a), Tail(b)); }
  }

  lemma {:induction false} ComparePaddedTransitive(a: seq<int>, b: seq<int>, c: seq<int>)
    requires ComparePadded(a, b) <= 0 && ComparePadded(b, c) <= 0
    ensures ComparePadded(a, c) <= 0
    ensures ComparePadded(a, b) < 0 || ComparePadded(b, c) < 0 ==> ComparePadded(a, c) < 0
    decreases |a| + |b| + |c|
  {
    if a == [] && b == [] && c == [] {
    } else if Head(a) == Head(b) == Head(c) {
      ComparePaddedTransitive(Tail(a), Tail(b), Tail(c));
    }
  }

  // ---- The key of a fragment ----

  /** Key of a fragment whose next element is a (possibly empty) non-numeric run. */
  function TextKey(s: string): seq<int>
    decreases |s|, 1
  {
    if s != "" && !IsDigit(s[0]) then [Order(s[0])] + TextKey(s[1..]) else [0] + NumberKey(s)
  }

  /** Key of a fragment whose next element is a (possibly empty) numeric run. */
  function NumberKey(s: string): seq<int>
    requires s == "" || IsDigit(s[0])
    decreases |s|, 0
  {
    if s == "" then [0] else
      var n := DigitCount(s);
      [Value(s[..n])] + RestKey(s[n..])
  }

  /** What is left after a numeric run; an exhausted fragment has only padding. */
  function RestKey(s: string): seq<int>
    decreases |s|, 2
  {
    if s == "" then [] else TextKey(s)
  }

  /** The order of two fragments. */
  function Fragment(l: string, r: string): int {
    ComparePadded(TextKey(l), TextKey(r))
  }

  lemma {:induction false} RestKeyIsPadding(l: string, r: string)
    ensures ComparePadded(RestKey(l), RestKey(r)) == Fragment(l, r)
  {
    assert TextKey("") == [0, 0];
    assert ComparePadded([0, 0], RestKey(r)) == ComparePadded([], RestKey(r)) by {
      PaddingLeft(RestKey(r));
    }
    assert forall k :: ComparePadded(k, [0, 0]) == ComparePadded(k, []) by {
      forall k ensures ComparePadded(k, [0, 0]) == ComparePadded(k, []) { PaddingRight(k); }
    }
  }

  lemma {:induction false} PaddingLeft(k: seq<int>)
    ensures ComparePadded([0, 0], k) == ComparePadded([], k)
  {
    assert Tail([0, 0]) == [0] && Tail([0]) == [];
    if k != [] {
      assert ComparePadded([0], Tail(k)) == ComparePadded([], Tail(k));
    }
  }

  lemma {:induction false} PaddingRight(k: seq<int>)
    ensures ComparePadded(k, [0, 0]) == ComparePadded(k, [])
  {
    ComparePaddedAntisymmetric(k, [0, 0]);
    ComparePaddedAntisymmetric(k, []);
    PaddingLeft(k);
  }

  /** Weight the text loop reads at an index: 0 once the run has ended. */
  function Weight(s: string, i: nat): int
    requires i <= |s|
  {
    if i < |s| && !IsDigit(s[i]) then Order(s[i]) else 0
  }

  predicate InText(s: string, i: nat)
    requires i <= |s|
  {
    i < |s| && !IsDigit(s[i])
  }

  /** One turn of the text loop. */
  lemma {:induction false} TextStep(l: string, r: string, i: nat, j: nat)
    requires i <= |l| && j <= |r| && (InText(l, i) || InText(r, j))
    ensures Weight(l, i) < Weight(r, j) ==> Fragment(l[i..], r[j..]) == -1
    ensures Weight(l, i) > Weight(r, j) ==> Fragment(l[i..], r[j..]) == 1
    ensures Weight(l, i) == Weight(r, j) ==>
              InText(l, i) && InText(r, j) && Fragment(l[i..], r[j..]) == Fragment(l[i + 1..], r[j + 1..])
  {
    assert Head(TextKey(l[i..])) == Weight(l, i) && Head(TextKey(r[j..])) == Weight(r, j);
    if Weight(l, i) == Weight(r, j) {
      assert l[i..][1..] == l[i + 1..] && r[j..][1..] == r[j + 1..];
    }
  }

  lemma {:induction false} RoundStep(x: int, p: seq<int>, y: int, q: seq<int>)
    ensures ComparePadded([0, x] + p, [0, y] + q)
         == if x < y then -1 else if x > y then 1 else ComparePadded(p, q)
  {
    assert Tail([0, x] + p) == [x] + p && Tail([0, y] + q) == [y] + q;
    assert Tail([x] + p) == p && Tail([y] + q) == q;
  }

  /** The digits of `s` from `start` up to `end`, and no further. */
  predicate Numeral(s: string, start: nat, end: nat)
  {
    && start <= end <= |s|
    && (forall k :: start <= k < end ==> IsDigit(s[k]))
    && (end == |s| || !IsDigit(s[end]))
  }

  lemma {:induction false} NumberKeyShape(t: string)
    requires t == "" || IsDigit(t[0])
    ensures var n := DigitCount(t); TextKey(t) == [0, Value(t[..n])] + RestKey(t[n..])
  {
    if t == "" {
      assert t[..0] == "" && t[0..] == "";
    } else {
      var n := DigitCount(t);
      var v, rest := Value(t[..n]), RestKey(t[n..]);
      assert [0] + ([v] + rest) == [0, v] + rest;
    }
  }

  /** One numeric round of the key. */
  lemma {:induction false} NumberRound(s: string, start: nat, end: nat)
    requires Numeral(s, start, end)
    requires start == |s| || IsDigit(s[start])
    ensures TextKey(s[start..]) == [0, Value(s[start..end])] + RestKey(s[end..])
  {
    var t, n := s[start..], end - start;
    DigitCountIs(t, n);
    RunSlices(s, start, end);
    NumberKeyShape(t);
  }

  lemma {:induction false} RunSlices(s: string, start: nat, end: nat)
    requires start <= end <= |s|
    ensures s[start..][..end - start] == s[start..end] && s[start..][end - start..] == s[end..]
  {
  }

  /** One numeric round of the comparison. */
  lemma {:induction false} NumberStep(l: string, r: string, i: nat, j: nat, i': nat, j': nat)
    requires Numeral(l, i, i') && Numeral(r, j, j')
    requires !InText(l, i) && !InText(r, j)
    ensures var x, y := Value(l[i..i']), Value(r[j..j']);
            Fragment(l[i..], r[j..]) == if x < y then -1 else if x > y then 1 else Fragment(l[i'..], r[j'..])
  {
    NumberRound(l, i, i');
    NumberRound(r, j, j');
    RoundStep(Value(l[i..i']), RestKey(l[i'..]), Value(r[j..j']), RestKey(r[j'..]));
    RestKeyIsPadding(l[i'..], r[j'..]);
  }

  /** The two-index comparison loop computes the order of the padded keys. */
  method CompareFragment(left: string, right: string) returns (r: int)
    ensures r == Fragment(left, right)
  {
    hide Fragment;
    var i, j := 0, 0;
    assert left[0..] == left && right[0..] == right;
    while i < |left| || j < |right|
      invariant 0 <= i <= |left| && 0 <= j <= |right|
      invariant Fragment(left, right) == Fragment(left[i..], right[j..])
      decreases |left| + |right| - i - j
    {
      ghost var i0, j0 := i, j;
      while (i < |left| && !IsDigit(left[i])) || (j < |right| && !IsDigit(right[j]))
        invariant i0 <= i <= |left| && j0 <= j <= |right|
        invariant Fragment(left, right) == Fragment(left[i..], right[j..])
        decreases |left| + |right| - i - j
      {
        var leftWeight := if i < |left| && !IsDigit(left[i]) then Order(left[i]) else 0;
        var rightWeight := if j < |right| && !IsDigit(right[j]) then Order(right[j]) else 0;
        TextStep(left, right, i, j);
        if leftWeight != rightWeight {
          return if leftWeight < rightWeight then -1 else 1;
        }
        i, j := i + 1, j + 1;
      }
      var startI, startJ := i, j;
      while i < |left| && IsDigit(left[i])
        invariant startI <= i <= |left|
        invariant forall k :: startI <= k < i ==> IsDigit(left[k])
      {
        i := i + 1;
      }
      while j < |right| && IsDigit(right[j])
        invariant startJ <= j <= |right|
        invariant forall k :: startJ <= k < j ==> IsDigit(right[k])
      {
        j := j + 1;
      }
      var leftNumber := Value(left[startI..i]);
      var rightNumber := Value(right[startJ..j]);
      NumberStep(left, right, startI, startJ, i, j);
      if leftNumber != rightNumber {
        return if leftNumber < rightNumber then -1 else 1;
      }
    }
    assert left[i..] == "" && right[j..] == "";
    FragmentReflexive("");
    return 0;
  }

  // ---- Laws of the order ----

  lemma {:induction false} FragmentReflexive(a: string)
    ensures Fragment(a, a) == 0
  {
    ComparePaddedReflexive(TextKey(a));
  }

  lemma {:induction false} FragmentAntisymmetric(a: string, b: string)
    ensures Fragment(a, b) == -Fragment(b, a)
  {
    ComparePaddedAntisymmetric(TextKey(a), TextKey(b));
  }

  lemma {:induction false} FragmentTransitive(a: string, b: string, c: string)
    requires Fragment(a, b) <= 0 && Fragment(b, c) <= 0
    ensures Fragment(a, c) <= 0
    ensures Fragment(a, b) < 0 || Fragment(b, c) < 0 ==> Fragment(a, c) < 0
  {
    ComparePaddedTransitive(TextKey(a), TextKey(b), TextKey(c));
  }

  // ---- The normal form that is hashed ----

  datatype Token = Run(text: string) | Number(value: nat)

  /** Length of the leading non-numeric run. */
  function TextCount(s: string): (n: nat)
    ensures n <= |s| && forall k :: 0 <= k < n ==> !IsDigit(s[k])
    ensures n == |s| || IsDigit(s[n])
  {
    if s == "" || IsDigit(s[0]) then 0 else
      var n := 1 + TextCount(s[1..]);
      assert forall k :: 1 <= k < n ==> s[k] == s[1..][k - 1];
      n
  }

  lemma {:induction false} TextCountIs(s: string, n: nat)
    requires n <= |s| && forall k :: 0 <= k < n ==> !IsDigit(s[k])
    requires n == |s| || IsDigit(s[n])
    ensures TextCount(s) == n
  {
  }

  function Tokens(s: string): seq<Token> {
    if s == "" then []
    else if IsDigit(s[0]) then
      var n := DigitCount(s);
      [Number(Value(s[..n]))] + Tokens(s[n..])
    else
      var n := TextCount(s);
      [Run(s[..n])] + Tokens(s[n..])
  }

  function DropZero(ts: seq<Token>): seq<Token> {
    if ts != [] && ts[|ts| - 1] == Number(0) then ts[..|ts| - 1] else ts
  }

  function Normalized(s: string): seq<Token> {
    DropZero(Tokens(s))
  }

  lemma {:induction false} NumberToken(s: string, start: nat, end: nat)
    requires start < end && Numeral(s, start, end)
    ensures Tokens(s[start..]) == [Number(Value(s[start..end]))] + Tokens(s[end..])
  {
    DigitCountIs(s[start..], end - start);
    RunSlices(s, start, end);
  }

  lemma {:induction false} RunToken(s: string, start: nat, end: nat)
    requires start < end <= |s| && forall k :: start <= k < end ==> !IsDigit(s[k])
    requires end == |s| || IsDigit(s[end])
    ensures Tokens(s[start..]) == [Run(s[start..end])] + Tokens(s[end..])
  {
    TextCountIs(s[start..], end - start);
    RunSlices(s, start, end);
  }

  /** `done` followed by the tokens of what is left makes up the tokens of the whole. */
  ghost predicate Tokenized(s: string, index: nat, done: seq<Token>) {
    index <= |s| && Tokens(s) == done + Tokens(s[index..])
  }

  lemma {:induction false} TokenizedNumber(s: string, index: nat, done: seq<Token>, end: nat)
    requires Tokenized(s, index, done) && index < end && Numeral(s, index, end)
    ensures Tokenized(s, end, done + [Number(Value(s[index..end]))])
  {
    NumberToken(s, index, end);
  }

  lemma {:induction false} TokenizedRun(s: string, index: nat, done: seq<Token>, end: nat)
    requires Tokenized(s, index, done) && index < end <= |s| && (end == |s| || IsDigit(s[end]))
    requires forall k :: index <= k < end ==> !IsDigit(s[k])
    ensures Tokenized(s, end, done + [Run(s[index..end])])
  {
    RunToken(s, index, end);
  }

  lemma {:induction false} TokenizedEnds(s: string)
    ensures Tokenized(s, 0, [])
    ensures forall done :: Tokenized(s, |s|, done) ==> Tokens(s) == done
  {
    assert s[0..] == s && s[|s|..] == "";
  }

  method NormalizedFragment(value: string) returns (result: seq<Token>)
    ensures result == Normalized(value)
  {
    result := [];
    var index := 0;
    TokenizedEnds(value);
    while index < |value|
      invariant Tokenized(value, index, result)
    {
      var end := index;
      if IsDigit(value[index]) {
        while end < |value| && IsDigit(value[end])
          invariant index <= end <= |value|
          invariant forall k :: index <= k < end ==> IsDigit(value[k])
        {
          end := end + 1;
        }
        TokenizedNumber(value, index, result, end);
        result := result + [Number(Value(value[index..end]))];
      } else {
        while end < |value| && !IsDigit(value[end])
          invariant index <= end <= |value|
          invariant forall k :: index <= k < end ==> !IsDigit(value[k])
        {
          end := end + 1;
        }
        TokenizedRun(value, index, result, end);
        result := result + [Run(value[index..end])];
      }
      index := end;
    }
    if result != [] && result[|result| - 1] == Number(0) {
      result := result[..|result| - 1];
    }
  }

  /** Two runs of text compare equal exactly when they are the same characters. */
  lemma {:induction false} TextRunStep(l: string, r: string)
    ensures var t, u := TextCount(l), TextCount(r);
            Fragment(l, r) == 0 <==> l[..t] == r[..u] && Fragment(l[t..], r[u..]) == 0
  {
    hide Fragment;
    var t, u := TextCount(l), TextCount(r);
    var k := 0;
    assert l[0..] == l && r[0..] == r;
    while k < t && k < u && l[k] == r[k]
      invariant k <= t && k <= u && forall m :: 0 <= m < k ==> l[m] == r[m]
      invariant Fragment(l, r) == Fragment(l[k..], r[k..])
    {
      TextStep(l, r, k, k);
      k := k + 1;
    }
    if k < t || k < u {
      TextStep(l, r, k, k);
      DifferentWeights(l, r, k);
      DifferentSlices(l, t, r, u, k);
    } else {
      assert l[..t] == r[..u];
    }
  }

  lemma {:induction false} DifferentWeights(l: string, r: string, k: nat)
    requires k <= |l| && k <= |r| && (InText(l, k) || InText(r, k))
    requires InText(l, k) && InText(r, k) ==> l[k] != r[k]
    ensures Weight(l, k) != Weight(r, k)
  {
  }

  lemma {:induction false} DifferentSlices(l: string, t: nat, r: string, u: nat, k: nat)
    requires k <= t <= |l| && k <= u <= |r| && (k < t || k < u)
    requires k < t && k < u ==> l[k] != r[k]
    ensures l[..t] != r[..u]
  {
    if k < t && k < u { assert l[..t][k] != r[..u][k]; }
  }

  lemma {:induction false} DropZeroStep(t: Token, ts: seq<Token>)
    ensures DropZero([t] + ts) == if ts == [] && t == Number(0) then [] else [t] + DropZero(ts)
  {
    if ts != [] {
      assert ([t] + ts)[|ts|] == ts[|ts| - 1];
      assert ([t] + ts)[..|ts|] == [t] + ts[..|ts| - 1];
    }
  }

  lemma {:induction false} NormalizedNumber(s: string, n: nat)
    requires 0 < n && Numeral(s, 0, n)
    ensures Normalized(s) ==
              if n == |s| && Value(s[..n]) == 0 then [] else [Number(Value(s[..n]))] + Normalized(s[n..])
  {
    NumberToken(s, 0, n);
    assert s[0..] == s && s[0..n] == s[..n];
    DropZeroStep(Number(Value(s[..n])), Tokens(s[n..]));
  }

  lemma {:induction false} NormalizedRun(s: string, n: nat)
    requires 0 < n == TextCount(s)
    ensures Normalized(s) == [Run(s[..n])] + Normalized(s[n..])
  {
    RunToken(s, 0, n);
    assert s[0..] == s && s[0..n] == s[..n];
    DropZeroStep(Run(s[..n]), Tokens(s[n..]));
  }

  /** The first token that normalization keeps: text stays, and a number stays unless it is a final zero. */
  lemma {:induction false} NormalizedHead(s: string)
    ensures s == "" ==> Normalized(s) == []
    ensures s != "" && !IsDigit(s[0]) ==> Normalized(s) != [] && Normalized(s)[0].Run?
    ensures s != "" && IsDigit(s[0]) && Normalized(s) != [] ==> Normalized(s)[0].Number?
  {
    if s != "" {
      if IsDigit(s[0]) { NormalizedNumber(s, DigitCount(s)); } else { NormalizedRun(s, TextCount(s)); }
    }
  }

  /** Fragments compare equal exactly when their hash keys are equal. */
  lemma {:induction false} EqualIffSameNormalForm(l: string, r: string)
    ensures Fragment(l, r) == 0 <==> Normalized(l) == Normalized(r)
    decreases |l| + |r|
  {
    hide Fragment;
    assert l[0..] == l && r[0..] == r;
    if InText(l, 0) && InText(r, 0) {
      var t, u := TextCount(l), TextCount(r);
      TextRunStep(l, r);
      EqualIffSameNormalForm(l[t..], r[u..]);
      SameAfterText(l, r, t, u);
    } else if InText(l, 0) || InText(r, 0) {
      TextStep(l, r, 0, 0);
      NormalizedHead(l);
      NormalizedHead(r);
    } else if l == "" && r == "" {
      FragmentReflexive(l);
    } else {
      var n, m := DigitCount(l), DigitCount(r);
      EqualIffSameNormalForm(l[n..], r[m..]);
      SameAfterNumber(l, r, n, m);
    }
  }

  lemma {:induction false} SameAfterText(l: string, r: string, t: nat, u: nat)
    requires 0 < t == TextCount(l) && 0 < u == TextCount(r)
    ensures Normalized(l) == Normalized(r) <==>
            l[..t] == r[..u] && Normalized(l[t..]) == Normalized(r[u..])
  {
    NormalizedRun(l, t);
    NormalizedRun(r, u);
    assert Normalized(l)[0] == Run(l[..t]) && Normalized(r)[0] == Run(r[..u]);
    assert Normalized(l)[1..] == Normalized(l[t..]) && Normalized(r)[1..] == Normalized(r[u..]);
  }

  lemma {:induction false} SameAfterNumber(l: string, r: string, n: nat, m: nat)
    requires n == DigitCount(l) && m == DigitCount(r) && !InText(l, 0) && !InText(r, 0) && (l != "" || r != "")
    requires Fragment(l[n..], r[m..]) == 0 <==> Normalized(l[n..]) == Normalized(r[m..])
    ensures Fragment(l, r) == 0 <==> Normalized(l) == Normalized(r)
  {
    assert l[0..] == l && r[0..] == r && l[0..n] == l[..n] && r[0..m] == r[..m];
    NumberStep(l, r, 0, 0, n, m);
    var v, w := Value(l[..n]), Value(r[..m]);
    assert Fragment(l, r) == 0 <==> v == w && Normalized(l[n..]) == Normalized(r[m..]);
    NumberNormalForm(l, n);
    NumberNormalForm(r, m);
    var p, q := Normalized(l[n..]), Normalized(r[m..]);
    if v != 0 || p != [] { assert Normalized(l)[0] == Number(v) && Normalized(l)[1..] == p; }
    if w != 0 || q != [] { assert Normalized(r)[0] == Number(w) && Normalized(r)[1..] == q; }
  }

  /** A possibly absent numeric run, in the form both sides of the comparison share. */
  lemma {:induction false} NumberNormalForm(s: string, n: nat)
    requires n == DigitCount(s) && !InText(s, 0)
    ensures Normalized(s) ==
              if Value(s[..n]) == 0 && Normalized(s[n..]) == [] then []
              else [Number(Value(s[..n]))] + Normalized(s[n..])
  {
    NormalizedHead(s[n..]);
    if s != "" { NormalizedNumber(s, n); }
  }
}
