/** Parsing and comparison of whole Debian versions: epoch, upstream version and revision. */
module DebianVersions {
  import opened Outcome
  import opened Text
  import opened VersionOrder

  datatype DebianVersion = DebianVersion(epoch: nat, upstream: string, revision: string, raw: string)

  predicate IsSpace(c: char) {
    c == ' ' || '\t' <= c <= '\r'
  }

  predicate IsRevisionChar(c: char) {
    IsAlpha(c) || IsDigit(c) || c == '.' || c == '+' || c == '~'
  }

  predicate IsUpstreamChar(c: char) {
    IsRevisionChar(c) || c == '-' || c == ':'
  }

  predicate IsUpstream(s: string) {
    s != "" && IsDigit(s[0]) && forall k :: 0 <= k < |s| ==> IsUpstreamChar(s[k])
  }

  predicate IsRevision(s: string) {
    forall k :: 0 <= k < |s| ==> IsRevisionChar(s[k])
  }

  /** Index of the first `c`, or the length when there is none. */
  function FirstIndex(s: string, c: char): (n: nat)
    ensures n <= |s| && (n < |s| ==> s[n] == c)
    ensures forall k :: 0 <= k < n ==> s[k] != c
  {
    if s == "" || s[0] == c then 0 else
      var n := 1 + FirstIndex(s[1..], c);
      assert forall k :: 1 <= k < n ==> s[k] == s[1..][k - 1];
      n
  }

  /** Index of the last `c`, or the length when there is none. */
  function LastIndex(s: string, c: char): (n: nat)
    ensures n <= |s| && (n < |s| ==> s[n] == c)
    ensures forall k :: n < k < |s| ==> s[k] != c
    ensures n == |s| ==> c !in s
  {
    if s == "" then 0
    else if s[|s| - 1] == c then |s| - 1
    else
      var n := LastIndex(s[..|s| - 1], c);
      assert s == s[..|s| - 1] + [s[|s| - 1]];
      if n == |s| - 1 then |s| else n
  }

  /** What `partition(":")` leaves to the right of the epoch. */
  function Rest(text: string): string {
    var c := FirstIndex(text, ':');
    if c < |text| then text[c + 1..] else text
  }

  /** The epoch, or nothing when its text is not a number; an absent epoch is 0. */
  function Epoch(text: string): Option<nat> {
    var c := FirstIndex(text, ':');
    if c == |text| then Some(0)
    else if c > 0 && AllDigits(text[..c]) then Some(Value(text[..c]))
    else None
  }

  /** Upstream version and revision, cut at the last hyphen. */
  function SplitRevision(rest: string): (string, string) {
    var h := LastIndex(rest, '-');
    if h < |rest| then (rest[..h], rest[h + 1..]) else (rest, "")
  }

  predicate NoSpace(text: string) {
    forall k :: 0 <= k < |text| ==> !IsSpace(text[k])
  }

  predicate WellFormed(epoch: nat, upstream: string, revision: string) {
    IsUpstream(upstream) && IsRevision(revision) && !(':' in upstream && epoch == 0)
  }

  function Parse(text: string): Option<DebianVersion> {
    if text == "" || !NoSpace(text) || Epoch(text).None? then None else
      var epoch, (upstream, revision) := Epoch(text).value, SplitRevision(Rest(text));
      if WellFormed(epoch, upstream, revision) then Some(DebianVersion(epoch, upstream, revision, text)) else None
  }

  predicate HasRevision(v: DebianVersion) {
    '-' in Rest(v.raw)
  }

  predicate Parsed(v: DebianVersion) {
    Parse(v.raw) == Some(v)
  }

  /** The order of two versions: epoch, then upstream version, then revision. */
  function Compare(a: DebianVersion, b: DebianVersion): int {
    if a.epoch != b.epoch then (if a.epoch < b.epoch then -1 else 1)
    else if Fragment(a.upstream, b.upstream) != 0 then Fragment(a.upstream, b.upstream)
    else Fragment(a.revision, b.revision)
  }

  method CompareVersions(a: DebianVersion, b: DebianVersion) returns (r: int)
    ensures r == Compare(a, b)
  {
    if a.epoch != b.epoch {
      return if a.epoch < b.epoch then -1 else 1;
    }
    r := CompareFragment(a.upstream, b.upstream);
    if r == 0 {
      r := CompareFragment(a.revision, b.revision);
    }
  }

  /** `compare` is a total preorder: reflexive, sign-antisymmetric and transitive. */
  lemma {:induction false} CompareReflexive(a: DebianVersion)
    ensures Compare(a, a) == 0
  {
    FragmentReflexive(a.upstream);
    FragmentReflexive(a.revision);
  }

  lemma {:induction false} CompareAntisymmetric(a: DebianVersion, b: DebianVersion)
    ensures Compare(a, b) == -Compare(b, a)
  {
    FragmentAntisymmetric(a.upstream, b.upstream);
    FragmentAntisymmetric(a.revision, b.revision);
  }

  lemma {:induction false} CompareTransitive(a: DebianVersion, b: DebianVersion, c: DebianVersion)
    requires Compare(a, b) <= 0 && Compare(b, c) <= 0
    ensures Compare(a, c) <= 0
    ensures Compare(a, b) < 0 || Compare(b, c) < 0 ==> Compare(a, c) < 0
  {
    if a.epoch == b.epoch == c.epoch {
      FragmentAntisymmetric(a.upstream, b.upstream);
      FragmentAntisymmetric(b.upstream, c.upstream);
      FragmentAntisymmetric(a.upstream, c.upstream);
      FragmentTransitive(a.upstream, b.upstream, c.upstream);
      if Fragment(a.upstream, b.upstream) == 0 && Fragment(b.upstream, c.upstream) == 0 {
        FragmentTransitive(c.upstream, b.upstream, a.upstream);
        FragmentTransitive(a.revision, b.revision, c.revision);
      }
    }
  }

  // ---- Equality and hashing ----

  datatype HashKey = HashKey(epoch: nat, upstream: seq<Token>, revision: seq<Token>)

  method Hash(v: DebianVersion) returns (key: HashKey)
    ensures key == HashKeyOf(v)
  {
    var upstream := NormalizedFragment(v.upstream);
    var revision := NormalizedFragment(v.revision);
    key := HashKey(v.epoch, upstream, revision);
  }

  function HashKeyOf(v: DebianVersion): HashKey {
    HashKey(v.epoch, Normalized(v.upstream), Normalized(v.revision))
  }

  /** Two versions are equal exactly when they hash the same key. */
  lemma {:induction false} EqualIffSameHashKey(a: DebianVersion, b: DebianVersion)
    ensures Compare(a, b) == 0 <==> HashKeyOf(a) == HashKeyOf(b)
  {
    EqualIffSameNormalForm(a.upstream, b.upstream);
    EqualIffSameNormalForm(a.revision, b.revision);
  }

  // ---- The parser ----

  lemma {:induction false} SplitSpelling(rest: string)
    ensures var (u, r) := SplitRevision(rest);
            '-' !in r && rest == if '-' in rest then u + "-" + r else u
  {
    var h := LastIndex(rest, '-');
    if h < |rest| {
      assert rest == rest[..h] + [rest[h]] + rest[h + 1..];
    }
  }

  /** A parsed version is spelled exactly as epoch, upstream version and revision. */
  lemma {:induction false} ParsedSpelling(v: DebianVersion)
    requires Parsed(v)
    ensures WellFormed(v.epoch, v.upstream, v.revision) && '-' !in v.revision
    ensures Rest(v.raw) == if HasRevision(v) then v.upstream + "-" + v.revision else v.upstream
    ensures (v.raw == Rest(v.raw) && v.epoch == 0) ||
            (exists e: string :: AllDigits(e) && v.epoch == Value(e) && v.raw == e + ":" + Rest(v.raw))
  {
    SplitSpelling(Rest(v.raw));
    var c := FirstIndex(v.raw, ':');
    if c < |v.raw| {
      assert v.raw == v.raw[..c] + ":" + Rest(v.raw);
    }
  }

  // ---- Exactly what is a version ----

  predicate IsVersionChar(c: char, punctuation: string) {
    'a' <= c <= 'z' || 'A' <= c <= 'Z' || '0' <= c <= '9' || c in punctuation
  }

  predicate Consists(s: string, punctuation: string) { forall k :: 0 <= k < |s| ==> IsVersionChar(s[k], punctuation) }

  /** What stands in front: nothing and no colon anywhere, or a number and a colon. */
  ghost predicate HasEpoch(text: string, epoch: nat, rest: string) {
    || (text == rest && epoch == 0 && ':' !in text)
    || exists digits: string :: digits != "" && AllDigits(digits) && Value(digits) == epoch && text == digits + ":" + rest
  }

  /** What stands behind the last hyphen, if there is one. */
  predicate HasParts(rest: string, upstream: string, revision: string) {
    || (rest == upstream && revision == "" && '-' !in rest)
    || (rest == upstream + "-" + revision && '-' !in revision)
  }

  /** A version as section 5.6.12 of the Debian Policy Manual spells it. */
  ghost predicate IsSpelled(text: string, epoch: nat, upstream: string, revision: string) {
    && (exists rest: string :: HasEpoch(text, epoch, rest) && HasParts(rest, upstream, revision))
    && upstream != "" && '0' <= upstream[0] <= '9' && Consists(upstream, ".+-:~") && Consists(revision, ".+~")
    && (':' in upstream ==> epoch > 0)
  }

  lemma {:induction false} ClassesAgree(s: string)
    ensures IsRevision(s) <==> Consists(s, ".+~")
    ensures IsUpstream(s) <==> s != "" && '0' <= s[0] <= '9' && Consists(s, ".+-:~")
    ensures AllDigits(s) || IsRevision(s) || IsUpstream(s) ==> NoSpace(s)
  {
    forall c: char
      ensures IsRevisionChar(c) <==> IsVersionChar(c, ".+~")
      ensures IsUpstreamChar(c) <==> IsVersionChar(c, ".+-:~")
      ensures IsDigit(c) || IsUpstreamChar(c) ==> !IsSpace(c)
    {}
  }

  lemma {:induction false} EpochIs(text: string, epoch: nat, rest: string)
    ensures Epoch(text) == Some(epoch) && Rest(text) == rest <==> HasEpoch(text, epoch, rest)
  {
    hide Value;
    var c := FirstIndex(text, ':');
    if c < |text| { assert text == text[..c] + ":" + text[c + 1..]; }
    forall digits: string | digits != "" && AllDigits(digits) && text == digits + ":" + rest
      ensures c == |digits| && text[..c] == digits && text[c + 1..] == rest
    {
      assert text[|digits|] == ':' && forall k :: 0 <= k < |digits| ==> text[k] == digits[k] && IsDigit(text[k]);
    }
  }

  lemma {:induction false} PartsAre(rest: string, upstream: string, revision: string)
    ensures SplitRevision(rest) == (upstream, revision) <==> HasParts(rest, upstream, revision)
  {
    var h := LastIndex(rest, '-');
    if h < |rest| {
      assert rest == rest[..h] + "-" + rest[h + 1..];
      assert rest[h] == '-' && '-' in rest;
    }
    if rest == upstream + "-" + revision && '-' !in revision {
      assert rest[|upstream|] == '-' && forall k :: |upstream| < k < |rest| ==> rest[k] == revision[k - |upstream| - 1];
      assert h == |upstream|;
      assert rest[..h] == upstream && rest[h + 1..] == revision;
    }
  }

  /** The parser accepts exactly the spelled versions, and takes each apart in the one way it is spelled. */
  lemma {:induction false} ParsesIffSpelled(text: string, epoch: nat, upstream: string, revision: string)
    ensures Parse(text) == Some(DebianVersion(epoch, upstream, revision, text)) <==> IsSpelled(text, epoch, upstream, revision)
    ensures Parse(text).Some? ==> Parse(text).value.raw == text
  {
    hide Epoch, Rest, SplitRevision, HasEpoch, HasParts, NoSpace, IsRevision, IsUpstream, Consists;
    ClassesAgree(upstream);
    ClassesAgree(revision);
    forall rest: string
      ensures HasEpoch(text, epoch, rest) <==> Epoch(text) == Some(epoch) && Rest(text) == rest
      ensures HasParts(rest, upstream, revision) <==> SplitRevision(rest) == (upstream, revision)
    {
      EpochIs(text, epoch, rest);
      PartsAre(rest, upstream, revision);
    }
    if IsSpelled(text, epoch, upstream, revision) { SpelledHasNoSpace(text, epoch, Rest(text), upstream, revision); }
  }

  lemma {:induction false} SpelledHasNoSpace(text: string, epoch: nat, rest: string, upstream: string, revision: string)
    requires HasEpoch(text, epoch, rest) && HasParts(rest, upstream, revision)
    requires upstream != "" && NoSpace(upstream) && NoSpace(revision)
    ensures NoSpace(text) && text != ""
  {
    hide Value;
    assert NoSpace(rest);
    forall digits: string | AllDigits(digits) ensures NoSpace(digits) { ClassesAgree(digits); }
    assert NoSpace(":");
  }

  predicate IsSuffix(t: string) {
    t != "" && IsRevision(t)
  }

  lemma {:induction false} EpochAppended(s: string, t: string)
    requires IsSuffix(t)
    ensures Epoch(s + t) == Epoch(s) && Rest(s + t) == Rest(s) + t
  {
    FirstIndexAppended(s, t, ':');
    var c := FirstIndex(s, ':');
    if c < |s| { assert (s + t)[..c] == s[..c]; }
  }

  lemma {:induction false} AppendedCharacters(s: string, t: string)
    requires IsSuffix(t)
    ensures NoSpace(s) ==> NoSpace(s + t)
    ensures IsRevision(s) ==> IsRevision(s + t)
    ensures IsUpstream(s) ==> IsUpstream(s + t) && (':' in s + t <==> ':' in s)
  {
  }

  /** Appending revision characters keeps a version parsable and extends its last component. */
  lemma {:induction false} ParseAppended(v: DebianVersion, t: string)
    requires Parsed(v) && IsSuffix(t)
    ensures Parse(v.raw + t) == Some(
              if HasRevision(v) then v.(revision := v.revision + t, raw := v.raw + t)
              else v.(upstream := v.upstream + t, raw := v.raw + t))
  {
    EpochAppended(v.raw, t);
    SplitAppended(Rest(v.raw), t);
    SplitSpelling(Rest(v.raw));
    AppendedCharacters(v.raw, t);
    AppendedCharacters(v.revision, t);
    AppendedCharacters(v.upstream, t);
  }

  lemma {:induction false} FirstIndexAppended(s: string, t: string, c: char)
    requires c !in t
    ensures FirstIndex(s + t, c) == if FirstIndex(s, c) < |s| then FirstIndex(s, c) else |s + t|
  {
    var m, n := FirstIndex(s, c), FirstIndex(s + t, c);
    assert forall k :: 0 <= k < |s| ==> (s + t)[k] == s[k];
    assert forall k :: |s| <= k < |s + t| ==> (s + t)[k] in t;
  }

  lemma {:induction false} SplitAppended(rest: string, t: string)
    requires '-' !in t
    ensures var (u, r) := SplitRevision(rest);
            SplitRevision(rest + t) == if '-' in rest then (u, r + t) else (u + t, r)
  {
    hide LastIndex;
    var (u, r) := SplitRevision(rest);
    PartsAre(rest, u, r);
    if '-' in rest {
      assert rest + t == u + "-" + (r + t);
      PartsAre(rest + t, u, r + t);
    } else {
      PartsAre(rest + t, u + t, r);
    }
  }

  // ---- The upstream X.Y series ----

  /** The second number of `X.Y`, or 0 when the text after X is not `.` and a digit. */
  function Minor(rest: string): nat {
    if |rest| > 1 && rest[0] == '.' && IsDigit(rest[1]) then Value(rest[1..][..DigitCount(rest[1..])]) else 0
  }

  function Series(v: DebianVersion): (nat, nat) {
    var n := DigitCount(v.upstream);
    (Value(v.upstream[..n]), Minor(v.upstream[n..]))
  }

  /** The whole leading number of a text, and what follows it. */
  predicate Leads(s: string, digits: string, rest: string) {
    s == digits + rest && digits != "" && AllDigits(digits) && !StartsWithDigit(rest)
  }

  /** What a text says behind X: `.` and the number Y, or else anything and Y is 0. */
  ghost predicate SaysMinor(text: string, y: nat) {
    if |text| > 1 && text[0] == '.' && IsDigit(text[1]) then
      exists digits: string, rest: string :: Leads(text[1..], digits, rest) && Value(digits) == y
    else y == 0
  }

  /** An upstream version spells X, followed by Y. */
  ghost predicate Spells(upstream: string, x: nat, y: nat) {
    exists digits: string, rest: string :: Leads(upstream, digits, rest) && Value(digits) == x && SaysMinor(rest, y)
  }

  lemma {:induction false} LeadingDigits(s: string, digits: string, rest: string)
    requires Leads(s, digits, rest)
    ensures DigitCount(s) == |digits| && s[..DigitCount(s)] == digits && s[DigitCount(s)..] == rest
  {
    forall k | 0 <= k < |digits| ensures IsDigit(s[k]) { assert s[k] == digits[k]; }
    DigitCountIs(s, |digits|);
  }

  lemma {:induction false} DigitsLead(s: string)
    requires StartsWithDigit(s)
    ensures Leads(s, s[..DigitCount(s)], s[DigitCount(s)..])
  {
    assert s == s[..DigitCount(s)] + s[DigitCount(s)..];
  }

  lemma {:induction false} MinorIs(text: string, y: nat)
    ensures Minor(text) == y <==> SaysMinor(text, y)
  {
    if |text| > 1 && text[0] == '.' && IsDigit(text[1]) {
      var s := text[1..];
      DigitsLead(s);
      forall digits: string, rest: string | Leads(s, digits, rest) ensures digits == s[..DigitCount(s)] {
        LeadingDigits(s, digits, rest);
      }
    }
  }

  /** The series of an upstream version is X.Y as it is spelled, and nothing else. */
  lemma {:induction false} SeriesIffSpelled(v: DebianVersion, x: nat, y: nat)
    requires IsUpstream(v.upstream)
    ensures Series(v) == (x, y) <==> Spells(v.upstream, x, y)
  {
    hide Minor, SaysMinor, Value;
    var s := v.upstream;
    DigitsLead(s);
    forall digits: string, rest: string | Leads(s, digits, rest)
      ensures digits == s[..DigitCount(s)] && rest == s[DigitCount(s)..]
    {
      LeadingDigits(s, digits, rest);
    }
    MinorIs(s[DigitCount(s)..], y);
  }

  /** `X.Y` in decimal numerals, whatever follows, is the series X.Y. */
  lemma {:induction false} DottedSeries(x: nat, y: nat, tail: string)
    requires !StartsWithDigit(tail)
    ensures Spells(Decimal(x) + "." + Decimal(y) + tail, x, y)
  {
    var text := "." + Decimal(y) + tail;
    DecimalValue(x);
    DecimalValue(y);
    assert text[1..] == Decimal(y) + tail && text[1] == Decimal(y)[0];
    assert Leads(text[1..], Decimal(y), tail);
    assert Decimal(x) + "." + Decimal(y) + tail == Decimal(x) + text;
    assert Leads(Decimal(x) + text, Decimal(x), text);
  }

  /** A single number is the series X.0, and so is one without a dot and a digit behind it. */
  lemma {:induction false} UndottedSeries(x: nat, tail: string)
    requires !StartsWithDigit(tail) && (|tail| > 1 && tail[0] == '.' ==> !IsDigit(tail[1]))
    ensures Spells(Decimal(x) + tail, x, 0)
  {
    DecimalValue(x);
    assert Leads(Decimal(x) + tail, Decimal(x), tail);
  }

  predicate SeriesBefore(a: (nat, nat), b: (nat, nat)) {
    a.0 < b.0 || (a.0 == b.0 && a.1 < b.1)
  }
}
