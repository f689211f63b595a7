/** Exact semantic versions and their order (`src/registry/digests.ts`), against the
    precedence of section 11 of Semantic Versioning 2.0.0. */
module Semver {
  import opened Wrappers
  import opened Bytes

  const DOT: byte := 0x2e
  const HYPHEN: byte := 0x2d
  const PLUS: byte := 0x2b
  const ZERO: byte := 0x30

  datatype SemverError = InvalidVersion

  /** Core numbers as exact integers; build metadata is dropped. */
  datatype Version = Version(core: seq<nat>, prerelease: Option<seq<Bytes>>)

  predicate IsDigit(b: byte) {
    0x30 <= b <= 0x39
  }

  predicate AllDigits(s: Bytes) {
    forall i :: 0 <= i < |s| ==> IsDigit(s[i])
  }

  predicate IsIdentifierByte(b: byte) {
    IsDigit(b) || 0x41 <= b <= 0x5a || 0x61 <= b <= 0x7a || b == HYPHEN
  }

  /** `0|[1-9]\d*` */
  predicate IsNumeric(s: Bytes) {
    s != [] && AllDigits(s) && (|s| == 1 || s[0] != ZERO)
  }

  /** `[0-9A-Za-z-]+` */
  predicate IsBuildIdentifier(s: Bytes) {
    s != [] && forall i :: 0 <= i < |s| ==> IsIdentifierByte(s[i])
  }

  /** A number without leading zeros, or with some letter or hyphen. */
  predicate IsPrereleaseIdentifier(s: Bytes) {
    IsBuildIdentifier(s) && (AllDigits(s) ==> IsNumeric(s))
  }

  function NumberOf(s: Bytes): nat
    requires AllDigits(s)
  {
    if s == [] then 0 else NumberOf(s[..|s| - 1]) * 10 + (s[|s| - 1] - ZERO) as nat
  }

  predicate ValidVersion(v: Version) {
    |v.core| == 3 && (v.prerelease.Some? ==> v.prerelease.value != [] && forall id <- v.prerelease.value :: IsPrereleaseIdentifier(id))
  }

  function Before(text: Bytes, b: byte): Bytes {
    text[..FirstIndex(text, b)]
  }

  /** What follows the first `b`, if there is one. */
  function After(text: Bytes, b: byte): Option<Bytes> {
    var k := FirstIndex(text, b);
    if k < |text| then Some(text[k + 1..]) else None
  }

  function Numbers(parts: seq<Bytes>): (r: seq<nat>)
    requires forall i :: 0 <= i < |parts| ==> IsNumeric(parts[i])
    ensures |r| == |parts|
  {
    seq(|parts|, i requires 0 <= i < |parts| && IsNumeric(parts[i]) => NumberOf(parts[i]))
  }

  /** `parseExactSemver`: build metadata after the first `+`, a prerelease after the first
      `-` of what precedes it. */
  function Parse(text: Bytes): (r: Result<Version, SemverError>)
    ensures r.Ok? ==> ValidVersion(r.value)
  {
    var build := After(text, PLUS);
    var version := Before(text, PLUS);
    var prerelease := After(version, HYPHEN);
    var core := SplitOn(Before(version, HYPHEN), DOT);
    if build.Some? && exists id <- SplitOn(build.value, DOT) :: !IsBuildIdentifier(id) then Err(InvalidVersion)
    else if prerelease.Some? && exists id <- SplitOn(prerelease.value, DOT) :: !IsPrereleaseIdentifier(id) then Err(InvalidVersion)
    else if |core| != 3 || exists part <- core :: !IsNumeric(part) then Err(InvalidVersion)
    else Ok(Version(Numbers(core), if prerelease.Some? then Some(SplitOn(prerelease.value, DOT)) else None))
  }

  // ---------------------------------------------------------------- comparison

  function Sign(a: int, b: int): int {
    if a == b then 0 else if a < b then -1 else 1
  }

  /** `comparePrereleaseIdentifier`. */
  function CompareIdentifier(a: Bytes, b: Bytes): int {
    if AllDigits(a) && AllDigits(b) then Sign(NumberOf(a), NumberOf(b))
    else if AllDigits(a) != AllDigits(b) then if AllDigits(a) then -1 else 1
    else Compare(a, b)
  }

  function CompareIdentifiers(a: seq<Bytes>, b: seq<Bytes>): int {
    if a == [] || b == [] then Sign(|a|, |b|)
    else if CompareIdentifier(a[0], b[0]) != 0 then CompareIdentifier(a[0], b[0])
    else CompareIdentifiers(a[1..], b[1..])
  }

  function CompareCore(a: seq<nat>, b: seq<nat>): int
    requires |a| == |b|
  {
    if a == [] then 0 else if a[0] != b[0] then Sign(a[0], b[0]) else CompareCore(a[1..], b[1..])
  }

  function ComparePrerelease(a: Option<seq<Bytes>>, b: Option<seq<Bytes>>): int {
    if a.None? && b.None? then 0
    else if a.None? then 1
    else if b.None? then -1
    else CompareIdentifiers(a.value, b.value)
  }

  function CompareVersions(a: Version, b: Version): int
    requires |a.core| == |b.core|
  {
    if CompareCore(a.core, b.core) != 0 then CompareCore(a.core, b.core) else ComparePrerelease(a.prerelease, b.prerelease)
  }

  /** The order of two version texts. */
  function Ordered(left: Bytes, right: Bytes): Result<int, SemverError> {
    var leftVersion :- Parse(left);
    var rightVersion :- Parse(right);
    Ok(CompareVersions(leftVersion, rightVersion))
  }

  /** `compareExactSemver`, with its two index loops. */
  method CompareExactSemver(left: Bytes, right: Bytes) returns (r: Result<int, SemverError>)
    ensures r == Ordered(left, right)
  {
    var leftVersion :- Parse(left);
    var rightVersion :- Parse(right);
    var a, b := leftVersion.core, rightVersion.core;
    assert a[0..] == a && b[0..] == b;
    for i: nat := 0 to 3
      invariant CompareCore(a, b) == CompareCore(a[i..], b[i..])
    {
      if a[i] != b[i] { return Ok(if a[i] < b[i] then -1 else 1); }
      assert a[i..][1..] == a[i + 1..] && b[i..][1..] == b[i + 1..];
    }
    if leftVersion.prerelease.None? || rightVersion.prerelease.None? {
      if leftVersion.prerelease == rightVersion.prerelease { return Ok(0); }
      return Ok(if leftVersion.prerelease.None? then 1 else -1);
    }
    var order := ComparePrereleases(leftVersion.prerelease.value, rightVersion.prerelease.value);
    return Ok(order);
  }

  method ComparePrereleases(a: seq<Bytes>, b: seq<Bytes>) returns (r: int)
    ensures r == CompareIdentifiers(a, b)
  {
    var compared := if |a| < |b| then |a| else |b|;
    assert a[0..] == a && b[0..] == b;
    for i: nat := 0 to compared
      invariant CompareIdentifiers(a, b) == CompareIdentifiers(a[i..], b[i..])
    {
      var comparison := CompareIdentifier(a[i], b[i]);
      if comparison != 0 { return comparison; }
      assert a[i..][1..] == a[i + 1..] && b[i..][1..] == b[i + 1..];
    }
    return Sign(|a|, |b|);
  }

  // ---------------------------------------------------------------- section 11

  /** Rule 11.4.1 to 11.4.3: numbers numerically, below all others; those in ASCII order. */
  ghost predicate IdentifierLower(a: Bytes, b: Bytes) {
    if AllDigits(a) && AllDigits(b) then NumberOf(a) < NumberOf(b)
    else if AllDigits(a) != AllDigits(b) then AllDigits(a)
    else LexLower(a, b)
  }

  /** Rule 11.4: the first difference from left to right decides, and rule 11.4.4: with no
      difference the shorter list is lower. */
  ghost predicate IdentifiersLower(a: seq<Bytes>, b: seq<Bytes>) {
    exists m :: 0 <= m <= |a| && m < |b| && a[..m] == b[..m] && (m == |a| || IdentifierLower(a[m], b[m]))
  }

  /** Rule 11.2: major, minor and patch in this order, numerically. */
  ghost predicate CoreLower(a: seq<nat>, b: seq<nat>)
    requires |a| == |b| == 3
  {
    a[0] < b[0] || (a[0] == b[0] && (a[1] < b[1] || (a[1] == b[1] && a[2] < b[2])))
  }

  /** Rules 11.2 to 11.4; rule 11.3: a prerelease is below the version without one. */
  ghost predicate Precedes(a: Version, b: Version)
    requires |a.core| == |b.core| == 3
  {
    CoreLower(a.core, b.core)
    || (a.core == b.core && a.prerelease.Some? && (b.prerelease.None? || IdentifiersLower(a.prerelease.value, b.prerelease.value)))
  }

  // ---------------------------------------------------------------- identifiers

  lemma {:induction false} NumberIsZero(s: Bytes)
    requires AllDigits(s) && (s == [] || s[0] != ZERO)
    ensures NumberOf(s) == 0 <==> s == []
  {
    if s != [] {
      NumberIsZero(s[..|s| - 1]);
    }
  }

  /** Numbers without leading zeros have one spelling. */
  lemma {:induction false} NumberSpelledOnce(a: Bytes, b: Bytes)
    requires AllDigits(a) && AllDigits(b) && (a == [] || a[0] != ZERO) && (b == [] || b[0] != ZERO)
    requires NumberOf(a) == NumberOf(b)
    ensures a == b
  {
    NumberIsZero(a);
    NumberIsZero(b);
    if a != [] && b != [] {
      var a', b' := a[..|a| - 1], b[..|b| - 1];
      assert NumberOf(a) % 10 == (a[|a| - 1] - ZERO) as nat && NumberOf(b) % 10 == (b[|b| - 1] - ZERO) as nat;
      NumberSpelledOnce(a', b');
      assert a == a' + [a[|a| - 1]] && b == b' + [b[|b| - 1]];
    }
  }

  lemma NumericIsZero(s: Bytes)
    requires IsNumeric(s)
    ensures NumberOf(s) == 0 <==> s == [ZERO]
  {
    if s[0] == ZERO {
      assert s == [ZERO] && s[..0] == [] && NumberOf(s[..0]) == 0;
    } else {
      NumberIsZero(s);
    }
  }

  lemma NumericSpelledOnce(a: Bytes, b: Bytes)
    requires IsNumeric(a) && IsNumeric(b) && NumberOf(a) == NumberOf(b)
    ensures a == b
  {
    NumericIsZero(a);
    NumericIsZero(b);
    if a != [ZERO] && b != [ZERO] {
      NumberSpelledOnce(a, b);
    }
  }

  lemma IdentifierOrder(a: Bytes, b: Bytes)
    requires IsPrereleaseIdentifier(a) && IsPrereleaseIdentifier(b)
    ensures CompareIdentifier(a, b) == 0 <==> a == b
    ensures CompareIdentifier(a, b) < 0 <==> IdentifierLower(a, b)
    ensures CompareIdentifier(a, b) == -CompareIdentifier(b, a)
  {
    CompareZero(a, b);
    CompareIs(a, b);
    CompareAntisymmetric(a, b);
    if AllDigits(a) && AllDigits(b) && NumberOf(a) == NumberOf(b) {
      NumericSpelledOnce(a, b);
    }
  }

  lemma IdentifierTransitive(a: Bytes, b: Bytes, c: Bytes)
    requires CompareIdentifier(a, b) <= 0 && CompareIdentifier(b, c) <= 0
    ensures CompareIdentifier(a, c) <= 0
    ensures CompareIdentifier(a, b) < 0 || CompareIdentifier(b, c) < 0 ==> CompareIdentifier(a, c) < 0
  {
    if !AllDigits(a) && !AllDigits(b) && !AllDigits(c) {
      CompareTransitive(a, b, c);
    }
  }

  // ---------------------------------------------------------------- lists of identifiers

  ghost predicate AllValid(ids: seq<Bytes>) {
    forall id <- ids :: IsPrereleaseIdentifier(id)
  }

  lemma {:induction false} IdentifiersOrder(a: seq<Bytes>, b: seq<Bytes>)
    requires AllValid(a) && AllValid(b)
    ensures CompareIdentifiers(a, b) == 0 <==> a == b
    ensures CompareIdentifiers(a, b) == -CompareIdentifiers(b, a)
  {
    if a != [] && b != [] {
      IdentifierOrder(a[0], b[0]);
      IdentifiersOrder(a[1..], b[1..]);
      assert a == [a[0]] + a[1..] && b == [b[0]] + b[1..];
    }
  }

  lemma {:induction false} IdentifiersArePrecedence(a: seq<Bytes>, b: seq<Bytes>)
    requires AllValid(a) && AllValid(b)
    ensures CompareIdentifiers(a, b) < 0 <==> IdentifiersLower(a, b)
  {
    if a == [] || b == [] {
      if b != [] { assert a[..0] == b[..0]; }
    } else {
      IdentifierOrder(a[0], b[0]);
      if a[0] == b[0] {
        IdentifiersArePrecedence(a[1..], b[1..]);
        LowerBehindHead(a, b);
      } else {
        assert a[..0] == b[..0];
        assert forall m :: 0 < m <= |a| && m < |b| ==> a[..m][0] != b[..m][0];
      }
    }
  }

  lemma LowerBehindHead(a: seq<Bytes>, b: seq<Bytes>)
    requires a != [] && b != [] && a[0] == b[0]
    requires !IdentifierLower(a[0], b[0])
    ensures IdentifiersLower(a, b) <==> IdentifiersLower(a[1..], b[1..])
  {
    hide IdentifierLower;
    if IdentifiersLower(a[1..], b[1..]) {
      var m :| 0 <= m <= |a[1..]| && m < |b[1..]| && a[1..][..m] == b[1..][..m] && (m == |a[1..]| || IdentifierLower(a[1..][m], b[1..][m]));
      assert a[..m + 1] == [a[0]] + a[1..][..m] && b[..m + 1] == [b[0]] + b[1..][..m];
    }
    if IdentifiersLower(a, b) {
      var m :| 0 <= m <= |a| && m < |b| && a[..m] == b[..m] && (m == |a| || IdentifierLower(a[m], b[m]));
      assert a[1..][..m - 1] == a[..m][1..] && b[1..][..m - 1] == b[..m][1..];
    }
  }

  lemma {:induction false} IdentifiersTransitive(a: seq<Bytes>, b: seq<Bytes>, c: seq<Bytes>)
    requires CompareIdentifiers(a, b) <= 0 && CompareIdentifiers(b, c) <= 0
    ensures CompareIdentifiers(a, c) <= 0
    ensures CompareIdentifiers(a, b) < 0 || CompareIdentifiers(b, c) < 0 ==> CompareIdentifiers(a, c) < 0
  {
    if a != [] && b != [] && c != [] {
      hide CompareIdentifier;
      IdentifierTransitive(a[0], b[0], c[0]);
      if CompareIdentifier(a[0], b[0]) == 0 && CompareIdentifier(b[0], c[0]) == 0 {
        IdentifiersTransitive(a[1..], b[1..], c[1..]);
        SameIdentifiersCompareEqual(a[0], b[0], c[0]);
      }
    }
  }

  lemma SameIdentifiersCompareEqual(a: Bytes, b: Bytes, c: Bytes)
    requires CompareIdentifier(a, b) == 0 && CompareIdentifier(b, c) == 0
    ensures CompareIdentifier(a, c) == 0
  {
    if !AllDigits(a) {
      CompareZero(a, b);
      CompareZero(b, c);
      CompareZero(a, c);
    }
  }

  // ---------------------------------------------------------------- versions

  lemma CoreOrder(a: seq<nat>, b: seq<nat>)
    requires |a| == |b| == 3
    ensures CompareCore(a, b) == 0 <==> a == b
    ensures CompareCore(a, b) < 0 <==> CoreLower(a, b)
    ensures CompareCore(a, b) == -CompareCore(b, a)
  {
    var a1, b1, a2, b2 := a[1..], b[1..], a[2..], b[2..];
    assert a1[1..] == a2 && b1[1..] == b2 && a2[1..] == [] && b2[1..] == [];
    assert CompareCore(a2, b2) == if a[2] == b[2] then 0 else Sign(a[2], b[2]);
    assert CompareCore(b2, a2) == if a[2] == b[2] then 0 else Sign(b[2], a[2]);
    assert CompareCore(a1, b1) == if a[1] != b[1] then Sign(a[1], b[1]) else CompareCore(a2, b2);
    assert CompareCore(b1, a1) == if a[1] != b[1] then Sign(b[1], a[1]) else CompareCore(b2, a2);
    if a[0] == b[0] && a[1] == b[1] && a[2] == b[2] { assert a == b; }
  }

  /** The comparison is the precedence of section 11, and says 0 exactly for versions that
      agree in core and prerelease. */
  lemma ComparesByPrecedence(a: Version, b: Version)
    requires ValidVersion(a) && ValidVersion(b)
    ensures CompareVersions(a, b) < 0 <==> Precedes(a, b)
    ensures CompareVersions(a, b) > 0 <==> Precedes(b, a)
    ensures CompareVersions(a, b) == 0 <==> a == b
    ensures CompareVersions(a, b) == -CompareVersions(b, a)
  {
    hide CompareCore, CoreLower, CompareIdentifiers, IdentifiersLower;
    CoreOrder(a.core, b.core);
    CoreOrder(b.core, a.core);
    if a.prerelease.Some? && b.prerelease.Some? {
      IdentifiersOrder(a.prerelease.value, b.prerelease.value);
      IdentifiersArePrecedence(a.prerelease.value, b.prerelease.value);
      IdentifiersArePrecedence(b.prerelease.value, a.prerelease.value);
    }
  }

  lemma ComparesTransitively(a: Version, b: Version, c: Version)
    requires ValidVersion(a) && ValidVersion(b) && ValidVersion(c)
    requires CompareVersions(a, b) <= 0 && CompareVersions(b, c) <= 0
    ensures CompareVersions(a, c) <= 0
    ensures CompareVersions(a, b) < 0 || CompareVersions(b, c) < 0 ==> CompareVersions(a, c) < 0
  {
    hide CompareCore, CompareIdentifiers;
    CoreOrder(a.core, b.core);
    CoreOrder(b.core, c.core);
    CoreOrder(a.core, c.core);
    if a.prerelease.Some? && b.prerelease.Some? && c.prerelease.Some?
       && CompareIdentifiers(a.prerelease.value, b.prerelease.value) <= 0 && CompareIdentifiers(b.prerelease.value, c.prerelease.value) <= 0 {
      IdentifiersTransitive(a.prerelease.value, b.prerelease.value, c.prerelease.value);
    }
  }

  /** Build metadata does not count. */
  lemma BuildIsIgnored(text: Bytes, build: Bytes)
    requires PLUS !in text && Parse(text).Ok? && forall id <- SplitOn(build, DOT) :: IsBuildIdentifier(id)
    ensures Parse(text + [PLUS] + build) == Parse(text)
  {
    var whole := text + [PLUS] + build;
    FirstIndexIs(whole, PLUS, |text|);
    FirstIndexIs(text, PLUS, |text|);
    assert whole[..|text|] == text && whole[|text| + 1..] == build && text[..|text|] == text;
  }
}
