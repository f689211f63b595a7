/** Which texts `parseExactSemver` (`src/registry/digests.ts`) accepts and what it makes of
    them, against printing a version. */
module SemverText {
  import opened Wrappers
  import opened Bytes
  import opened Semver

  // ---------- printing ----------

  /** The decimal digits of a number. */
  function Digits(n: nat): (s: Bytes)
    ensures s != []
  {
    if n < 10 then [ZERO + n] else Digits(n / 10) + [ZERO + n % 10]
  }

  function Joined(parts: seq<Bytes>, b: byte): Bytes {
    if parts == [] then [] else if |parts| == 1 then parts[0] else parts[0] + [b] + Joined(parts[1..], b)
  }

  function Rendered(v: Version): Bytes
    requires |v.core| == 3
  {
    Joined([Digits(v.core[0]), Digits(v.core[1]), Digits(v.core[2])], DOT)
    + Tail(HYPHEN, JoinedIds(v.prerelease))
  }

  function BuildSuffix(build: Option<seq<Bytes>>): Bytes {
    Tail(PLUS, JoinedIds(build))
  }

  predicate Digit(b: byte) {
    '0' as int <= b <= '9' as int
  }

  predicate LetterOrHyphen(b: byte) {
    'A' as int <= b <= 'Z' as int || 'a' as int <= b <= 'z' as int || b == '-' as int
  }

  /** An identifier of section 9 or 10: letters, digits and hyphens. */
  predicate Identifier(id: Bytes) {
    id != [] && forall b <- id :: Digit(b) || LetterOrHyphen(b)
  }

  /** One of section 9 is no number with leading zeros. */
  predicate PrereleaseForm(id: Bytes) {
    Identifier(id) && (|id| > 1 && id[0] == '0' as int ==> exists b <- id :: LetterOrHyphen(b))
  }

  /** Three numbers, and with a prerelease at least one identifier. */
  predicate VersionForm(v: Version) {
    |v.core| == 3 && (v.prerelease.Some? ==> v.prerelease.value != [] && forall id <- v.prerelease.value :: PrereleaseForm(id))
  }

  predicate ValidBuild(build: Option<seq<Bytes>>) {
    build.Some? ==> build.value != [] && forall id <- build.value :: Identifier(id)
  }

  lemma IdentifierForms(id: Bytes)
    ensures IsBuildIdentifier(id) <==> Identifier(id)
    ensures IsPrereleaseIdentifier(id) <==> PrereleaseForm(id)
  {
    assert forall b: byte :: IsIdentifierByte(b) <==> Digit(b) || LetterOrHyphen(b);
    assert forall b: byte :: IsDigit(b) <==> Digit(b) && !LetterOrHyphen(b);
    hide IsIdentifierByte, IsDigit, Digit, LetterOrHyphen;
    if forall b <- id :: Digit(b) || LetterOrHyphen(b) {
      forall i | 0 <= i < |id|
        ensures IsIdentifierByte(id[i])
      {
        assert id[i] in id;
      }
      if AllDigits(id) {
        forall b | b in id
          ensures !LetterOrHyphen(b)
        {
          var i :| 0 <= i < |id| && id[i] == b;
        }
      } else {
        var i :| 0 <= i < |id| && !IsDigit(id[i]);
        assert id[i] in id;
      }
    }
    assert '0' as int == ZERO;
  }

  lemma VersionForms(v: Version)
    ensures ValidVersion(v) <==> VersionForm(v)
  {
    hide IsPrereleaseIdentifier, PrereleaseForm;
    if v.prerelease.Some? {
      forall id | id in v.prerelease.value
        ensures IsPrereleaseIdentifier(id) <==> PrereleaseForm(id)
      {
        IdentifierForms(id);
      }
    }
  }

  // ---------- digits ----------

  lemma {:induction false} DigitsAre(n: nat)
    ensures IsNumeric(Digits(n)) && NumberOf(Digits(n)) == n && (n > 0 ==> Digits(n)[0] != ZERO)
  {
    var s := Digits(n);
    if n < 10 {
      assert s == [ZERO + n] && s[..0] == [] && NumberOf(s[..0]) == 0;
    } else {
      DigitsAre(n / 10);
      assert s[..|s| - 1] == Digits(n / 10) && s[|s| - 1] == ZERO + n % 10;
    }
  }

  lemma NumberPrints(s: Bytes)
    requires IsNumeric(s)
    ensures Digits(NumberOf(s)) == s
  {
    DigitsAre(NumberOf(s));
    NumericSpelledOnce(Digits(NumberOf(s)), s);
  }

  // ---------- splitting and joining ----------

  lemma {:induction false} JoinOfSplit(s: Bytes, b: byte)
    ensures Joined(SplitOn(s, b), b) == s && forall part | part in SplitOn(s, b) :: b !in part
    decreases |s|
  {
    var k := FirstIndex(s, b);
    if k < |s| {
      JoinOfSplit(s[k + 1..], b);
      assert SplitOn(s, b)[1..] == SplitOn(s[k + 1..], b);
      assert s == s[..k] + [b] + s[k + 1..];
      assert b !in s[..k];
    }
  }

  lemma {:induction false} SplitOfJoin(parts: seq<Bytes>, b: byte)
    requires parts != [] && forall part | part in parts :: b !in part
    ensures SplitOn(Joined(parts, b), b) == parts
  {
    assert parts[0] in parts;
    if |parts| == 1 {
      assert Joined(parts, b) == parts[0] && parts == [parts[0]];
      FirstIndexIs(parts[0], b, |parts[0]|);
    } else {
      var rest := Joined(parts[1..], b);
      var s := parts[0] + [b] + rest;
      FirstIndexIs(s, b, |parts[0]|);
      assert s[..|parts[0]|] == parts[0] && s[|parts[0]| + 1..] == rest;
      SplitOfJoin(parts[1..], b);
      assert parts == [parts[0]] + parts[1..];
    }
  }

  lemma {:induction false} JoinedBytes(parts: seq<Bytes>, b: byte, x: byte)
    requires x != b && forall part | part in parts :: x !in part
    ensures x !in Joined(parts, b)
  {
    if |parts| == 1 {
      assert parts[0] in parts;
    } else if parts != [] {
      assert parts[0] in parts;
      JoinedBytes(parts[1..], b, x);
    }
  }

  function Tail(b: byte, rest: Option<Bytes>): Bytes {
    if rest.Some? then [b] + rest.value else []
  }

  /** Cutting at the first `b`. */
  lemma Cut(a: Bytes, b: byte, rest: Option<Bytes>)
    requires b !in a
    ensures Semver.Before(a + Tail(b, rest), b) == a && After(a + Tail(b, rest), b) == rest
  {
    var s := a + Tail(b, rest);
    FirstIndexIs(s, b, |a|);
    assert s[..|a|] == a;
    if rest.Some? { assert s[|a| + 1..] == rest.value; }
  }

  lemma Recombined(text: Bytes, b: byte)
    ensures text == Semver.Before(text, b) + Tail(b, After(text, b)) && b !in Semver.Before(text, b)
  {
  }

  function JoinedIds(ids: Option<seq<Bytes>>): Option<Bytes> {
    if ids.Some? then Some(Joined(ids.value, DOT)) else None
  }

  // ---------- exactly the printed versions ----------

  lemma CoreParts(core: seq<nat>)
    requires |core| == 3
    ensures var parts := [Digits(core[0]), Digits(core[1]), Digits(core[2])];
            && (forall i :: 0 <= i < 3 ==> IsNumeric(parts[i]) && NumberOf(parts[i]) == core[i])
            && SplitOn(Joined(parts, DOT), DOT) == parts
            && HYPHEN !in Joined(parts, DOT) && PLUS !in Joined(parts, DOT)
  {
    var parts := [Digits(core[0]), Digits(core[1]), Digits(core[2])];
    DigitsAre(core[0]);
    DigitsAre(core[1]);
    DigitsAre(core[2]);
    assert forall part | part in parts :: AllDigits(part);
    SplitOfJoin(parts, DOT);
    JoinedBytes(parts, DOT, HYPHEN);
    JoinedBytes(parts, DOT, PLUS);
  }

  lemma IdentifierParts(ids: seq<Bytes>)
    requires ids != [] && forall id <- ids :: IsBuildIdentifier(id)
    ensures SplitOn(Joined(ids, DOT), DOT) == ids && PLUS !in Joined(ids, DOT)
  {
    SplitOfJoin(ids, DOT);
    JoinedBytes(ids, DOT, PLUS);
  }

  /** What is printed is parsed. */
  lemma RenderedParses(v: Version, build: Option<seq<Bytes>>)
    requires ValidVersion(v) && ValidBuild(build)
    ensures Parse(Rendered(v) + BuildSuffix(build)) == Ok(v)
  {
    var core := Joined([Digits(v.core[0]), Digits(v.core[1]), Digits(v.core[2])], DOT);
    CoreParts(v.core);
    OptionalParts(v.prerelease);
    OptionalParts(build);
    var version, text := Rendered(v), Rendered(v) + BuildSuffix(build);
    assert PLUS !in version;
    hide Joined, SplitOn, Semver.Before, After, Digits, JoinedIds, Tail, NumberOf, IsNumeric;
    Cut(version, PLUS, JoinedIds(build));
    Cut(core, HYPHEN, JoinedIds(v.prerelease));
    PartsParse(text, v, build);
  }

  lemma OptionalParts(ids: Option<seq<Bytes>>)
    requires ValidBuild(ids)
    ensures JoinedIds(ids).Some? == ids.Some? && PLUS !in Tail(HYPHEN, JoinedIds(ids))
    ensures ids.Some? ==> SplitOn(JoinedIds(ids).value, DOT) == ids.value
  {
    if ids.Some? {
      forall id | id in ids.value
        ensures IsBuildIdentifier(id)
      {
        IdentifierForms(id);
      }
      IdentifierParts(ids.value);
    }
  }

  lemma PartsParse(text: Bytes, v: Version, build: Option<seq<Bytes>>)
    requires ValidVersion(v) && ValidBuild(build)
    requires var version := Semver.Before(text, PLUS);
             var core := [Digits(v.core[0]), Digits(v.core[1]), Digits(v.core[2])];
             && (forall i :: 0 <= i < 3 ==> IsNumeric(core[i]) && NumberOf(core[i]) == v.core[i])
             && SplitOn(Semver.Before(version, HYPHEN), DOT) == core
             && After(version, HYPHEN).Some? == v.prerelease.Some? && After(text, PLUS).Some? == build.Some?
             && (v.prerelease.Some? ==> SplitOn(After(version, HYPHEN).value, DOT) == v.prerelease.value)
             && (build.Some? ==> SplitOn(After(text, PLUS).value, DOT) == build.value)
    ensures Parse(text) == Ok(v)
  {
    if build.Some? {
      forall id | id in build.value
        ensures IsBuildIdentifier(id)
      {
        IdentifierForms(id);
      }
    }
    hide Semver.Before, After, SplitOn, Digits, NumberOf;
    var core := [Digits(v.core[0]), Digits(v.core[1]), Digits(v.core[2])];
    assert Numbers(core) == v.core;
  }

  lemma JoinedAgain(part: Option<Bytes>) returns (ids: Option<seq<Bytes>>)
    ensures JoinedIds(ids) == part && (part.Some? ==> ids == Some(SplitOn(part.value, DOT)))
  {
    if part.Some? {
      JoinOfSplit(part.value, DOT);
      ids := Some(SplitOn(part.value, DOT));
    } else {
      ids := None;
    }
  }

  lemma CorePrints(core: seq<Bytes>)
    requires |core| == 3 && IsNumeric(core[0]) && IsNumeric(core[1]) && IsNumeric(core[2])
    ensures core == [Digits(NumberOf(core[0])), Digits(NumberOf(core[1])), Digits(NumberOf(core[2]))]
  {
    NumberPrints(core[0]);
    NumberPrints(core[1]);
    NumberPrints(core[2]);
    hide Digits, NumberOf, IsNumeric;
  }

  /** What is parsed was printed. */
  lemma ParsedIsRendered(text: Bytes) returns (build: Option<seq<Bytes>>)
    requires Parse(text).Ok?
    ensures ValidBuild(build) && text == Rendered(Parse(text).value) + BuildSuffix(build)
  {
    hide Joined, SplitOn, Semver.Before, After, Digits, NumberOf, JoinedIds, Tail, IsNumeric;
    var version := Semver.Before(text, PLUS);
    var core := SplitOn(Semver.Before(version, HYPHEN), DOT);
    Recombined(text, PLUS);
    Recombined(version, HYPHEN);
    JoinOfSplit(Semver.Before(version, HYPHEN), DOT);
    build := JoinedAgain(After(text, PLUS));
    var prerelease := JoinedAgain(After(version, HYPHEN));
    NothingJoined(prerelease, After(version, HYPHEN));
    NothingJoined(build, After(text, PLUS));
    assert core[0] in core && core[1] in core && core[2] in core;
    CorePrints(core);
  }

  lemma NothingJoined(ids: Option<seq<Bytes>>, part: Option<Bytes>)
    requires JoinedIds(ids) == part
    ensures ids.Some? == part.Some?
  {
  }

  /** A text is parsed into a version exactly when it is that version as printed, with or
      without build metadata. */
  lemma ParsesExactly(text: Bytes, v: Version)
    ensures Parse(text) == Ok(v) <==>
              VersionForm(v) && exists build :: ValidBuild(build) && text == Rendered(v) + BuildSuffix(build)
  {
    VersionForms(v);
    hide Parse, Rendered, BuildSuffix, ValidVersion;
    if Parse(text) == Ok(v) {
      var build := ParsedIsRendered(text);
    }
    if VersionForm(v) {
      forall build | ValidBuild(build) && text == Rendered(v) + BuildSuffix(build)
        ensures Parse(text) == Ok(v)
      {
        RenderedParses(v, build);
      }
    }
  }
}
