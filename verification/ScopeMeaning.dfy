/** What the scopes of `src/capability/conflict-detector.ts` mean, and exactly which pairs
    of them are found to overlap. */
module ScopeMeaning {
  import opened ScopeOverlap

  // ---------------------------------------------------------------- normalization

  /** The scope with `/` for every backslash, and without one `./` in front. */
  ghost predicate Slashed(value: Text, slashed: Text) {
    var dot := |value| >= 2 && value[0] == 0x2e && value[1] in {0x2f, 0x5c};
    var n := if dot then 2 else 0;
    && |slashed| == |value| - n
    && forall i :: 0 <= i < |slashed| ==> slashed[i] == if value[n + i] == 0x5c then 0x2f else value[n + i]
  }

  lemma {:induction false} TrailingSlashes(value: Text)
    ensures var r := WithoutTrailingSlashes(value);
            && r <= value && (r == [] || r[|r| - 1] != 0x2f) && forall i :: |r| <= i < |value| ==> value[i] == 0x2f
  {
    if value != [] && value[|value| - 1] == SLASH {
      TrailingSlashes(value[..|value| - 1]);
    }
  }

  /** The normalized scope is the slashed one without the slashes at its end. */
  lemma NormalizedExactly(value: Text, normal: Text)
    ensures normal == NormalizedScope(value) <==>
              exists slashed :: Slashed(value, slashed) && normal <= slashed && (normal == [] || normal[|normal| - 1] != 0x2f)
                                && forall i :: |normal| <= i < |slashed| ==> slashed[i] == 0x2f
  {
    var with := WithSlashes(value);
    var slashed := if [DOT, SLASH] <= with then with[2..] else with;
    assert [DOT, SLASH] <= with <==> |value| >= 2 && with[0] == DOT && with[1] == SLASH;
    assert Slashed(value, slashed);
    TrailingSlashes(slashed);
    hide WithoutTrailingSlashes;
    forall other | Slashed(value, other)
      ensures other == slashed
    {
      assert |other| == |slashed|;
    }
    var r := WithoutTrailingSlashes(slashed);
    if normal <= slashed && (normal == [] || normal[|normal| - 1] != 0x2f)
       && forall i :: |normal| <= i < |slashed| ==> slashed[i] == 0x2f {
      SameCut(slashed, normal, r);
    }
  }

  lemma SameCut(text: Text, a: Text, b: Text)
    requires a <= text && b <= text
    requires (a == [] || a[|a| - 1] != 0x2f) && forall i :: |a| <= i < |text| ==> text[i] == 0x2f
    requires (b == [] || b[|b| - 1] != 0x2f) && forall i :: |b| <= i < |text| ==> text[i] == 0x2f
    ensures a == b
  {
    assert b != [] ==> text[|b| - 1] == b[|b| - 1] != 0x2f;
    assert a != [] ==> text[|a| - 1] == a[|a| - 1] != 0x2f;
    assert a == text[..|a|] && b == text[..|b|];
  }

  // ---------------------------------------------------------------- what a scope covers

  /** The scope, or its regular expression when `acrossLines` is false, takes the path. */
  predicate Takes(scope: Text, path: Text, acrossLines: bool) {
    Matches(Compiled(scope), path, acrossLines)
  }

  /** The laws of globs, from the left: nothing takes nothing; two stars take any text,
      or any text within a line; one star any text without a slash; a question mark any
      character but a slash; and any other character itself. */
  lemma GlobLaws(scope: Text, path: Text, acrossLines: bool)
    ensures scope == [] ==> (Takes(scope, path, acrossLines) <==> path == [])
    ensures |scope| >= 2 && scope[0] == 0x2a && scope[1] == 0x2a ==>
              (Takes(scope, path, acrossLines) <==>
                exists k :: 0 <= k <= |path| && (acrossLines || OneLine(path[..k])) && Takes(scope[2..], path[k..], acrossLines))
    ensures |scope| >= 1 && scope[0] == 0x2a && (|scope| == 1 || scope[1] != 0x2a) ==>
              (Takes(scope, path, acrossLines) <==>
                exists k :: 0 <= k <= |path| && 0x2f !in path[..k] && Takes(scope[1..], path[k..], acrossLines))
    ensures |scope| >= 1 && scope[0] == 0x3f ==>
              (Takes(scope, path, acrossLines) <==> path != [] && path[0] != 0x2f && Takes(scope[1..], path[1..], acrossLines))
    ensures |scope| >= 1 && scope[0] !in {0x2a, 0x3f} ==>
              (Takes(scope, path, acrossLines) <==> path != [] && path[0] == scope[0] && Takes(scope[1..], path[1..], acrossLines))
  {
    if scope != [] { CompiledHead(scope); }
    hide Compiled;
  }

  /** U+000A, U+000D, U+2028 and U+2029. */
  lemma LineTerminatorsAre(c: CodeUnit)
    ensures IsLineTerminator(c) <==> c in {0x000a, 0x000d, 0x2028, 0x2029}
  {
  }

  // ---------------------------------------------------------------- fixed ends

  predicate Wild(scope: Text) {
    0x2a in scope || 0x3f in scope
  }

  /** What stands before the first wildcard. */
  predicate Beginning(scope: Text, prefix: Text) {
    prefix <= scope && !Wild(prefix) && (prefix == scope || scope[|prefix|] in {0x2a, 0x3f})
  }

  /** What stands behind the last one. */
  predicate Ending(scope: Text, suffix: Text) {
    EndsWith(scope, suffix) && !Wild(suffix) && (suffix == scope || scope[|scope| - |suffix| - 1] in {0x2a, 0x3f})
  }

  lemma WildIs(scope: Text)
    ensures HasWildcard(scope) <==> Wild(scope)
  {
    if Wild(scope) {
      var i :| 0 <= i < |scope| && (scope[i] == 0x2a || scope[i] == 0x3f);
      assert IsWildcard(scope[i]);
    }
  }

  lemma {:induction false} PrefixIs(scope: Text)
    ensures Beginning(scope, FixedPrefix(scope))
  {
    if scope != [] && !IsWildcard(scope[0]) {
      PrefixIs(scope[1..]);
      assert scope == [scope[0]] + scope[1..];
    }
  }

  lemma {:induction false} SuffixIs(scope: Text)
    ensures Ending(scope, FixedSuffix(scope))
    decreases |scope|
  {
    hide EndsWith;
    if scope != [] && !IsWildcard(scope[|scope| - 1]) {
      var shorter, last := scope[..|scope| - 1], scope[|scope| - 1];
      SuffixIs(shorter);
      assert scope == shorter + [last];
      EndingGrows(shorter, FixedSuffix(shorter), last);
    } else {
      NothingEnds(scope);
    }
  }

  lemma NothingEnds(scope: Text)
    ensures EndsWith(scope, []) && !Wild([])
  {
  }

  lemma EndingGrows(scope: Text, suffix: Text, last: CodeUnit)
    requires Ending(scope, suffix) && last !in {0x2a, 0x3f}
    ensures Ending(scope + [last], suffix + [last])
  {
    var longer := scope + [last];
    assert longer[|scope| - |suffix|..] == scope[|scope| - |suffix|..] + [last];
    if suffix != scope { assert longer[|scope| - |suffix| - 1] == scope[|scope| - |suffix| - 1]; }
  }

  lemma BeginningIsOne(scope: Text, a: Text, b: Text)
    requires Beginning(scope, a) && Beginning(scope, b)
    ensures a == b
  {
    assert forall k :: 0 <= k < |a| ==> a[k] in a && scope[k] !in {0x2a, 0x3f};
    assert forall k :: 0 <= k < |b| ==> b[k] in b && scope[k] !in {0x2a, 0x3f};
    assert |a| < |scope| ==> scope[|a|] in {0x2a, 0x3f};
    assert |b| < |scope| ==> scope[|b|] in {0x2a, 0x3f};
    assert a == scope[..|a|] && b == scope[..|b|];
  }

  lemma EndingIsOne(scope: Text, a: Text, b: Text)
    requires Ending(scope, a) && Ending(scope, b)
    ensures a == b
  {
    EndingIsNoShorter(scope, a, b);
    EndingIsNoShorter(scope, b, a);
  }

  lemma EndingIsNoShorter(scope: Text, a: Text, b: Text)
    requires Ending(scope, a) && Ending(scope, b)
    ensures |a| >= |b|
  {
    var tail := scope[|scope| - |b|..];
    assert forall k :: 0 <= k < |b| ==> b[k] == tail[k] == scope[|scope| - |b| + k] && b[k] in b;
    assert forall k :: |scope| - |b| <= k < |scope| ==> scope[k] == tail[k - |scope| + |b|];
    assert forall k :: |scope| - |b| <= k < |scope| ==> scope[k] !in {0x2a, 0x3f};
  }

  // ---------------------------------------------------------------- exactly the overlaps

  /** What stands before the first wildcard of one scope begins what stands there in the other. */
  ghost predicate BeginningsMeet(left: Text, right: Text) {
    exists a, b :: Beginning(left, a) && Beginning(right, b) && (a <= b || b <= a)
  }

  /** What stands behind the last wildcard of one ends what stands there in the other. */
  ghost predicate EndingsMeet(left: Text, right: Text) {
    exists a, b :: Ending(left, a) && Ending(right, b) && (EndsWith(a, b) || EndsWith(b, a))
  }

  predicate Everything(scope: Text) {
    scope == [0x2a] || scope == [0x2a, 0x2a]
  }

  /** When two normalized scopes are to be found overlapping: two plain ones when they are
      equal, a plain one and one with wildcards when the expression takes the plain one,
      two with wildcards when their ends meet; and anything with a scope of everything. */
  ghost predicate Overlap(left: Text, right: Text) {
    && left != [] && right != []
    && (Everything(left) || Everything(right)
        || (if Wild(left) && Wild(right) then left == right || (BeginningsMeet(left, right) && EndingsMeet(left, right))
            else if Wild(left) then Takes(left, right, false)
            else if Wild(right) then Takes(right, left, false)
            else left == right))
  }

  /** Two scopes are found to overlap exactly then. */
  lemma OverlapExactly(leftValue: Text, rightValue: Text)
    ensures ScopesOverlap(leftValue, rightValue) <==> Overlap(NormalizedScope(leftValue), NormalizedScope(rightValue))
  {
    var (left, right) := (NormalizedScope(leftValue), NormalizedScope(rightValue));
    hide NormalizedScope, Compiled, Matches, FixedPrefix, FixedSuffix, HasWildcard, BeginningsMeet, EndingsMeet;
    WildIs(left);
    WildIs(right);
    if Wild(left) && Wild(right) {
      WildBeginnings(left, right);
      WildEndings(left, right);
    } else if left == right {
      PlainTakesItself(left);
    }
  }

  lemma PlainTakesItself(scope: Text)
    ensures !Wild(scope) ==> Takes(scope, scope, false)
  {
    WildIs(scope);
    if !Wild(scope) { PlainMatchesItself(scope, scope, false); }
  }

  lemma WildBeginnings(left: Text, right: Text)
    ensures BeginningsMeet(left, right) <==> FixedPrefix(right) <= FixedPrefix(left) || FixedPrefix(left) <= FixedPrefix(right)
  {
    PrefixIs(left);
    PrefixIs(right);
    hide FixedPrefix, Beginning;
    if a, b :| Beginning(left, a) && Beginning(right, b) && (a <= b || b <= a) {
      BeginningIsOne(left, a, FixedPrefix(left));
      BeginningIsOne(right, b, FixedPrefix(right));
    }
  }

  lemma WildEndings(left: Text, right: Text)
    ensures EndingsMeet(left, right) <==>
              FixedSuffix(left) == [] || FixedSuffix(right) == []
              || EndsWith(FixedSuffix(left), FixedSuffix(right)) || EndsWith(FixedSuffix(right), FixedSuffix(left))
  {
    SuffixIs(left);
    SuffixIs(right);
    hide FixedSuffix, Ending;
    assert EndsWith(FixedSuffix(left), []) && EndsWith(FixedSuffix(right), []);
    if a, b :| Ending(left, a) && Ending(right, b) && (EndsWith(a, b) || EndsWith(b, a)) {
      EndingIsOne(left, a, FixedSuffix(left));
      EndingIsOne(right, b, FixedSuffix(right));
    }
  }
}
