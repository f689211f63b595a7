/** Overlap of write scopes (`src/capability/conflict-detector.ts`): globs over UTF-16 code
    units, as regular expressions without the `u` and `s` flags see them. */
module ScopeOverlap {
  type CodeUnit = n: int | 0 <= n < 0x1_0000
  type Text = seq<CodeUnit>

  const SLASH: CodeUnit := 0x2f
  const BACKSLASH: CodeUnit := 0x5c
  const DOT: CodeUnit := 0x2e
  const STAR: CodeUnit := 0x2a
  const QUESTION: CodeUnit := 0x3f

  // ---------------------------------------------------------------- normalization

  function WithSlashes(value: Text): (r: Text)
    ensures |r| == |value|
  {
    seq(|value|, i requires 0 <= i < |value| => if value[i] == BACKSLASH then SLASH else value[i])
  }

  function WithoutTrailingSlashes(value: Text): Text {
    if value != [] && value[|value| - 1] == SLASH then WithoutTrailingSlashes(value[..|value| - 1]) else value
  }

  /** `normalizedScope`. */
  function NormalizedScope(value: Text): Text {
    var slashed := WithSlashes(value);
    WithoutTrailingSlashes(if [DOT, SLASH] <= slashed then slashed[2..] else slashed)
  }

  predicate IsWildcard(c: CodeUnit) {
    c == STAR || c == QUESTION
  }

  predicate HasWildcard(pattern: Text) {
    exists i :: 0 <= i < |pattern| && IsWildcard(pattern[i])
  }

  function FixedPrefix(pattern: Text): Text {
    if pattern == [] || IsWildcard(pattern[0]) then [] else [pattern[0]] + FixedPrefix(pattern[1..])
  }

  function FixedSuffix(pattern: Text): Text {
    if pattern == [] || IsWildcard(pattern[|pattern| - 1]) then [] else FixedSuffix(pattern[..|pattern| - 1]) + [pattern[|pattern| - 1]]
  }

  // ---------------------------------------------------------------- globs

  datatype Piece = AnyDeep | AnySegment | One | Exactly(c: CodeUnit)

  /** Two stars are paired from the left. */
  function Compiled(pattern: Text): seq<Piece> {
    if pattern == [] then []
    else if pattern[0] == STAR && |pattern| > 1 && pattern[1] == STAR then [AnyDeep] + Compiled(pattern[2..])
    else if pattern[0] == STAR then [AnySegment] + Compiled(pattern[1..])
    else if pattern[0] == QUESTION then [One] + Compiled(pattern[1..])
    else [Exactly(pattern[0])] + Compiled(pattern[1..])
  }

  predicate IsLineTerminator(c: CodeUnit) {
    c == 0x0a || c == 0x0d || c == 0x2028 || c == 0x2029
  }

  /** `**` takes any text, or any text within one line; `*` and `?` stay within a segment. */
  predicate Matches(pieces: seq<Piece>, text: Text, acrossLines: bool) {
    if pieces == [] then text == []
    else match pieces[0]
      case Exactly(c) => text != [] && text[0] == c && Matches(pieces[1..], text[1..], acrossLines)
      case One => text != [] && text[0] != SLASH && Matches(pieces[1..], text[1..], acrossLines)
      case AnySegment => exists k :: 0 <= k <= |text| && SLASH !in text[..k] && Matches(pieces[1..], text[k..], acrossLines)
      case AnyDeep =>
        exists k :: 0 <= k <= |text| && (acrossLines || OneLine(text[..k])) && Matches(pieces[1..], text[k..], acrossLines)
  }

  predicate OneLine(text: Text) {
    forall i :: 0 <= i < |text| ==> !IsLineTerminator(text[i])
  }

  /** What the scope is meant to cover: `**` crosses anything. */
  predicate Covers(scope: Text, path: Text) {
    Matches(Compiled(scope), path, true)
  }

  /** `globRegex`, with its index that skips the second of two stars. */
  method GlobRegex(pattern: Text) returns (pieces: seq<Piece>)
    ensures pieces == Compiled(pattern)
  {
    pieces := [];
    var index: nat := 0;
    assert pattern[0..] == pattern && [] + Compiled(pattern) == Compiled(pattern);
    while index < |pattern|
      invariant index <= |pattern| && Compiled(pattern) == pieces + Compiled(pattern[index..])
    {
      CompiledGoesOn(pattern, index, pieces);
      hide Compiled;
      var character := pattern[index];
      if character == STAR && index + 1 < |pattern| && pattern[index + 1] == STAR {
        pieces := pieces + [AnyDeep];
        index := index + 1;
      } else if character == STAR {
        pieces := pieces + [AnySegment];
      } else if character == QUESTION {
        pieces := pieces + [One];
      } else {
        pieces := pieces + [Exactly(character)];
      }
      index := index + 1;
    }
    assert pieces + [] == pieces;
  }

  function PieceAt(pattern: Text, index: nat): Piece
    requires index < |pattern|
  {
    if pattern[index] == STAR && index + 1 < |pattern| && pattern[index + 1] == STAR then AnyDeep
    else if pattern[index] == STAR then AnySegment
    else if pattern[index] == QUESTION then One
    else Exactly(pattern[index])
  }

  lemma CompiledGoesOn(pattern: Text, index: nat, pieces: seq<Piece>)
    requires index < |pattern|
    ensures var n := if PieceAt(pattern, index).AnyDeep? then 2 else 1;
            index + n <= |pattern| && pieces + Compiled(pattern[index..]) == pieces + [PieceAt(pattern, index)] + Compiled(pattern[index + n..])
  {
    var n := if PieceAt(pattern, index).AnyDeep? then 2 else 1;
    CompiledHead(pattern[index..]);
    assert pattern[index..][n..] == pattern[index + n..];
    var compiled := Compiled(pattern[index..]);
    assert compiled == [PieceAt(pattern, index)] + compiled[1..];
    assert pieces + ([compiled[0]] + compiled[1..]) == pieces + [compiled[0]] + compiled[1..];
  }

  predicate EndsWith(text: Text, suffix: Text) {
    |suffix| <= |text| && text[|text| - |suffix|..] == suffix
  }

  predicate CoversAll(scope: Text) {
    scope == [STAR] || scope == [STAR, STAR]
  }

  /** `scopesOverlap`. */
  function ScopesOverlap(leftValue: Text, rightValue: Text): bool {
    var (left, right) := (NormalizedScope(leftValue), NormalizedScope(rightValue));
    if left == [] || right == [] then false
    else if left == right || CoversAll(left) || CoversAll(right) then true
    else if HasWildcard(left) && !HasWildcard(right) && Matches(Compiled(left), right, false) then true
    else if !HasWildcard(left) && HasWildcard(right) && Matches(Compiled(right), left, false) then true
    else if !HasWildcard(left) || !HasWildcard(right) then false
    else if !(FixedPrefix(right) <= FixedPrefix(left) || FixedPrefix(left) <= FixedPrefix(right)) then false
    else
      var (leftSuffix, rightSuffix) := (FixedSuffix(left), FixedSuffix(right));
      leftSuffix == [] || rightSuffix == [] || EndsWith(leftSuffix, rightSuffix) || EndsWith(rightSuffix, leftSuffix)
  }

  lemma OverlapIsSymmetric(left: Text, right: Text)
    ensures ScopesOverlap(left, right) == ScopesOverlap(right, left)
  {
  }

  // ---------------------------------------------------------------- what a match fixes

  lemma {:induction false} PlainMatchesItself(pattern: Text, path: Text, acrossLines: bool)
    requires !HasWildcard(pattern)
    ensures Matches(Compiled(pattern), path, acrossLines) <==> path == pattern
  {
    if pattern != [] {
      assert !IsWildcard(pattern[0]) && !HasWildcard(pattern[1..]) by {
        assert forall i :: 0 <= i < |pattern[1..]| ==> pattern[1..][i] == pattern[i + 1];
      }
      CompiledHead(pattern);
      hide Compiled, HasWildcard;
      if path != [] {
        PlainMatchesItself(pattern[1..], path[1..], acrossLines);
        assert pattern == [pattern[0]] + pattern[1..] && path == [path[0]] + path[1..];
      }
    }
  }

  /** What the first piece is, and what follows it. */
  lemma CompiledHead(pattern: Text)
    requires pattern != []
    ensures var n := if pattern[0] == STAR && |pattern| > 1 && pattern[1] == STAR then 2 else 1;
            Compiled(pattern) != [] && Compiled(pattern)[1..] == Compiled(pattern[n..])
            && Compiled(pattern)[0] == if n == 2 then AnyDeep
                                       else if pattern[0] == STAR then AnySegment
                                       else if pattern[0] == QUESTION then One else Exactly(pattern[0])
  {
  }

  lemma {:induction false} MatchStartsWithPrefix(pattern: Text, path: Text)
    requires Covers(pattern, path)
    ensures FixedPrefix(pattern) <= path
  {
    if pattern != [] && !IsWildcard(pattern[0]) {
      CompiledHead(pattern);
      MatchStartsWithPrefix(pattern[1..], path[1..]);
      assert path == [path[0]] + path[1..];
    }
  }

  /** A match takes some of the text for the first piece, and matches the rest. */
  lemma MatchGoesOn(pattern: Text, path: Text) returns (n: nat, k: nat)
    requires pattern != [] && Covers(pattern, path)
    ensures 1 <= n <= |pattern| && k <= |path| && Covers(pattern[n..], path[k..])
    ensures forall i :: 1 <= i < n ==> IsWildcard(pattern[i])
    ensures !IsWildcard(pattern[0]) ==> n == 1 && k == 1 && path[0] == pattern[0]
  {
    CompiledHead(pattern);
    n := if pattern[0] == STAR && |pattern| > 1 && pattern[1] == STAR then 2 else 1;
    var rest := Compiled(pattern)[1..];
    if Compiled(pattern)[0].Exactly? || Compiled(pattern)[0].One? {
      k := 1;
    } else if Compiled(pattern)[0].AnySegment? {
      var j :| 0 <= j <= |path| && SLASH !in path[..j] && Matches(rest, path[j..], true);
      k := j;
    } else {
      var j :| 0 <= j <= |path| && Matches(rest, path[j..], true);
      k := j;
    }
  }

  lemma {:induction false} SuffixOfTail(pattern: Text, n: nat)
    requires n <= |pattern|
    ensures HasWildcard(pattern[n..]) ==> FixedSuffix(pattern[n..]) == FixedSuffix(pattern)
    ensures !HasWildcard(pattern[n..]) && n > 0 && IsWildcard(pattern[n - 1]) ==> FixedSuffix(pattern) == pattern[n..]
    decreases |pattern|
  {
    var tail := pattern[n..];
    if n < |pattern| && !IsWildcard(pattern[|pattern| - 1]) {
      var shorter := pattern[..|pattern| - 1];
      SuffixOfTail(shorter, n);
      assert shorter[n..] == tail[..|tail| - 1] && tail[|tail| - 1] == pattern[|pattern| - 1];
      LastIsPlain(tail);
      assert tail == tail[..|tail| - 1] + [tail[|tail| - 1]];
    } else if n < |pattern| {
      assert tail[|tail| - 1] == pattern[|pattern| - 1];
    }
  }

  lemma LastIsPlain(text: Text)
    requires text != [] && !IsWildcard(text[|text| - 1])
    ensures HasWildcard(text) <==> HasWildcard(text[..|text| - 1])
  {
    if HasWildcard(text) {
      var i :| 0 <= i < |text| && IsWildcard(text[i]);
      assert text[..|text| - 1][i] == text[i];
    }
    if HasWildcard(text[..|text| - 1]) {
      var i :| 0 <= i < |text| - 1 && IsWildcard(text[..|text| - 1][i]);
      assert IsWildcard(text[i]);
    }
  }

  lemma {:induction false} MatchEndsWithSuffix(pattern: Text, path: Text)
    requires Covers(pattern, path) && HasWildcard(pattern)
    ensures EndsWith(path, FixedSuffix(pattern))
    decreases |pattern|
  {
    var n, k := MatchGoesOn(pattern, path);
    SuffixOfTail(pattern, n);
    if HasWildcard(pattern[n..]) {
      MatchEndsWithSuffix(pattern[n..], path[k..]);
      EndsWithTail(path, k, FixedSuffix(pattern));
    } else {
      WildcardIsHead(pattern, n);
      PlainMatchesItself(pattern[n..], path[k..], true);
      EndsWithTail(path, k, pattern[n..]);
    }
  }

  lemma WildcardIsHead(pattern: Text, n: nat)
    requires 1 <= n <= |pattern| && HasWildcard(pattern) && !HasWildcard(pattern[n..])
    requires forall i :: 1 <= i < n ==> IsWildcard(pattern[i])
    ensures IsWildcard(pattern[n - 1])
  {
    forall i | n <= i < |pattern|
      ensures !IsWildcard(pattern[i])
    {
      assert pattern[n..][i - n] == pattern[i];
    }
    var i :| 0 <= i < |pattern| && IsWildcard(pattern[i]);
  }

  lemma EndsWithTail(path: Text, k: nat, suffix: Text)
    requires k <= |path| && EndsWith(path[k..], suffix)
    ensures EndsWith(path, suffix)
  {
    assert path[|path| - |suffix|..] == path[k..][|path[k..]| - |suffix|..];
  }

  lemma SuffixesNest(path: Text, a: Text, b: Text)
    requires EndsWith(path, a) && EndsWith(path, b) && |a| <= |b|
    ensures EndsWith(b, a)
  {
    assert b[|b| - |a|..] == path[|path| - |a|..];
  }

  // ---------------------------------------------------------------- no false negatives

  /** Within one line the regular expression is the glob. */
  lemma {:induction false} RegexIsGlob(pieces: seq<Piece>, text: Text)
    requires OneLine(text)
    ensures Matches(pieces, text, false) <==> Matches(pieces, text, true)
    decreases |pieces|
  {
    if pieces != [] {
      forall k | 0 <= k <= |text|
        ensures OneLine(text[..k]) && (Matches(pieces[1..], text[k..], false) <==> Matches(pieces[1..], text[k..], true))
      {
        RegexIsGlob(pieces[1..], text[k..]);
      }
    }
  }

  /** Whatever the path: two scopes that both cover it are reported, unless just one of
      them has wildcards and its regular expression stops at a line terminator. */
  lemma OverlapsAreReported(leftValue: Text, rightValue: Text, path: Text)
    requires var (left, right) := (NormalizedScope(leftValue), NormalizedScope(rightValue));
             left != [] && right != [] && Covers(left, path) && Covers(right, path)
    ensures var (left, right) := (NormalizedScope(leftValue), NormalizedScope(rightValue));
            ScopesOverlap(leftValue, rightValue) <==>
              left == right || CoversAll(left) || CoversAll(right)
              || (HasWildcard(left) && HasWildcard(right))
              || (HasWildcard(left) && Matches(Compiled(left), path, false))
              || (HasWildcard(right) && Matches(Compiled(right), path, false))
  {
    var (left, right) := (NormalizedScope(leftValue), NormalizedScope(rightValue));
    hide NormalizedScope, Compiled, Matches, FixedPrefix, FixedSuffix, HasWildcard, CoversAll, EndsWith;
    if HasWildcard(left) && HasWildcard(right) {
      MatchStartsWithPrefix(left, path);
      MatchStartsWithPrefix(right, path);
      PrefixesNest(path, FixedPrefix(left), FixedPrefix(right));
      MatchEndsWithSuffix(left, path);
      MatchEndsWithSuffix(right, path);
      if |FixedSuffix(left)| <= |FixedSuffix(right)| {
        SuffixesNest(path, FixedSuffix(left), FixedSuffix(right));
      } else {
        SuffixesNest(path, FixedSuffix(right), FixedSuffix(left));
      }
    } else {
      if !HasWildcard(left) { PlainMatchesItself(left, path, true); }
      if !HasWildcard(right) { PlainMatchesItself(right, path, true); }
    }
  }

  lemma PrefixesNest(path: Text, a: Text, b: Text)
    requires a <= path && b <= path
    ensures a <= b || b <= a
  {
  }

  /** For paths without line terminators there are no false negatives. */
  lemma NoFalseNegatives(leftValue: Text, rightValue: Text, path: Text)
    requires NormalizedScope(leftValue) != [] && NormalizedScope(rightValue) != []
    requires Covers(NormalizedScope(leftValue), path) && Covers(NormalizedScope(rightValue), path) && OneLine(path)
    ensures ScopesOverlap(leftValue, rightValue)
  {
    var (left, right) := (NormalizedScope(leftValue), NormalizedScope(rightValue));
    hide NormalizedScope, Compiled, Matches, HasWildcard, CoversAll, ScopesOverlap;
    OverlapsAreReported(leftValue, rightValue, path);
    RegexIsGlob(Compiled(left), path);
    RegexIsGlob(Compiled(right), path);
    if !HasWildcard(left) { PlainMatchesItself(left, path, true); }
    if !HasWildcard(right) { PlainMatchesItself(right, path, true); }
  }

  /** With a line terminator one is missed: the scope `/` followed by two stars, and the plain
      scope made of a slash and the terminator. */
  lemma LineTerminatorIsMissed(terminator: CodeUnit)
    requires IsLineTerminator(terminator)
    ensures var (left, right) := ([SLASH, STAR, STAR], [SLASH, terminator]);
            Covers(NormalizedScope(left), right) && Covers(NormalizedScope(right), right) && !ScopesOverlap(left, right)
  {
    var (left, right) := ([SLASH, STAR, STAR], [SLASH, terminator]);
    assert WithSlashes(left) == left && WithSlashes(right) == right;
    assert NormalizedScope(left) == left && NormalizedScope(right) == right;
    assert !HasWildcard(right);
    assert IsWildcard(left[1]);
    PlainMatchesItself(right, right, true);
    CompiledHead(left);
    assert left[1..] == [STAR, STAR] && left[1..][2..] == [];
    CompiledHead(left[1..]);
    var pieces := Compiled(left);
    assert pieces[1..][1..] == [];
    var tail := right[1..];
    assert tail == [terminator] && tail[..1] == [terminator] && tail[1..] == [] && tail[0..] == tail;
    assert Matches([], tail[1..], true);
    assert Matches(pieces[1..], tail, true);
    assert forall k :: 0 <= k <= 1 && Matches([], tail[k..], false) ==> tail[..k][0] == terminator;
    assert !Matches(pieces[1..], tail, false);
  }

  // ---------------------------------------------------------------- conflicting capabilities

  datatype Capability = Capability(stage: string, parallel: bool, writeScopes: seq<Text>)

  /** Capabilities `left` and `right` of the list, and the scopes found to overlap. */
  datatype Conflict = Conflict(left: nat, right: nat, leftScope: Text, rightScope: Text)

  ghost predicate Together(capabilities: seq<Capability>, i: nat, j: nat) {
    i < j < |capabilities| && capabilities[i].parallel && capabilities[j].parallel && capabilities[i].stage == capabilities[j].stage
  }

  ghost predicate ScopesMeet(a: Capability, b: Capability) {
    exists l, r :: l in a.writeScopes && r in b.writeScopes && ScopesOverlap(l, r)
  }

  ghost predicate IsConflict(capabilities: seq<Capability>, c: Conflict) {
    && Together(capabilities, c.left, c.right)
    && FirstMeeting(capabilities[c.left].writeScopes, capabilities[c.right].writeScopes, c.leftScope, c.rightScope)
  }

  ghost predicate Reported(conflicts: seq<Conflict>, i: nat, j: nat) {
    exists c :: c in conflicts && c.left == i && c.right == j
  }

  /** The first pair of scopes found to overlap, in the order of the left ones. */
  ghost predicate FirstMeeting(left: seq<Text>, right: seq<Text>, l: Text, r: Text) {
    exists i, j ::
      && 0 <= i < |left| && 0 <= j < |right| && l == left[i] && r == right[j] && ScopesOverlap(l, r)
      && (forall a, b :: 0 <= a < i && b in right ==> !ScopesOverlap(left[a], b))
      && (forall b :: 0 <= b < j ==> !ScopesOverlap(left[i], right[b]))
  }

  method FirstOverlap(left: seq<Text>, right: seq<Text>) returns (found: bool, l: Text, r: Text)
    ensures found ==> FirstMeeting(left, right, l, r)
    ensures !found ==> forall a, b :: a in left && b in right ==> !ScopesOverlap(a, b)
  {
    hide ScopesOverlap;
    for i: nat := 0 to |left|
      invariant forall k, b :: 0 <= k < i && b in right ==> !ScopesOverlap(left[k], b)
    {
      for j: nat := 0 to |right|
        invariant forall k :: 0 <= k < j ==> !ScopesOverlap(left[i], right[k])
      {
        if ScopesOverlap(left[i], right[j]) { return true, left[i], right[j]; }
      }
    }
    return false, [], [];
  }

  predicate Earlier(a: Conflict, b: Conflict) {
    a.left < b.left || (a.left == b.left && a.right < b.right)
  }

  /** `writeScopeConflicts`: exactly the pairs of capabilities that run in parallel in one
      stage and have scopes found to overlap, once each and in their order, with the first
      such scopes. */
  method WriteScopeConflicts(capabilities: seq<Capability>) returns (conflicts: seq<Conflict>)
    ensures forall c <- conflicts :: IsConflict(capabilities, c)
    ensures forall i: nat, j: nat :: Together(capabilities, i, j) && ScopesMeet(capabilities[i], capabilities[j]) ==>
              Reported(conflicts, i, j)
    ensures forall a, b :: 0 <= a < b < |conflicts| ==> Earlier(conflicts[a], conflicts[b])
  {
    hide ScopesOverlap, FirstMeeting;
    conflicts := [];
    for i: nat := 0 to |capabilities|
      invariant forall c <- conflicts :: IsConflict(capabilities, c) && c.left < i
      invariant forall a, b :: 0 <= a < b < |conflicts| ==> Earlier(conflicts[a], conflicts[b])
      invariant forall a: nat, b: nat :: a < i && Together(capabilities, a, b) && ScopesMeet(capabilities[a], capabilities[b]) ==> Reported(conflicts, a, b)
    {
      if !capabilities[i].parallel { continue; }
      ghost var before := conflicts;
      for j: nat := i + 1 to |capabilities|
        invariant before <= conflicts
        invariant forall c <- conflicts :: IsConflict(capabilities, c) && (c.left < i || (c.left == i && c.right < j))
        invariant forall a, b :: 0 <= a < b < |conflicts| ==> Earlier(conflicts[a], conflicts[b])
        invariant forall b: nat :: b < j && Together(capabilities, i, b) && ScopesMeet(capabilities[i], capabilities[b]) ==> Reported(conflicts, i, b)
      {
        if !capabilities[j].parallel || capabilities[i].stage != capabilities[j].stage { continue; }
        var found, l, r := FirstOverlap(capabilities[i].writeScopes, capabilities[j].writeScopes);
        if !found { continue; }
        MeetingMeets(capabilities[i].writeScopes, capabilities[j].writeScopes, l, r);
        ReportedStays(conflicts, Conflict(i, j, l, r));
        conflicts := conflicts + [Conflict(i, j, l, r)];
      }
      forall a: nat, b: nat | Reported(before, a, b)
        ensures Reported(conflicts, a, b)
      {
        var c :| c in before && c.left == a && c.right == b;
        assert c in conflicts;
      }
    }
  }

  lemma MeetingMeets(left: seq<Text>, right: seq<Text>, l: Text, r: Text)
    requires FirstMeeting(left, right, l, r)
    ensures l in left && r in right && ScopesOverlap(l, r)
  {
    hide ScopesOverlap;
  }

  lemma ReportedStays(conflicts: seq<Conflict>, c: Conflict)
    ensures forall i: nat, j: nat :: Reported(conflicts, i, j) ==> Reported(conflicts + [c], i, j)
    ensures Reported(conflicts + [c], c.left, c.right)
  {
    forall i: nat, j: nat | Reported(conflicts, i, j)
      ensures Reported(conflicts + [c], i, j)
    {
      var d :| d in conflicts && d.left == i && d.right == j;
      assert d in conflicts + [c];
    }
    assert c in conflicts + [c];
  }

  /** Two parallel capabilities of one stage whose scopes share a path have scopes that
      meet, so they are reported. */
  lemma SharedPathsMeet(a: Capability, b: Capability, l: Text, r: Text, path: Text)
    requires l in a.writeScopes && r in b.writeScopes && NormalizedScope(l) != [] && NormalizedScope(r) != []
    requires Covers(NormalizedScope(l), path) && Covers(NormalizedScope(r), path) && OneLine(path)
    ensures ScopesMeet(a, b) && ScopesMeet(b, a)
  {
    NoFalseNegatives(l, r, path);
    OverlapIsSymmetric(l, r);
  }
}
