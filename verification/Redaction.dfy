/** Streaming redaction of command output (`src/engine/command-runner.ts`): a
    multi-pattern byte replacer that carries undecided bytes from chunk to chunk. */
module Redaction {
  import opened Wrappers
  import opened Bytes

  datatype Replacement = Replacement(needle: Bytes, replacement: Bytes)

  predicate NonEmptyNeedles(items: seq<Replacement>) {
    forall item | item in items :: item.needle != []
  }

  function Flatten(chunks: seq<Bytes>): Bytes {
    if chunks == [] then [] else chunks[0] + Flatten(chunks[1..])
  }

  lemma {:induction false} FlattenAppend(chunks: seq<Bytes>, chunk: Bytes)
    ensures Flatten(chunks + [chunk]) == Flatten(chunks) + chunk
  {
    if chunks == [] {
      assert [chunk][1..] == [] && [] + chunk == chunk;
    } else {
      assert (chunks + [chunk])[1..] == chunks[1..] + [chunk];
      FlattenAppend(chunks[1..], chunk);
    }
  }

  // ---------- the reference ----------

  /** The first listed replacement whose needle starts the data: `find`. */
  function FirstMatch(items: seq<Replacement>, data: Bytes): (found: Option<Replacement>)
    ensures found.Some? ==> found.value in items && found.value.needle <= data
    ensures found.None? <==> forall item | item in items :: !(item.needle <= data)
  {
    if items == [] then None
    else if items[0].needle <= data then Some(items[0])
    else FirstMatch(items[1..], data)
  }

  /** One left-to-right pass over the whole data. */
  function Replace(items: seq<Replacement>, data: Bytes): Bytes
    requires NonEmptyNeedles(items)
    decreases |data|
  {
    if data == [] then []
    else
      match FirstMatch(items, data)
      case Some(item) => item.replacement + Replace(items, data[|item.needle|..])
      case None => [data[0]] + Replace(items, data[1..])
  }

  predicate Descending(items: seq<Replacement>) {
    forall i, j :: 0 <= i < j < |items| ==> |items[i].needle| >= |items[j].needle|
  }

  /** With the needles in descending length the first match is a longest match. */
  lemma {:induction false} FirstMatchIsLongest(items: seq<Replacement>, data: Bytes, other: Replacement)
    requires Descending(items) && other in items && other.needle <= data
    ensures FirstMatch(items, data).Some? && |FirstMatch(items, data).value.needle| >= |other.needle|
  {
    var j :| 0 <= j < |items| && items[j] == other;
    if !(items[0].needle <= data) {
      assert items[1..][j - 1] == other;
      assert Descending(items[1..]) by {
        assert forall i :: 0 <= i < |items[1..]| ==> items[1..][i] == items[i + 1];
      }
      FirstMatchIsLongest(items[1..], data, other);
    }
  }

  function MaxNeedle(items: seq<Replacement>): (m: nat)
    ensures m >= 1 && forall item | item in items :: |item.needle| <= m
  {
    if items == [] then 1
    else
      var m := MaxNeedle(items[1..]);
      if |items[0].needle| > m then |items[0].needle| else m
  }

  // ---------- what can be decided ----------

  datatype Decided = Decided(output: Bytes, remainder: Bytes)

  /** Replaces while at least `least` bytes remain. */
  function Decide(items: seq<Replacement>, data: Bytes, least: nat): Decided
    requires NonEmptyNeedles(items) && least >= 1
    decreases |data|
  {
    if |data| < least then Decided([], data)
    else
      match FirstMatch(items, data)
      case Some(item) =>
        var rest := Decide(items, data[|item.needle|..], least);
        Decided(item.replacement + rest.output, rest.remainder)
      case None =>
        var rest := Decide(items, data[1..], least);
        Decided([data[0]] + rest.output, rest.remainder)
  }

  /** With the longest needle's length in view, later bytes cannot change the match. */
  lemma {:induction false} MatchIsFinal(items: seq<Replacement>, data: Bytes, later: Bytes)
    requires |data| >= MaxNeedle(items)
    ensures FirstMatch(items, data + later) == FirstMatch(items, data)
  {
    if items != [] {
      var needle := items[0].needle;
      assert needle <= data + later <==> needle <= data by {
        assert (data + later)[..|needle|] == data[..|needle|];
      }
      MatchIsFinal(items[1..], data, later);
    }
  }

  /** The bytes put out at the first position, and how many are consumed there. */
  datatype Piece = Piece(consumed: nat, output: Bytes)

  function PieceAt(items: seq<Replacement>, data: Bytes): (p: Piece)
    requires NonEmptyNeedles(items) && data != []
    ensures 1 <= p.consumed <= |data|
  {
    match FirstMatch(items, data)
    case Some(item) => Piece(|item.needle|, item.replacement)
    case None => Piece(1, [data[0]])
  }

  /** Both passes put out the first piece and go on behind it. */
  lemma ReplaceGoesOn(items: seq<Replacement>, data: Bytes)
    requires NonEmptyNeedles(items) && data != []
    ensures var p := PieceAt(items, data); Replace(items, data) == p.output + Replace(items, data[p.consumed..])
  {
  }

  lemma DecideGoesOn(items: seq<Replacement>, data: Bytes, least: nat)
    requires NonEmptyNeedles(items) && 1 <= least <= |data|
    ensures var p := PieceAt(items, data);
            var rest := Decide(items, data[p.consumed..], least);
            Decide(items, data, least) == Decided(p.output + rest.output, rest.remainder)
  {
  }

  lemma PieceIsFinal(items: seq<Replacement>, data: Bytes, later: Bytes)
    requires NonEmptyNeedles(items) && |data| >= MaxNeedle(items)
    ensures PieceAt(items, data + later) == PieceAt(items, data)
  {
    MatchIsFinal(items, data, later);
    assert (data + later)[0] == data[0];
  }

  lemma ReplaceAhead(items: seq<Replacement>, data: Bytes, later: Bytes)
    requires NonEmptyNeedles(items) && |data| >= MaxNeedle(items)
    ensures var p := PieceAt(items, data);
            Replace(items, data + later) == p.output + Replace(items, data[p.consumed..] + later)
  {
    PieceIsFinal(items, data, later);
    ReplaceGoesOn(items, data + later);
    hide PieceAt, Replace, MaxNeedle;
    var n := PieceAt(items, data).consumed;
    assert (data + later)[n..] == data[n..] + later;
  }

  lemma JoinAssociative(a: Bytes, b: Bytes, c: Bytes)
    ensures a + (b + c) == (a + b) + c
  {
  }

  /** What is decided is a prefix of the reference pass, whatever follows. */
  lemma {:induction false} DecidedIsFinal(items: seq<Replacement>, data: Bytes, least: nat, later: Bytes)
    requires NonEmptyNeedles(items) && least >= MaxNeedle(items)
    ensures var d := Decide(items, data, least);
            Replace(items, data + later) == d.output + Replace(items, d.remainder + later)
    ensures |Decide(items, data, least).remainder| < least
    decreases |data|
  {
    hide Replace, Decide, PieceAt, MaxNeedle, NonEmptyNeedles;
    if |data| < least {
      NothingDecided(items, data, least);
      assert [] + Replace(items, data + later) == Replace(items, data + later);
    } else {
      var p := PieceAt(items, data);
      DecideGoesOn(items, data, least);
      ReplaceAhead(items, data, later);
      DecidedIsFinal(items, data[p.consumed..], least, later);
      var rest := Decide(items, data[p.consumed..], least);
      JoinAssociative(p.output, rest.output, Replace(items, rest.remainder + later));
    }
  }

  lemma NothingDecided(items: seq<Replacement>, data: Bytes, least: nat)
    requires NonEmptyNeedles(items) && least >= 1 && |data| < least
    ensures Decide(items, data, least) == Decided([], data)
  {
  }

  /** With nothing to follow, everything is decided. */
  lemma {:induction false} DecidedAtEnd(items: seq<Replacement>, data: Bytes)
    requires NonEmptyNeedles(items)
    ensures Decide(items, data, 1) == Decided(Replace(items, data), [])
    decreases |data|
  {
    if data != [] {
      match FirstMatch(items, data)
      case Some(item) => DecidedAtEnd(items, data[|item.needle|..]);
      case None => DecidedAtEnd(items, data[1..]);
    }
  }

  lemma {:induction false} NothingToReplace(data: Bytes)
    ensures Replace([], data) == data
  {
    if data != [] {
      NothingToReplace(data[1..]);
    }
  }

  // ---------- the program's loop ----------

  method MatchesAt(data: Bytes, needle: Bytes, offset: nat) returns (matches: bool)
    requires offset <= |data|
    ensures matches <==> needle <= data[offset..]
  {
    if offset + |needle| > |data| { return false; }
    for index := 0 to |needle|
      invariant forall k :: 0 <= k < index ==> data[offset + k] == needle[k]
    {
      if data[offset + index] != needle[index] {
        assert data[offset..][index] != needle[index];
        return false;
      }
    }
    assert data[offset..][..|needle|] == needle;
    return true;
  }

  /** `replacements.find(...)`. */
  method Find(items: seq<Replacement>, data: Bytes, offset: nat) returns (found: Option<Replacement>)
    requires offset <= |data|
    ensures found == FirstMatch(items, data[offset..])
  {
    assert items[0..] == items;
    for i := 0 to |items|
      invariant FirstMatch(items, data[offset..]) == FirstMatch(items[i..], data[offset..])
    {
      var matches := MatchesAt(data, items[i].needle, offset);
      assert items[i..][1..] == items[i + 1..];
      if matches { return Some(items[i]); }
    }
    return None;
  }

  /** `replaceDecidableBytes`. */
  method ReplaceDecidableBytes(data: Bytes, items: seq<Replacement>, final: bool) returns (d: Decided)
    requires NonEmptyNeedles(items)
    ensures d == Decide(items, data, if final then 1 else MaxNeedle(items))
  {
    hide FirstMatch, MaxNeedle, NonEmptyNeedles, PieceAt, Decide, Continues;
    var maxNeedle := MaxNeedle(items);
    ghost var least := if final then 1 else maxNeedle;
    var decisionLimit := if final then |data| else if |data| < maxNeedle then 0 else |data| - maxNeedle + 1;
    var output: Bytes := [];
    var offset := 0;
    Begins(items, data, least);
    while offset < decisionLimit
      invariant offset <= |data| && Continues(items, data, least, output, offset)
      decreases |data| - offset
    {
      var p := PieceFrom(items, data, offset);
      ContinuesOn(items, data, least, output, offset);
      output := output + p.output;
      offset := offset + p.consumed;
    }
    Ends(items, data, least, output, offset);
    return Decided(output, data[offset..]);
  }

  /** The loop invariant: what was put out, and what is still to be decided. */
  ghost predicate Continues(items: seq<Replacement>, data: Bytes, least: nat, output: Bytes, offset: nat)
    requires NonEmptyNeedles(items) && least >= 1 && offset <= |data|
  {
    var rest := Decide(items, data[offset..], least);
    Decide(items, data, least) == Decided(output + rest.output, rest.remainder)
  }

  lemma Begins(items: seq<Replacement>, data: Bytes, least: nat)
    requires NonEmptyNeedles(items) && least >= 1
    ensures Continues(items, data, least, [], 0)
  {
    assert data[0..] == data && [] + Decide(items, data, least).output == Decide(items, data, least).output;
  }

  lemma ContinuesOn(items: seq<Replacement>, data: Bytes, least: nat, output: Bytes, offset: nat)
    requires NonEmptyNeedles(items) && 1 <= least <= |data| - offset && Continues(items, data, least, output, offset)
    ensures var p := PieceAt(items, data[offset..]); Continues(items, data, least, output + p.output, offset + p.consumed)
  {
    hide Decide, PieceAt, NonEmptyNeedles;
    var rest := data[offset..];
    var p := PieceAt(items, rest);
    DecideGoesOn(items, rest, least);
    DropOfDrop(data, offset, p.consumed);
    JoinAssociative(output, p.output, Decide(items, data[offset + p.consumed..], least).output);
  }

  lemma Ends(items: seq<Replacement>, data: Bytes, least: nat, output: Bytes, offset: nat)
    requires NonEmptyNeedles(items) && offset <= |data| < offset + least && Continues(items, data, least, output, offset)
    ensures Decide(items, data, least) == Decided(output, data[offset..])
  {
    NothingDecided(items, data[offset..], least);
    hide Decide;
    assert output + [] == output;
  }

  /** One round: the match's replacement, or the byte itself. */
  method PieceFrom(items: seq<Replacement>, data: Bytes, offset: nat) returns (p: Piece)
    requires NonEmptyNeedles(items) && offset < |data|
    ensures p == PieceAt(items, data[offset..])
  {
    var found := Find(items, data, offset);
    hide FirstMatch;
    match found
    case Some(item) => p := Piece(|item.needle|, item.replacement);
    case None => p := Piece(1, data[offset..offset + 1]);
  }

  /** The transform stream: its state is the carry. */
  class Redactor {
    const items: seq<Replacement>
    var pending: Bytes

    constructor (items: seq<Replacement>)
      ensures this.items == items && pending == []
    {
      this.items := items;
      pending := [];
    }

    /** One chunk in: the carry stays shorter than the longest needle, and what is put
        out is final whatever comes later. */
    method Transform(chunk: Bytes) returns (output: Bytes)
      requires NonEmptyNeedles(items)
      modifies this
      ensures |pending| < MaxNeedle(items)
      ensures Decided(output, pending) == Decide(items, old(pending) + chunk, MaxNeedle(items))
    {
      var d := ReplaceDecidableBytes(pending + chunk, items, false);
      DecidedIsFinal(items, pending + chunk, MaxNeedle(items), []);
      pending := d.remainder;
      return d.output;
    }

    method Flush() returns (output: Bytes)
      requires NonEmptyNeedles(items)
      modifies this
      ensures output == Replace(items, old(pending)) && pending == []
    {
      var d := ReplaceDecidableBytes(pending, items, true);
      DecidedAtEnd(items, pending);
      assert d.output + d.remainder == d.output;
      pending := [];
      return d.output + d.remainder;
    }
  }

  // ---------- any chunking ----------

  /** What the stream puts out for a sequence of chunks, and its final flush. */
  function Streamed(items: seq<Replacement>, pending: Bytes, chunks: seq<Bytes>): seq<Bytes>
    requires NonEmptyNeedles(items)
    decreases |chunks|
  {
    if chunks == [] then [Decide(items, pending, 1).output + Decide(items, pending, 1).remainder]
    else
      var d := Decide(items, pending + chunks[0], MaxNeedle(items));
      [d.output] + Streamed(items, d.remainder, chunks[1..])
  }

  /** Chunking independence: however the output is cut, the stream puts out the bytes of
      one pass over the whole. */
  lemma {:induction false} ChunkingDoesNotMatter(items: seq<Replacement>, pending: Bytes, chunks: seq<Bytes>)
    requires NonEmptyNeedles(items)
    ensures Flatten(Streamed(items, pending, chunks)) == Replace(items, pending + Flatten(chunks))
    decreases |chunks|
  {
    if chunks == [] {
      DecidedAtEnd(items, pending);
      var out := Replace(items, pending);
      assert out + [] == out && pending + [] == pending;
      var streamed := Streamed(items, pending, chunks);
      assert streamed == [out] && streamed[1..] == [];
    } else {
      var d := Decide(items, pending + chunks[0], MaxNeedle(items));
      var later := Flatten(chunks[1..]);
      DecidedIsFinal(items, pending + chunks[0], MaxNeedle(items), later);
      ChunkingDoesNotMatter(items, d.remainder, chunks[1..]);
      assert pending + chunks[0] + later == pending + Flatten(chunks);
      var streamed := Streamed(items, pending, chunks);
      assert streamed[1..] == Streamed(items, d.remainder, chunks[1..]);
    }
  }

  // ---------- building the replacements ----------

  datatype Redacted = Redacted(name: string, token: Bytes)

  /** The distinct non-empty values, in the order of their first mention. */
  function Collect(environment: map<string, Bytes>, redactions: seq<Redacted>, seen: set<Bytes>): seq<Replacement> {
    if redactions == [] then []
    else
      var r := redactions[0];
      var value := if r.name in environment then environment[r.name] else [];
      if value == [] || value in seen then Collect(environment, redactions[1..], seen)
      else [Replacement(value, r.token)] + Collect(environment, redactions[1..], seen + {value})
  }

  function InsertByLength(item: Replacement, items: seq<Replacement>): seq<Replacement> {
    if items == [] || |item.needle| >= |items[0].needle| then [item] + items
    else [items[0]] + InsertByLength(item, items[1..])
  }

  /** The runtime's stable sort by descending needle length. */
  function SortByLength(items: seq<Replacement>): seq<Replacement> {
    if items == [] then [] else InsertByLength(items[0], SortByLength(items[1..]))
  }

  method BuildReplacements(environment: map<string, Bytes>, redactions: seq<Redacted>) returns (items: seq<Replacement>)
    ensures items == SortByLength(Collect(environment, redactions, {}))
    ensures HidesFirsts(environment, redactions, items) && NonEmptyNeedles(items)
  {
    BuiltReplacements(environment, redactions);
    hide HidesFirsts, NonEmptyNeedles;
    var seen: set<Bytes> := {};
    var replacements: seq<Replacement> := [];
    assert redactions[0..] == redactions;
    assert replacements + Collect(environment, redactions, seen) == Collect(environment, redactions, seen);
    for i := 0 to |redactions|
      invariant Collect(environment, redactions, {}) == replacements + Collect(environment, redactions[i..], seen)
    {
      var redaction := redactions[i];
      assert redactions[i..][1..] == redactions[i + 1..];
      var value := if redaction.name in environment then environment[redaction.name] else [];
      if value == [] || value in seen { continue; }
      seen := seen + {value};
      replacements := replacements + [Replacement(value, redaction.token)];
    }
    assert replacements + [] == replacements;
    return SortByLength(replacements);
  }

  lemma {:induction false} InsertByLengthIs(item: Replacement, items: seq<Replacement>)
    requires Descending(items)
    ensures Descending(InsertByLength(item, items))
    ensures multiset(InsertByLength(item, items)) == multiset(items) + multiset{item}
    decreases |items|
  {
    if items == [] {
    } else if |item.needle| >= |items[0].needle| {
      DescendingCons(item, items);
    } else {
      assert items == [items[0]] + items[1..];
      InsertByLengthIs(item, items[1..]);
      var rest := InsertByLength(item, items[1..]);
      forall x | x in rest
        ensures |x.needle| <= |items[0].needle|
      {
        assert x in multiset(rest);
        assert x == item || x in items[1..];
      }
      DescendingCons(items[0], rest);
    }
  }

  lemma DescendingCons(item: Replacement, items: seq<Replacement>)
    requires Descending(items)
    requires (items != [] ==>
              |item.needle| >= |items[0].needle|) || forall x | x in items :: |x.needle| <= |item.needle|
    ensures Descending([item] + items)
  {
    var all := [item] + items;
    forall i, j | 0 <= i < j < |all|
      ensures |all[i].needle| >= |all[j].needle|
    {
      assert all[j] == items[j - 1] && items[j - 1] in items;
      if i == 0 && j > 1 { assert items != [] ==> |items[0].needle| >= |items[j - 1].needle|; }
    }
  }

  lemma {:induction false} SortByLengthIs(items: seq<Replacement>)
    ensures Descending(SortByLength(items)) && multiset(SortByLength(items)) == multiset(items)
  {
    if items != [] {
      assert items == [items[0]] + items[1..];
      SortByLengthIs(items[1..]);
      InsertByLengthIs(items[0], SortByLength(items[1..]));
    }
  }

  // ---------- what the list is ----------

  function ValueOf(environment: map<string, Bytes>, r: Redacted): Bytes {
    if r.name in environment then environment[r.name] else []
  }

  /** Redaction `k` is the first one of a non-empty value. */
  ghost predicate FirstFor(environment: map<string, Bytes>, redactions: seq<Redacted>, k: nat) {
    && k < |redactions| && ValueOf(environment, redactions[k]) != []
    && forall l :: 0 <= l < k ==> ValueOf(environment, redactions[l]) != ValueOf(environment, redactions[k])
  }

  /** The list holds, for each value there is to hide, the token of the first redaction of
      that value, and nothing else; the longest values come first. */
  ghost predicate HidesFirsts(environment: map<string, Bytes>, redactions: seq<Redacted>, items: seq<Replacement>) {
    && (forall item :: item in items <==> ItemOfSome(environment, redactions, 0, item))
    && (forall i, j :: 0 <= i < j < |items| ==> items[i].needle != items[j].needle)
    && Descending(items)
  }

  ghost predicate ItemOfSome(environment: map<string, Bytes>, redactions: seq<Redacted>, from: nat, item: Replacement) {
    exists k: nat :: from <= k && FirstFor(environment, redactions, k)
                && item == Replacement(ValueOf(environment, redactions[k]), redactions[k].token)
  }

  function Seen(environment: map<string, Bytes>, redactions: seq<Redacted>, n: nat): set<Bytes>
    requires n <= |redactions|
  {
    set l | 0 <= l < n && ValueOf(environment, redactions[l]) != [] :: ValueOf(environment, redactions[l])
  }

  lemma {:induction false} CollectedFrom(environment: map<string, Bytes>, redactions: seq<Redacted>, n: nat)
    requires n <= |redactions|
    ensures var items := Collect(environment, redactions[n..], Seen(environment, redactions, n));
            && (forall item :: item in items <==> ItemOfSome(environment, redactions, n, item))
            && (forall i, j :: 0 <= i < j < |items| ==> items[i].needle != items[j].needle)
    decreases |redactions| - n
  {
    var seen := Seen(environment, redactions, n);
    if n < |redactions| {
      var r, value := redactions[n], ValueOf(environment, redactions[n]);
      var later := Seen(environment, redactions, n + 1);
      assert redactions[n..][0] == r && redactions[n..][1..] == redactions[n + 1..];
      CollectedFrom(environment, redactions, n + 1);
      var rest := Collect(environment, redactions[n + 1..], later);
      assert FirstFor(environment, redactions, n) <==> value != [] && value !in seen by {
        if value != [] && value !in seen {
          forall l | 0 <= l < n
            ensures ValueOf(environment, redactions[l]) != value
          {
            assert ValueOf(environment, redactions[l]) != [] ==> ValueOf(environment, redactions[l]) in seen;
          }
        }
      }
      if value == [] || value in seen {
        assert later == seen;
        assert forall item :: ItemOfSome(environment, redactions, n, item) <==> ItemOfSome(environment, redactions, n + 1, item);
      } else {
        assert later == seen + {value};
        var items := Collect(environment, redactions[n..], seen);
        assert items == [Replacement(value, r.token)] + rest;
        ConsIsMore(environment, redactions, n, rest);
      }
    }
  }

  lemma ConsIsMore(environment: map<string, Bytes>, redactions: seq<Redacted>, n: nat, rest: seq<Replacement>)
    requires FirstFor(environment, redactions, n)
    requires forall item :: item in rest <==> ItemOfSome(environment, redactions, n + 1, item)
    requires forall i, j :: 0 <= i < j < |rest| ==> rest[i].needle != rest[j].needle
    ensures var items := [Replacement(ValueOf(environment, redactions[n]), redactions[n].token)] + rest;
            && (forall item :: item in items <==> ItemOfSome(environment, redactions, n, item))
            && (forall i, j :: 0 <= i < j < |items| ==> items[i].needle != items[j].needle)
  {
    var head := Replacement(ValueOf(environment, redactions[n]), redactions[n].token);
    var items := [head] + rest;
    forall item
      ensures item in items <==> ItemOfSome(environment, redactions, n, item)
    {
      if item in items && item != head { assert ItemOfSome(environment, redactions, n + 1, item); }
      if ItemOfSome(environment, redactions, n, item) && item != head { assert ItemOfSome(environment, redactions, n + 1, item); }
    }
    forall i | 0 <= i < |rest|
      ensures rest[i].needle != head.needle
    {
      assert rest[i] in rest;
    }
  }

  lemma TwiceCounts(items: seq<Replacement>, i: nat, j: nat)
    requires i < j < |items| && items[i] == items[j]
    ensures multiset(items)[items[i]] >= 2
  {
    assert items == items[..i] + [items[i]] + items[i + 1..j] + [items[j]] + items[j + 1..];
  }

  lemma DistinctNeedles(items: seq<Replacement>, sorted: seq<Replacement>)
    requires multiset(items) == multiset(sorted) && forall i, j :: 0 <= i < j < |items| ==> items[i].needle != items[j].needle
    ensures forall i, j :: 0 <= i < j < |sorted| ==> sorted[i].needle != sorted[j].needle
  {
    forall i, j | 0 <= i < j < |sorted|
      ensures sorted[i].needle != sorted[j].needle
    {
      assert sorted[i] in multiset(sorted) && sorted[j] in multiset(sorted);
      assert sorted[i] in items && sorted[j] in items;
      assert sorted[i] != sorted[j] ==> sorted[i].needle != sorted[j].needle;
      Occurrences(items, sorted[i]);
      if sorted[i] == sorted[j] { TwiceCounts(sorted, i, j); }
    }
  }

  lemma {:induction false} Occurrences(items: seq<Replacement>, item: Replacement)
    requires forall i, j :: 0 <= i < j < |items| ==> items[i].needle != items[j].needle
    ensures multiset(items)[item] <= 1
  {
    if items != [] {
      var rest := items[1..];
      assert items == [items[0]] + rest;
      forall i, j | 0 <= i < j < |rest|
        ensures rest[i].needle != rest[j].needle
      {
        assert rest[i] == items[i + 1] && rest[j] == items[j + 1];
      }
      Occurrences(rest, item);
      if item == items[0] { assert item !in rest by { assert forall k: nat :: 0 <= k < |rest| ==> rest[k] == items[k + 1]; } }
    }
  }

  /** The list built hides the first redaction's token behind every value. */
  lemma BuiltReplacements(environment: map<string, Bytes>, redactions: seq<Redacted>)
    ensures var items := SortByLength(Collect(environment, redactions, {}));
            HidesFirsts(environment, redactions, items) && NonEmptyNeedles(items)
  {
    var collected := Collect(environment, redactions, {});
    var items := SortByLength(collected);
    assert redactions[0..] == redactions && Seen(environment, redactions, 0) == {};
    CollectedFrom(environment, redactions, 0);
    assert Collect(environment, redactions[0..], Seen(environment, redactions, 0)) == collected;
    SortByLengthIs(collected);
    DistinctNeedles(collected, items);
    forall item
      ensures item in items <==> item in collected
    {
      assert item in items <==> item in multiset(items);
      assert item in collected <==> item in multiset(collected);
    }
  }

  // ---------- from the environment to the output ----------

  /** The value of redaction `k` starts the data, and no longer value does. */
  ghost predicate LongestAt(environment: map<string, Bytes>, redactions: seq<Redacted>, data: Bytes, k: nat) {
    && FirstFor(environment, redactions, k) && ValueOf(environment, redactions[k]) <= data
    && forall l :: 0 <= l < |redactions| && ValueOf(environment, redactions[l]) <= data ==>
         |ValueOf(environment, redactions[l])| <= |ValueOf(environment, redactions[k])|
  }

  /** From the left: where values to hide start, the token of the longest one is put out
      in its place; every other byte is put out as it is. */
  ghost predicate IsRedaction(environment: map<string, Bytes>, redactions: seq<Redacted>, data: Bytes, output: Bytes)
    decreases |data|
  {
    if data == [] then output == []
    else if forall k: nat :: !LongestAt(environment, redactions, data, k) then
      output != [] && output[0] == data[0] && IsRedaction(environment, redactions, data[1..], output[1..])
    else
      forall k: nat :: LongestAt(environment, redactions, data, k) ==>
        redactions[k].token <= output
        && IsRedaction(environment, redactions, data[|ValueOf(environment, redactions[k])|..], output[|redactions[k].token|..])
  }

  /** Only one output is a redaction of the data. */
  lemma {:induction false} RedactionIsUnique(environment: map<string, Bytes>, redactions: seq<Redacted>, data: Bytes, a: Bytes, b: Bytes)
    requires IsRedaction(environment, redactions, data, a) && IsRedaction(environment, redactions, data, b)
    ensures a == b
    decreases |data|
  {
    if data != [] {
      if k: nat :| LongestAt(environment, redactions, data, k) {
        var value, token := ValueOf(environment, redactions[k]), redactions[k].token;
        RedactionIsUnique(environment, redactions, data[|value|..], a[|token|..], b[|token|..]);
        assert a == token + a[|token|..] && b == token + b[|token|..];
      } else {
        RedactionIsUnique(environment, redactions, data[1..], a[1..], b[1..]);
        assert a == [data[0]] + a[1..] && b == [data[0]] + b[1..];
      }
    }
  }

  /** The match found in the list is the longest value to hide there. */
  lemma FoundIsLongest(environment: map<string, Bytes>, redactions: seq<Redacted>, items: seq<Replacement>, data: Bytes)
    requires HidesFirsts(environment, redactions, items)
    ensures var found := FirstMatch(items, data);
            && (found.None? <==> forall k: nat :: !LongestAt(environment, redactions, data, k))
            && (found.Some? ==> forall k: nat :: LongestAt(environment, redactions, data, k) ==>
                  found.value == Replacement(ValueOf(environment, redactions[k]), redactions[k].token))
  {
    var found := FirstMatch(items, data);
    if found.Some? {
      assert ItemOfSome(environment, redactions, 0, found.value);
      var n: nat :| FirstFor(environment, redactions, n)
               && found.value == Replacement(ValueOf(environment, redactions[n]), redactions[n].token);
      forall l | 0 <= l < |redactions| && ValueOf(environment, redactions[l]) <= data
        ensures |ValueOf(environment, redactions[l])| <= |found.value.needle|
      {
        if ValueOf(environment, redactions[l]) != [] {
          var first := FirstOfValue(environment, redactions, l);
          var item := Replacement(ValueOf(environment, redactions[first]), redactions[first].token);
          assert ItemOfSome(environment, redactions, 0, item);
          FirstMatchIsLongest(items, data, item);
        }
      }
      assert LongestAt(environment, redactions, data, n);
      forall k: nat | LongestAt(environment, redactions, data, k)
        ensures k == n
      {
        SameLengthSamePrefix(data, ValueOf(environment, redactions[k]), ValueOf(environment, redactions[n]));
      }
    } else {
      forall k: nat
        ensures !LongestAt(environment, redactions, data, k)
      {
        if LongestAt(environment, redactions, data, k) {
          assert ItemOfSome(environment, redactions, 0, Replacement(ValueOf(environment, redactions[k]), redactions[k].token));
        }
      }
    }
  }

  lemma SameLengthSamePrefix(data: Bytes, a: Bytes, b: Bytes)
    requires a <= data && b <= data && |a| == |b|
    ensures a == b
  {
  }

  lemma {:induction false} FirstOfValue(environment: map<string, Bytes>, redactions: seq<Redacted>, l: nat) returns (k: nat)
    requires l < |redactions| && ValueOf(environment, redactions[l]) != []
    ensures FirstFor(environment, redactions, k) && ValueOf(environment, redactions[k]) == ValueOf(environment, redactions[l])
  {
    if FirstFor(environment, redactions, l) {
      k := l;
    } else {
      var m :| 0 <= m < l && ValueOf(environment, redactions[m]) == ValueOf(environment, redactions[l]);
      k := FirstOfValue(environment, redactions, m);
    }
  }

  /** One pass with such a list is the redaction of the data. */
  lemma {:induction false} ReplaceRedacts(environment: map<string, Bytes>, redactions: seq<Redacted>, items: seq<Replacement>, data: Bytes)
    requires HidesFirsts(environment, redactions, items) && NonEmptyNeedles(items)
    ensures IsRedaction(environment, redactions, data, Replace(items, data))
    decreases |data|
  {
    if data != [] {
      FoundIsLongest(environment, redactions, items, data);
      hide HidesFirsts, LongestAt, FirstMatch, ValueOf;
      var found, output := FirstMatch(items, data), Replace(items, data);
      if found.Some? {
        var item := found.value;
        var rest := data[|item.needle|..];
        ReplaceRedacts(environment, redactions, items, rest);
        assert item.replacement <= output && output[|item.replacement|..] == Replace(items, rest);
      } else {
        ReplaceRedacts(environment, redactions, items, data[1..]);
        assert output[1..] == Replace(items, data[1..]);
      }
    }
  }
}
