/** Which paths `normalizePackagePath` (`src/registry/package-paths.ts`) accepts, said on
    their bytes, and that no path in an archive leads out of the directory it is in. */
module PathSafety {
  import opened Wrappers
  import opened Bytes
  import opened PackagePaths
  import opened PackageTar
  import opened TarEntries
  import opened ArchiveOrder
  import opened TarTheorems

  // ---------- on the bytes ----------

  /** `path[i..j]` is what stands between two slashes, or between a slash and an end. */
  predicate Stretch(path: Bytes, i: nat, j: nat) {
    && i <= j <= |path|
    && (i > 0 ==> path[i - 1] == 0x2f) && (j < |path| ==> path[j] == 0x2f)
    && forall k :: i <= k < j ==> path[k] != 0x2f
  }

  predicate Letter(b: byte) {
    0x41 <= b <= 0x5a || 0x61 <= b <= 0x7a
  }

  /** An encoded NUL, dot, slash or backslash at `i`: `%00`, `%2e`, `%2f`, `%5c`. */
  predicate EncodedAt(path: Bytes, i: nat) {
    && i + 2 < |path| && path[i] == 0x25
    && ((path[i + 1] == 0x30 && path[i + 2] == 0x30)
        || (path[i + 1] == 0x32 && path[i + 2] in {0x65, 0x45, 0x66, 0x46})
        || (path[i + 1] == 0x35 && path[i + 2] in {0x63, 0x43}))
  }

  /** Nothing between two slashes is empty or made of one dot or two dots. */
  ghost predicate PlainStretches(path: Bytes) {
    forall i: nat, j: nat :: Stretch(path, i, j) ==>
      i < j && path[i..j] != [0x2e] && path[i..j] != [0x2e, 0x2e]
  }

  ghost predicate SafePath(path: Bytes) {
    && 0 !in path && 0x5c !in path
    && !(|path| >= 2 && Letter(path[0]) && path[1] == 0x3a)
    && (forall i: nat :: !EncodedAt(path, i))
    && PlainStretches(path)
  }

  /** The bounds on the normalized path. */
  ghost predicate FitsArchive(path: Bytes) {
    && (forall i: nat, j: nat :: Stretch(path, i, j) ==> j - i <= 100)
    && |path| <= 240
    && (15 + |path| <= 100 || exists i :: LegalCut(ARCHIVE_ROOT + path, i))
  }

  // ---------- segments are stretches ----------

  /** The first segment is a stretch, and the stretches behind it are those of the rest. */
  lemma FirstSegment(path: Bytes)
    ensures var k := FirstIndex(path, SLASH);
            && Stretch(path, 0, k)
            && (forall j :: Stretch(path, 0, j) ==> j == k)
            && (k == |path| ==> Segments(path) == [path[..k]])
            && (k < |path| ==> Segments(path) == [path[..k]] + Segments(path[k + 1..]))
  {
    var k := FirstIndex(path, SLASH);
    forall j | Stretch(path, 0, j)
      ensures j == k
    {
      FirstIndexIs(path, SLASH, j);
    }
    assert path[..|path|] == path;
  }

  lemma LaterStretch(path: Bytes, n: nat, i: nat, j: nat)
    requires 0 < n <= |path| && path[n - 1] == SLASH && i <= j <= |path| - n
    ensures Stretch(path[n..], i, j) <==> Stretch(path, n + i, n + j)
    ensures path[n..][i..j] == path[n + i..n + j]
  {
    var rest := path[n..];
    assert forall m :: 0 <= m < |rest| ==> rest[m] == path[n + m];
    assert forall m :: n + i <= m < n + j ==> path[m] == rest[m - n];
  }

  lemma {:induction false} SegmentIsStretch(path: Bytes, segment: Bytes) returns (i: nat, j: nat)
    requires segment in Segments(path)
    ensures Stretch(path, i, j) && path[i..j] == segment
    decreases |path|
  {
    var k := FirstIndex(path, SLASH);
    FirstSegment(path);
    hide Segments, Stretch;
    if segment == path[..k] {
      assert path[0..k] == path[..k];
      i, j := 0, k;
    } else {
      var a, b := SegmentIsStretch(path[k + 1..], segment);
      StretchBounds(path[k + 1..], a, b);
      LaterStretch(path, k + 1, a, b);
      i, j := k + 1 + a, k + 1 + b;
    }
  }

  lemma StretchBounds(path: Bytes, i: nat, j: nat)
    requires Stretch(path, i, j)
    ensures i <= j <= |path|
  {
  }

  lemma {:induction false} StretchIsSegment(path: Bytes, i: nat, j: nat)
    requires Stretch(path, i, j)
    ensures path[i..j] in Segments(path)
    decreases |path|
  {
    var k := FirstIndex(path, SLASH);
    FirstSegment(path);
    if i == 0 {
      assert path[0..j] == path[..k];
    } else {
      assert k < |path| && i > k;
      hide Segments;
      LaterStretch(path, k + 1, i - k - 1, j - k - 1);
      StretchIsSegment(path[k + 1..], i - k - 1, j - k - 1);
    }
  }

  lemma SegmentsArePlain(path: Bytes)
    ensures PlainStretches(path) <==> !exists segment | segment in Segments(path) :: segment in [[], Ascii("."), Ascii("..")]
  {
    assert Ascii(".") == [0x2e] && Ascii("..") == [0x2e, 0x2e];
    if PlainStretches(path) {
      forall segment | segment in Segments(path)
        ensures segment !in [[], Ascii("."), Ascii("..")]
      {
        var i, j := SegmentIsStretch(path, segment);
      }
    } else {
      var i: nat, j: nat :| Stretch(path, i, j) && !(i < j && path[i..j] != [0x2e] && path[i..j] != [0x2e, 0x2e]);
      StretchIsSegment(path, i, j);
    }
  }

  lemma SegmentsAreShort(path: Bytes)
    ensures (forall i: nat, j: nat :: Stretch(path, i, j) ==> j - i <= 100)
            <==> !exists segment | segment in Segments(path) :: |segment| > MAXIMUM_PATH_SEGMENT_BYTES
  {
    if forall i: nat, j: nat :: Stretch(path, i, j) ==> j - i <= 100 {
      forall segment | segment in Segments(path)
        ensures |segment| <= 100
      {
        var i, j := SegmentIsStretch(path, segment);
      }
    } else {
      var i: nat, j: nat :| Stretch(path, i, j) && j - i > 100;
      StretchIsSegment(path, i, j);
    }
  }

  lemma EncodedIs(path: Bytes)
    ensures EncodedSeparatorOrTraversal(path) <==> exists i: nat :: EncodedAt(path, i)
  {
    forall i: nat | i + 2 < |path|
      ensures EncodedAt(path, i) <==> path[i] == 0x25 && [Lower(path[i + 1]), Lower(path[i + 2])] in [Ascii("00"), Ascii("2e"), Ascii("2f"), Ascii("5c")]
    {
      assert Ascii("00") == [0x30, 0x30] && Ascii("2e") == [0x32, 0x65] && Ascii("2f") == [0x32, 0x66] && Ascii("5c") == [0x35, 0x63];
    }
  }

  // ---------- what is accepted ----------

  /** A path is accepted exactly when it is safe as it is written and its normal form
      fits; it is then that normal form. */
  lemma NormalizedExactly(u: Unicode, path: Bytes)
    ensures NormalizePackagePath(u, path).Ok? <==> SafePath(path) && FitsArchive(u.nfc(path))
    ensures NormalizePackagePath(u, path) in {Ok(u.nfc(path)), Err(PathInvalid)}
  {
    var normal := u.nfc(path);
    SegmentsArePlain(path);
    SegmentsAreShort(normal);
    EncodedIs(path);
    EmptyAndAbsolute(path);
    assert SplitUstar(ARCHIVE_ROOT + normal).Ok? <==> 15 + |normal| <= 100 || exists i :: LegalCut(ARCHIVE_ROOT + normal, i);
    hide SplitUstar, Segments, PlainStretches, EncodedSeparatorOrTraversal, Stretch;
  }

  /** The empty path and one that begins with a slash have an empty stretch. */
  lemma EmptyAndAbsolute(path: Bytes)
    ensures PlainStretches(path) ==> path != [] && path[0] != SLASH
  {
    if path == [] || path[0] == SLASH { assert Stretch(path, 0, 0); }
  }

  // ---------- walking a path ----------

  /** How far below its start a walk along the path is after `n` bytes: each complete name
      leads down, `..` leads up, and an empty name or `.` stays. */
  function Depth(path: Bytes): int
    decreases |path|
  {
    var k := FirstIndex(path, 0x2f);
    var step := if path[..k] == [0x2e, 0x2e] then -1 else if path[..k] in [[], [0x2e]] then 0 else 1;
    if k == |path| then step else step + Depth(path[k + 1..])
  }

  /** The walk along `path`, from `depth` on, is never above its start. */
  predicate StaysBelow(path: Bytes, depth: int)
    decreases |path|
  {
    var k := FirstIndex(path, 0x2f);
    var now := depth + if path[..k] == [0x2e, 0x2e] then -1 else if path[..k] in [[], [0x2e]] then 0 else 1;
    now >= 0 && (k < |path| ==> StaysBelow(path[k + 1..], now))
  }

  lemma {:induction false} PlainStaysBelow(path: Bytes, depth: nat)
    requires PlainStretches(path)
    ensures StaysBelow(path, depth) && Depth(path) >= 1
    decreases |path|
  {
    var k := FirstIndex(path, 0x2f);
    assert Stretch(path, 0, k) && path[0..k] == path[..k];
    if k < |path| {
      var rest := path[k + 1..];
      forall i: nat, j: nat | Stretch(rest, i, j)
        ensures i < j && rest[i..j] != [0x2e] && rest[i..j] != [0x2e, 0x2e]
      {
        assert forall n :: 0 <= n < |rest| ==> rest[n] == path[k + 1 + n];
        assert i > 0 ==> path[k + i] == rest[i - 1];
        assert j < |rest| ==> path[k + 1 + j] == rest[j];
        assert forall n :: k + 1 + i <= n < k + 1 + j ==> path[n] == rest[n - k - 1];
        assert Stretch(path, k + 1 + i, k + 1 + j);
        assert rest[i..j] == path[k + 1 + i..k + 1 + j];
      }
      PlainStaysBelow(rest, depth + 1);
    }
  }

  /** A path that stays inside the directory it is unpacked in, and names a file there. */
  ghost predicate Inside(path: Bytes) {
    SafePath(path) && StaysBelow(path, 0) && Depth(path) >= 1
  }

  lemma AcceptedIsInside(u: Unicode, path: Bytes)
    requires NormalizePackagePath(u, path).Ok?
    ensures Inside(path)
  {
    NormalizedExactly(u, path);
    PlainStaysBelow(path, 0);
  }

  /** Every entry of an accepted archive stays inside. */
  lemma ReadEntriesStayInside(u: Unicode, bytes: Bytes)
    requires Lawful(u) && ReadArchive(u, bytes).Ok?
    ensures forall e | e in ReadArchive(u, bytes).value :: Inside(e.path)
  {
    var entries := ReadArchive(u, bytes).value;
    hide Lawful, ReadFrom, Acceptables, Acceptable, NormalizePackagePath, Inside;
    ReadIsAcceptables(u, bytes, [], 0);
    AcceptablesAreStorable(u, [], 0, entries);
    forall e | e in entries
      ensures Inside(e.path)
    {
      AcceptedIsInside(u, e.path);
    }
  }

  /** Every path the writer takes stays inside, as it is given and as it is stored. */
  lemma WrittenEntriesStayInside(u: Unicode, entries: seq<Entry>)
    requires Lawful(u) && (forall e | e in entries :: u.decodable(e.path)) && WriteArchive(u, entries).Ok?
    ensures forall e | e in entries :: Inside(e.path)
    ensures forall e | e in Stored(u, entries) :: Inside(e.path)
  {
    hide Lawful, Acceptables, Acceptable, NormalizePackagePath, Inside, WriteArchive, Stored, RegisterAll, Encode;
    WriterParts(u, entries);
    assert RegisterAll(u, [], entries).Ok? by { WriterRegisters(u, entries); }
    RegisterAllIs(u, [], entries);
    StoredAreCanonical(u, entries);
    forall e | e in entries
      ensures Inside(e.path)
    {
      AcceptedIsInside(u, e.path);
    }
    forall e | e in Stored(u, entries)
      ensures Inside(e.path)
    {
      AcceptedIsInside(u, e.path);
    }
  }

  lemma WriterRegisters(u: Unicode, entries: seq<Entry>)
    requires WriteArchive(u, entries).Ok?
    ensures RegisterAll(u, [], entries).Ok?
  {
    hide RegisterAll, Encode, SortByPath;
  }
}
