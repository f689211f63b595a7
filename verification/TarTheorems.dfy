/** The laws of the archive format: round trip, canonicity, independence of order. */
module TarTheorems {
  import opened Wrappers
  import opened Bytes
  import opened PackagePaths
  import opened UstarHeader
  import opened HeaderReader
  import opened PackageTar
  import opened TarEntries
  import opened ArchiveOrder

  /** Entry lists the reader may meet after `taken` and `total`. */
  ghost predicate Acceptables(u: Unicode, taken: seq<Bytes>, total: nat, entries: seq<Entry>)
    decreases |entries|
  {
    entries != [] ==>
      && Acceptable(u, taken, total, entries[0])
      && Acceptables(u, taken + [entries[0].path], total + |entries[0].data|, entries[1..])
  }

  /** No header of the archive carries a byte order mark. */
  predicate Unmarked(rest: Bytes)
    decreases |rest|
  {
    |rest| >= BLOCK_SIZE && !AllZero(rest[..BLOCK_SIZE]) ==>
      && !MarkedHeader(rest[..BLOCK_SIZE])
      && (ValidateHeader(rest[..BLOCK_SIZE]).Ok? ==>
            var next := BLOCK_SIZE + BlockAligned(ValidateHeader(rest[..BLOCK_SIZE]).value);
            next <= |rest| ==> Unmarked(rest[next..]))
  }

  predicate UnmarkedNames(entries: seq<Entry>) {
    forall e | e in entries :: !MarkedName(e)
  }

  /** The first name field, which the archive starts with, begins with no compression
      signature. */
  predicate StartsPlain(entries: seq<Entry>) {
    entries != [] ==> !LooksCompressed(TextField(NameField(entries[0]), USTAR_NAME_BYTES))
  }

  // ---------- what the reader accepts ----------

  lemma {:induction false} ReadIsAcceptables(u: Unicode, rest: Bytes, taken: seq<Bytes>, total: nat)
    requires Lawful(u) && ReadFrom(u, rest, taken, total).Ok?
    ensures var entries := ReadFrom(u, rest, taken, total).value;
            Acceptables(u, taken, total, entries) && (taken != [] || entries != [])
    decreases |rest|
  {
    hide Lawful, ReadEntry, Acceptable, CheckTerminator;
    assert |rest| >= BLOCK_SIZE;
    if AllZero(rest[..BLOCK_SIZE]) {
      TerminatorNeedsFiles(rest, taken != []);
    } else {
      var e := ReadEntry(u, rest, taken, total).value;
      ReadIsAcceptable(u, rest, taken, total);
      var next := BLOCK_SIZE + BlockAligned(|e.data|);
      ReadIsAcceptables(u, rest[next..], taken + [e.path], total + |e.data|);
    }
  }

  lemma TerminatorNeedsFiles(rest: Bytes, any: bool)
    requires |rest| >= BLOCK_SIZE && CheckTerminator(rest, any).Ok? && AllZero(rest[..BLOCK_SIZE])
    ensures any && |rest| >= TERMINAL_SIZE && AllZero(rest)
  {
    assert rest == rest[..BLOCK_SIZE] + rest[BLOCK_SIZE..TERMINAL_SIZE] + rest[TERMINAL_SIZE..];
  }

  /** What follows the entries is zeros, at least two blocks of them. */
  ghost predicate EncodesTo(u: Unicode, entries: seq<Entry>, rest: Bytes) {
    && Encode(u, entries).Ok?
    && Encode(u, entries).value <= rest
    && |rest| >= |Encode(u, entries).value| + TERMINAL_SIZE
    && AllZero(rest[|Encode(u, entries).value|..])
  }

  lemma EncodesToCons(u: Unicode, entries: seq<Entry>, rest: Bytes, next: nat)
    requires entries != [] && next <= |rest| && EntryBlocks(u, entries[0]) == Ok(rest[..next])
    ensures EncodesTo(u, entries, rest) <==> EncodesTo(u, entries[1..], rest[next..])
  {
    hide EntryBlocks, AllZero;
    if Encode(u, entries[1..]).Ok? {
      var tail := Encode(u, entries[1..]).value;
      var all := Encode(u, entries).value;
      assert all == rest[..next] + tail;
      if |all| <= |rest| {
        assert rest[|all|..] == rest[next..][|tail|..];
        assert rest[..|all|] == rest[..next] + rest[next..][..|tail|];
      }
    }
  }

  lemma {:induction false} ReadIsEncoded(u: Unicode, rest: Bytes, taken: seq<Bytes>, total: nat)
    requires Lawful(u) && ReadFrom(u, rest, taken, total).Ok? && Unmarked(rest)
    ensures EncodesTo(u, ReadFrom(u, rest, taken, total).value, rest)
    decreases |rest|
  {
    hide Lawful, ReadEntry, EntryBlocks, MarkedHeader, CheckTerminator, Canonical;
    var entries := ReadFrom(u, rest, taken, total).value;
    if AllZero(rest[..BLOCK_SIZE]) {
      TerminatorNeedsFiles(rest, taken != []);
      assert rest[0..] == rest;
    } else {
      var e := ReadEntry(u, rest, taken, total).value;
      var next := BLOCK_SIZE + BlockAligned(|e.data|);
      SizeOfRead(u, rest, taken, total, e);
      ReadIsPrinted(u, rest, taken, total, e);
      ReadIsEncoded(u, rest[next..], taken + [e.path], total + |e.data|);
      assert entries[1..] == ReadFrom(u, rest[next..], taken + [e.path], total + |e.data|).value;
      EncodesToCons(u, entries, rest, next);
    }
  }

  lemma SizeOfRead(u: Unicode, rest: Bytes, taken: seq<Bytes>, total: nat, e: Entry)
    requires |rest| >= BLOCK_SIZE && ReadEntry(u, rest, taken, total) == Ok(e)
    ensures ValidateHeader(rest[..BLOCK_SIZE]) == Ok(|e.data|)
  {
    ReadEntryPasses(u, rest, taken, total, e);
    hide ValidateHeader, VerifyChecksum, ReadPath, RegisterArchivePath, ReadData, ReadEntry;
  }

  // ---------- what the writer prints ----------

  lemma HeaderIsNotZero(u: Unicode, e: Entry, rest: Bytes)
    requires EntryBlocks(u, e).Ok? && EntryBlocks(u, e).value <= rest
    ensures |rest| >= BLOCK_SIZE && !AllZero(rest[..BLOCK_SIZE])
  {
    EntryBlocksLength(u, e);
    TypeFlag(ArchivePathForPackageFile(u, e.path).value, |e.data|);
    hide EntryBlocks, Header, ArchivePathForPackageFile;
    assert rest[156] == EntryBlocks(u, e).value[..BLOCK_SIZE][156];
    assert rest[..BLOCK_SIZE][156] == 0x30;
  }

  lemma TypeFlag(archivePath: Bytes, size: nat)
    requires Header(archivePath, size).Ok?
    ensures |Header(archivePath, size).value| == BLOCK_SIZE && Header(archivePath, size).value[156] == 0x30
  {
    HeaderHasFields(SplitUstar(archivePath).value, size);
    hide HeaderBytes, TextField, OctalField, Zeros;
  }

  /** An encoded list reads back exactly when no name carries a mark. */
  lemma {:induction false} EncodedReadsBack(u: Unicode, rest: Bytes, taken: seq<Bytes>, total: nat, entries: seq<Entry>)
    requires Lawful(u) && Acceptables(u, taken, total, entries) && EncodesTo(u, entries, rest)
    requires taken != [] || entries != []
    ensures ReadFrom(u, rest, taken, total) == Ok(entries) <==> UnmarkedNames(entries)
    ensures Unmarked(rest) <==> UnmarkedNames(entries)
    decreases |entries|
  {
    hide Lawful, ReadEntry, MarkedHeader, MarkedName, EntryBlocks, Acceptable;
    if entries == [] {
      EncodedEnd(u, rest, taken, total);
    } else {
      var e := entries[0];
      var blocks := EntryBlocks(u, e).value;
      assert blocks <= rest by { EncodeStartsWithBlocks(u, entries, rest); }
      HeaderIsNotZero(u, e, rest);
      PrintedReadsBack(u, rest, taken, total, e);
      BlocksLength(u, e);
      var next := |blocks|;
      assert rest[..next] == blocks;
      EncodesToCons(u, entries, rest, next);
      EncodedReadsBack(u, rest[next..], taken + [e.path], total + |e.data|, entries[1..]);
      FirstOfRead(u, rest, taken, total, entries);
      PrintedSize(u, rest, taken, total, e);
      assert UnmarkedNames(entries) <==> !MarkedName(e) && UnmarkedNames(entries[1..]);
    }
  }

  lemma EncodedEnd(u: Unicode, rest: Bytes, taken: seq<Bytes>, total: nat)
    requires taken != [] && EncodesTo(u, [], rest)
    ensures ReadFrom(u, rest, taken, total) == Ok([]) && Unmarked(rest)
  {
    assert rest[0..] == rest;
    assert AllZero(rest[..BLOCK_SIZE]);
  }

  lemma EncodeStartsWithBlocks(u: Unicode, entries: seq<Entry>, rest: Bytes)
    requires entries != [] && EncodesTo(u, entries, rest)
    ensures EntryBlocks(u, entries[0]).Ok? && EntryBlocks(u, entries[0]).value <= rest
  {
    hide EntryBlocks, AllZero;
    assert EntryBlocks(u, entries[0]).value <= Encode(u, entries).value;
  }

  lemma BlocksLength(u: Unicode, e: Entry)
    requires EntryBlocks(u, e).Ok?
    ensures |EntryBlocks(u, e).value| == BLOCK_SIZE + BlockAligned(|e.data|)
  {
    EntryBlocksLength(u, e);
  }

  /** The list read starts with the entry read. */
  lemma FirstOfRead(u: Unicode, rest: Bytes, taken: seq<Bytes>, total: nat, entries: seq<Entry>)
    requires entries != [] && |rest| >= BLOCK_SIZE && !AllZero(rest[..BLOCK_SIZE])
    ensures BLOCK_SIZE + BlockAligned(|entries[0].data|) <= |rest| ==>
              var next := BLOCK_SIZE + BlockAligned(|entries[0].data|);
              ReadFrom(u, rest, taken, total) == Ok(entries)
              <==> && ReadEntry(u, rest, taken, total) == Ok(entries[0])
                   && ReadFrom(u, rest[next..], taken + [entries[0].path], total + |entries[0].data|) == Ok(entries[1..])
  {
    hide ReadEntry, AllZero;
    assert entries == [entries[0]] + entries[1..];
  }

  lemma PrintedSize(u: Unicode, rest: Bytes, taken: seq<Bytes>, total: nat, e: Entry)
    requires Acceptable(u, taken, total, e) && EntryBlocks(u, e).Ok? && EntryBlocks(u, e).value <= rest
    ensures |rest| >= BLOCK_SIZE && ValidateHeader(rest[..BLOCK_SIZE]) == Ok(|e.data|)
  {
    hide EntryBlocks, HeaderBytes, ValidateHeader;
    PrintedParts(u, rest, e);
    PrintedHeaderChecks(u, e.path, |e.data|);
  }

  // ---------- lists ----------

  /** The same lists, said without the reader's state. */
  ghost predicate Storable(u: Unicode, taken: seq<Bytes>, total: nat, entries: seq<Entry>) {
    && (forall e | e in entries :: Canonical(u, e.path) && u.decodable(e.path))
    && Sorted(entries) && Distinct(u, entries) && ClearOf(u, taken, entries)
    && (taken != [] && entries != [] ==> Compare(taken[|taken| - 1], entries[0].path) <= 0)
    && CheckSizes(entries, total).Ok?
    && (entries != [] ==> |taken| + |entries| <= MAXIMUM_FILES)
  }

  lemma StorableCons(u: Unicode, taken: seq<Bytes>, total: nat, entries: seq<Entry>)
    requires entries != []
    ensures Storable(u, taken, total, entries)
            <==> && Acceptable(u, taken, total, entries[0])
                 && Storable(u, taken + [entries[0].path], total + |entries[0].data|, entries[1..])
  {
    hide Canonical, Compare;
    var e, rest := entries[0], entries[1..];
    ClearOfCons(u, taken, e, rest);
    assert entries == [e] + rest;
    assert ClearOf(u, taken, [e]) <==> FreshPath(u, taken, e.path);
  }

  lemma {:induction false} AcceptablesAreStorable(u: Unicode, taken: seq<Bytes>, total: nat, entries: seq<Entry>)
    ensures Acceptables(u, taken, total, entries) <==> Storable(u, taken, total, entries)
    decreases |entries|
  {
    hide Acceptable, Canonical;
    if entries != [] {
      StorableCons(u, taken, total, entries);
      AcceptablesAreStorable(u, taken + [entries[0].path], total + |entries[0].data|, entries[1..]);
    }
  }

  lemma {:induction false} StorableEncodes(u: Unicode, entries: seq<Entry>)
    requires forall e | e in entries :: Canonical(u, e.path) && |e.data| <= MAXIMUM_FILE_BYTES
    ensures Encode(u, entries).Ok?
  {
    hide Canonical, EntryBlocks;
    if entries != [] {
      CanonicalPrints(u, entries[0]);
      StorableEncodes(u, entries[1..]);
    }
  }

  lemma {:induction false} CheckedSizes(entries: seq<Entry>, total: nat)
    requires CheckSizes(entries, total).Ok?
    ensures forall e | e in entries :: |e.data| <= MAXIMUM_FILE_BYTES
  {
    if entries != [] {
      CheckedSizes(entries[1..], total + |entries[0].data|);
      assert entries == [entries[0]] + entries[1..];
    }
  }

  lemma {:induction false} EncodedPathsNormalize(u: Unicode, entries: seq<Entry>)
    requires Encode(u, entries).Ok?
    ensures forall e | e in entries :: NormalizePackagePath(u, e.path).Ok?
  {
    hide NormalizePackagePath, Header;
    if entries != [] {
      EncodedPathsNormalize(u, entries[1..]);
      assert entries == [entries[0]] + entries[1..];
    }
  }

  /** What the writer stores: the entries under normalized paths, sorted. */
  function Stored(u: Unicode, entries: seq<Entry>): seq<Entry> {
    SortByPath(Named(u, entries))
  }

  lemma StoredMembers(u: Unicode, entries: seq<Entry>)
    ensures |Stored(u, entries)| == |entries|
    ensures forall e | e in Stored(u, entries) :: exists i :: 0 <= i < |entries| && e == NamedEntry(u, entries[i])
  {
    var named := Named(u, entries);
    SortIs(u, named);
    SortLength(named);
    forall e | e in Stored(u, entries)
      ensures exists i :: 0 <= i < |entries| && e == NamedEntry(u, entries[i])
    {
      assert e in multiset(Stored(u, entries));
      assert e in named;
      var i :| 0 <= i < |named| && named[i] == e;
      assert e == NamedEntry(u, entries[i]);
    }
  }

  lemma StoredAreCanonical(u: Unicode, entries: seq<Entry>)
    requires Lawful(u) && (forall e | e in entries :: u.decodable(e.path)) && Encode(u, Stored(u, entries)).Ok?
    ensures forall e | e in Stored(u, entries) :: Canonical(u, e.path) && u.decodable(e.path)
  {
    StoredMembers(u, entries);
    EncodedPathsNormalize(u, Stored(u, entries));
    forall e | e in Stored(u, entries)
      ensures Canonical(u, e.path) && u.decodable(e.path)
    {
      var i :| 0 <= i < |entries| && e == NamedEntry(u, entries[i]);
      Idempotent(u, entries[i].path);
      NormalizedIsNfc(u, e.path);
      assert u.decodable(entries[i].path);
      hide NormalizePackagePath;
    }
  }

  /** When the writer succeeds, it stores a list the reader may meet, and prints that
      list's encoding and two zero blocks. */
  lemma WriterStores(u: Unicode, entries: seq<Entry>)
    requires Lawful(u) && (forall e | e in entries :: u.decodable(e.path)) && WriteArchive(u, entries).Ok?
    ensures Stored(u, entries) != [] && Acceptables(u, [], 0, Stored(u, entries))
    ensures Encode(u, Stored(u, entries)).Ok?
    ensures WriteArchive(u, entries).value == Encode(u, Stored(u, entries)).value + Zeros(TERMINAL_SIZE)
    ensures EncodesTo(u, Stored(u, entries), WriteArchive(u, entries).value)
    ensures |WriteArchive(u, entries).value| <= MAXIMUM_ARCHIVE_BYTES
    ensures |WriteArchive(u, entries).value| >= TERMINAL_SIZE && |WriteArchive(u, entries).value| % BLOCK_SIZE == 0
  {
    var stored := Stored(u, entries);
    WriterParts(u, entries);
    StoredMembers(u, entries);
    StoredAreAcceptables(u, entries);
    hide Stored, Lawful, Encode, WriteArchive, CheckSizes, ArchiveSize, Acceptables;
    EncodeLength(u, stored);
    ArchiveNeverTooLarge(stored);
    ArchiveSizeAligned(stored);
    EncodedIsWritten(u, stored, WriteArchive(u, entries).value, WriteArchive(u, entries).value);
  }

  lemma StoredAreAcceptables(u: Unicode, entries: seq<Entry>)
    requires Lawful(u) && (forall e | e in entries :: u.decodable(e.path)) && WriteArchive(u, entries).Ok?
    ensures Acceptables(u, [], 0, Stored(u, entries))
  {
    var named, stored := Named(u, entries), Stored(u, entries);
    WriterParts(u, entries);
    SortIs(u, named);
    DistinctPermuted(u, named, stored);
    StoredMembers(u, entries);
    StoredAreCanonical(u, entries);
    hide Stored, Named, Canonical, Lawful, Encode, WriteArchive, Acceptables, CheckSizes, Distinct, Sorted;
    AcceptablesAreStorable(u, [], 0, stored);
  }

  lemma WriterParts(u: Unicode, entries: seq<Entry>)
    requires WriteArchive(u, entries).Ok?
    ensures 0 < |entries| <= MAXIMUM_FILES && Distinct(u, Named(u, entries))
    ensures CheckSizes(Stored(u, entries), 0).Ok? && Encode(u, Stored(u, entries)).Ok?
    ensures WriteArchive(u, entries).value == Encode(u, Stored(u, entries)).value + Zeros(TERMINAL_SIZE)
  {
    RegisterAllIs(u, [], entries);
    hide RegisterAll, Encode, CheckSizes, Named;
  }

  lemma ArchiveSizeAligned(entries: seq<Entry>)
    ensures ArchiveSize(entries) % BLOCK_SIZE == 0 && ArchiveSize(entries) >= TERMINAL_SIZE
  {
  }

  /** A list the reader returned is written without further change. */
  lemma AcceptablesWrite(u: Unicode, entries: seq<Entry>)
    requires Lawful(u) && Acceptables(u, [], 0, entries) && entries != []
    ensures WriteArchive(u, entries).Ok? && Encode(u, entries).Ok? && Stored(u, entries) == entries
    ensures WriteArchive(u, entries).value == Encode(u, entries).value + Zeros(TERMINAL_SIZE)
  {
    AcceptablesAreStorable(u, [], 0, entries);
    CheckedSizes(entries, 0);
    StorableEncodes(u, entries);
    NamedCanonical(u, entries);
    SortKeepsSorted(entries);
    RegisterAllIs(u, [], entries);
    hide RegisterAll, Encode, CheckSizes, Canonical, Named, SortByPath;
  }

  lemma NamedCanonical(u: Unicode, entries: seq<Entry>)
    requires forall e | e in entries :: Canonical(u, e.path)
    ensures Named(u, entries) == entries
    ensures forall e | e in entries :: Nameable(u, e)
  {
    forall i | 0 <= i < |entries|
      ensures NamedEntry(u, entries[i]) == entries[i]
    {
      assert Canonical(u, entries[i].path);
      NormalizedIsNfc(u, entries[i].path);
    }
    hide NormalizePackagePath;
  }

  // ---------- the laws ----------

  /** Round trip: what the writer prints reads back as exactly the stored entries if
      and only if the first name field does not begin with a compression signature and
      no name field begins with a byte order mark. */
  lemma RoundTrip(u: Unicode, entries: seq<Entry>)
    requires Lawful(u) && (forall e | e in entries :: u.decodable(e.path)) && WriteArchive(u, entries).Ok?
    ensures ReadArchive(u, WriteArchive(u, entries).value) == Ok(Stored(u, entries))
            <==> StartsPlain(Stored(u, entries)) && UnmarkedNames(Stored(u, entries))
  {
    WriterStores(u, entries);
    hide Lawful, Stored, WriteArchive, EncodesTo, Acceptables, UnmarkedNames, LooksCompressed, StartsPlain;
    FirstField(u, Stored(u, entries), WriteArchive(u, entries).value);
    EncodedReadsBack(u, WriteArchive(u, entries).value, [], 0, Stored(u, entries));
  }

  /** The archive starts with the first name field. */
  lemma FirstField(u: Unicode, stored: seq<Entry>, archive: Bytes)
    requires stored != [] && EncodesTo(u, stored, archive) && Acceptables(u, [], 0, stored)
    ensures |archive| >= 100 && archive[..100] == TextField(NameField(stored[0]), 100)
    ensures LooksCompressed(archive) <==> !StartsPlain(stored)
  {
    EncodeStartsWithBlocks(u, stored, archive);
    var e := stored[0];
    PrintedParts(u, archive, e);
    var split := SplitUstar(ARCHIVE_ROOT + e.path).value;
    HeaderHasFields(split, |e.data|);
    hide HeaderBytes, Encode, EncodesTo, Acceptables, Acceptable, NormalizePackagePath, TextField, SplitUstar, LooksCompressed;
    assert archive[..100] == archive[..BLOCK_SIZE][0..100];
    SignatureIsShort(archive);
  }

  lemma SignatureIsShort(archive: Bytes)
    requires |archive| >= 100
    ensures LooksCompressed(archive) <==> LooksCompressed(archive[..100])
  {
    forall signature | signature in SIGNATURES
      ensures StartsWith(archive, signature) <==> StartsWith(archive[..100], signature)
    {
      assert |signature| <= 6;
      assert archive[..|signature|] == archive[..100][..|signature|];
    }
  }

  /** When the first stored rooted path fits the name field, only marks are left to matter. */
  lemma ShortPathsRoundTrip(u: Unicode, entries: seq<Entry>)
    requires Lawful(u) && (forall e | e in entries :: u.decodable(e.path)) && WriteArchive(u, entries).Ok?
    requires |ARCHIVE_ROOT| + |Stored(u, entries)[0].path| <= USTAR_NAME_BYTES
    ensures ReadArchive(u, WriteArchive(u, entries).value) == Ok(Stored(u, entries)) <==> UnmarkedNames(Stored(u, entries))
  {
    RoundTrip(u, entries);
    WriterStores(u, entries);
    hide Lawful, Stored, WriteArchive, ReadArchive, EncodesTo, Acceptables, Encode, LooksCompressed, UnmarkedNames;
    var e := Stored(u, entries)[0];
    UncompressedRoot(TextField(NameField(e), USTAR_NAME_BYTES)) by { ShortNameField(e); }
  }

  lemma ShortNameField(e: Entry)
    requires |ARCHIVE_ROOT| + |e.path| <= USTAR_NAME_BYTES
    ensures TextField(NameField(e), USTAR_NAME_BYTES)[0] == 0x64 && !MarkedName(e)
  {
    assert NameField(e) == ARCHIVE_ROOT + e.path;
    assert NameField(e)[0] == 0x64;
  }

  lemma UncompressedRoot(archive: Bytes)
    requires |archive| > 0 && archive[0] == 0x64
    ensures !LooksCompressed(archive)
  {
  }

  /** Canonicity: an accepted archive is the writer's output on the entries it holds,
      followed by zeros, if and only if none of its headers carries a mark. */
  lemma Canonicity(u: Unicode, bytes: Bytes)
    requires Lawful(u) && ReadArchive(u, bytes).Ok?
    ensures var entries := ReadArchive(u, bytes).value;
            && WriteArchive(u, entries).Ok?
            && (Unmarked(bytes)
                <==> WriteArchive(u, entries).value <= bytes && AllZero(bytes[|WriteArchive(u, entries).value|..]))
  {
    var entries := ReadArchive(u, bytes).value;
    assert ReadFrom(u, bytes, [], 0) == Ok(entries);
    hide Lawful, ReadFrom, ReadArchive, Acceptables, WriteArchive, Unmarked;
    ReadIsAcceptables(u, bytes, [], 0);
    AcceptablesWrite(u, entries);
    if Unmarked(bytes) {
      ReadIsEncoded(u, bytes, [], 0);
    }
    EncodedIsWritten(u, entries, WriteArchive(u, entries).value, bytes);
    if EncodesTo(u, entries, bytes) {
      EncodedReadsBack(u, bytes, [], 0, entries);
    }
  }

  lemma EncodedIsWritten(u: Unicode, entries: seq<Entry>, written: Bytes, bytes: Bytes)
    requires Encode(u, entries).Ok? && written == Encode(u, entries).value + Zeros(TERMINAL_SIZE)
    ensures EncodesTo(u, entries, bytes) <==> written <= bytes && AllZero(bytes[|written|..])
  {
    hide Encode;
    var blocks := Encode(u, entries).value;
    var n := |blocks|;
    if |bytes| >= n + TERMINAL_SIZE {
      assert bytes[..n + TERMINAL_SIZE] == bytes[..n] + bytes[n..n + TERMINAL_SIZE];
      assert bytes[n..] == bytes[n..n + TERMINAL_SIZE] + bytes[n + TERMINAL_SIZE..];
      if EncodesTo(u, entries, bytes) {
        AllZeroIsZeros(bytes[n..n + TERMINAL_SIZE]);
      } else if blocks + Zeros(TERMINAL_SIZE) <= bytes {
        assert bytes[..n] == (blocks + Zeros(TERMINAL_SIZE))[..n];
        assert bytes[n..n + TERMINAL_SIZE] == (blocks + Zeros(TERMINAL_SIZE))[n..];
      }
    }
  }

  /** Uniqueness: two accepted, unmarked archives of the same entries differ only in
      how many zero blocks follow the terminator. */
  lemma EqualEntriesEqualBytes(u: Unicode, a: Bytes, b: Bytes)
    requires Lawful(u) && ReadArchive(u, a).Ok? && ReadArchive(u, a) == ReadArchive(u, b)
    requires Unmarked(a) && Unmarked(b) && |a| <= |b|
    ensures a <= b && AllZero(b[|a|..]) && (|b| - |a|) % BLOCK_SIZE == 0
  {
    hide ReadArchive, WriteArchive, Unmarked, Lawful, AllZero;
    var entries := ReadArchive(u, a).value;
    AcceptedBytes(u, a, entries);
    AcceptedBytes(u, b, entries);
    PaddedWithZeros(WriteArchive(u, entries).value, a, b);
  }

  lemma AcceptedBytes(u: Unicode, bytes: Bytes, entries: seq<Entry>)
    requires Lawful(u) && ReadArchive(u, bytes) == Ok(entries) && Unmarked(bytes)
    ensures |bytes| % BLOCK_SIZE == 0 && WriteArchive(u, entries).Ok?
    ensures WriteArchive(u, entries).value <= bytes && AllZero(bytes[|WriteArchive(u, entries).value|..])
  {
    ReadIsAligned(u, bytes);
    Canonicity(u, bytes);
    hide ReadArchive, WriteArchive, Unmarked, Lawful, AllZero;
  }

  lemma ReadIsAligned(u: Unicode, bytes: Bytes)
    requires ReadArchive(u, bytes).Ok?
    ensures |bytes| % BLOCK_SIZE == 0
  {
    hide ReadFrom, LooksCompressed;
  }

  lemma PaddedWithZeros(w: Bytes, a: Bytes, b: Bytes)
    requires w <= a && w <= b && AllZero(a[|w|..]) && AllZero(b[|w|..]) && |a| <= |b|
    ensures a <= b && AllZero(b[|a|..])
  {
    assert forall i :: |w| <= i < |a| ==> a[i] == a[|w|..][i - |w|];
    assert forall i :: |w| <= i < |b| ==> b[i] == b[|w|..][i - |w|];
  }

  /** The order of the input decides neither acceptance nor the bytes. */
  lemma OrderIndependence(u: Unicode, xs: seq<Entry>, ys: seq<Entry>)
    requires multiset(xs) == multiset(ys)
    ensures WriteArchive(u, xs).Ok? <==> WriteArchive(u, ys).Ok?
    ensures WriteArchive(u, xs).Ok? ==> WriteArchive(u, xs) == WriteArchive(u, ys)
  {
    if WriteArchive(u, xs).Ok? { OneOrder(u, xs, ys); }
    if WriteArchive(u, ys).Ok? { OneOrder(u, ys, xs); }
  }

  lemma OneOrder(u: Unicode, xs: seq<Entry>, ys: seq<Entry>)
    requires multiset(xs) == multiset(ys) && WriteArchive(u, xs).Ok?
    ensures WriteArchive(u, ys) == WriteArchive(u, xs)
  {
    WriterParts(u, xs);
    NamedPermuted(u, xs, ys);
    DistinctPermuted(u, Named(u, xs), Named(u, ys));
    StoredPermuted(u, xs, ys);
    RegisterAllIs(u, [], xs);
    RegisterAllIs(u, [], ys);
    NameablePermuted(u, xs, ys);
    assert |xs| == |multiset(xs)| == |multiset(ys)| == |ys|;
    hide RegisterAll, Encode, CheckSizes, Named, SortByPath, Nameable, Distinct;
  }

  lemma NameablePermuted(u: Unicode, xs: seq<Entry>, ys: seq<Entry>)
    requires multiset(xs) == multiset(ys) && forall e | e in xs :: Nameable(u, e)
    ensures forall e | e in ys :: Nameable(u, e)
  {
    hide Nameable;
    forall e | e in ys
      ensures Nameable(u, e)
    {
      assert e in multiset(ys);
      assert e in xs;
    }
  }

  lemma StoredPermuted(u: Unicode, xs: seq<Entry>, ys: seq<Entry>)
    requires multiset(Named(u, xs)) == multiset(Named(u, ys)) && Distinct(u, Named(u, xs))
    ensures Stored(u, xs) == Stored(u, ys)
  {
    SortIs(u, Named(u, xs));
    SortIs(u, Named(u, ys));
    DistinctPermuted(u, Named(u, xs), Stored(u, xs));
    SortedUnique(u, Stored(u, xs), Stored(u, ys));
  }

  /** The laws are not empty: an archive of one small file is written and read back. */
  lemma OneSmallFile(data: Bytes)
    requires |data| <= MAXIMUM_FILE_BYTES
    ensures var u := Unicode(s => true, s => s, s => s);
            var entries := [Entry([0x61], data)];
            && Lawful(u) && WriteArchive(u, entries).Ok?
            && ReadArchive(u, WriteArchive(u, entries).value) == Ok(entries)
  {
    var u := Unicode(s => true, s => s, s => s);
    var e := Entry([0x61], data);
    assert Lawful(u);
    hide Lawful, WriteArchive, ReadArchive, SortByPath;
    OneLetterIsCanonical(u);
    assert Acceptables(u, [e.path], |data|, []);
    assert Acceptable(u, [], 0, e) && [e][1..] == [] && [] + [e.path] == [e.path];
    assert Acceptables(u, [], 0, [e]);
    AcceptablesWrite(u, [e]);
    ShortNameField(e);
    ShortPathsRoundTrip(u, [e]);
  }

  lemma OneLetterIsCanonical(u: Unicode)
    requires u.nfc([0x61]) == [0x61]
    ensures Canonical(u, [0x61])
  {
    var path: Bytes := [0x61];
    assert Segments(path) == [path] by { FirstIndexIs(path, SLASH, 1); }
    CanonicalPathsSplitBelow143(u, path);
  }
}
