/** One archive entry: what the writer prints for it and what the reader makes of
    those bytes determine each other. */
module TarEntries {
  import opened Wrappers
  import opened Bytes
  import opened Octal
  import opened PackagePaths
  import opened UstarHeader
  import opened HeaderReader
  import opened PackageTar

  /** The name field of the entry's header. */
  function NameField(e: Entry): (name: Bytes)
    ensures |name| <= USTAR_NAME_BYTES
  {
    match SplitUstar(ARCHIVE_ROOT + e.path)
    case Ok(split) => split.name
    case Err(_) => []
  }

  /** The name field begins with a byte order mark, which the decoder drops. */
  predicate MarkedName(e: Entry) {
    StartsWith(NameField(e), BOM)
  }

  predicate MarkedHeader(header: Bytes)
    requires |header| == BLOCK_SIZE
  {
    StartsWith(RawText(header, 0, 100), BOM) || StartsWith(RawText(header, 345, 155), BOM)
  }

  ghost predicate FreshPath(u: Unicode, taken: seq<Bytes>, path: Bytes) {
    path !in taken && forall t | t in taken :: u.fold(t) != u.fold(path)
  }

  /** An entry the reader may meet after `taken` and `total`. */
  ghost predicate Acceptable(u: Unicode, taken: seq<Bytes>, total: nat, e: Entry) {
    && Canonical(u, e.path)
    && u.decodable(e.path)
    && FreshPath(u, taken, e.path)
    && CheckPlace(taken, e.path).Ok?
    && |e.data| <= MAXIMUM_FILE_BYTES
    && total + |e.data| <= MAXIMUM_TOTAL_PAYLOAD_BYTES
  }

  // ---------- paths ----------

  lemma RegisterRooted(u: Unicode, taken: seq<Bytes>, path: Bytes)
    requires Canonical(u, path) && FreshPath(u, taken, path)
    ensures RegisterArchivePath(u, taken, ARCHIVE_ROOT + path) == Ok(path)
  {
    var a := ARCHIVE_ROOT + path;
    assert a[|ARCHIVE_ROOT|..] == path;
    hide NormalizePackagePath;
    assert path != [] by { NormalizedIsNonEmpty(u, path); }
    assert a != ARCHIVE_ROOT;
  }

  lemma NormalizedIsNonEmpty(u: Unicode, path: Bytes)
    requires NormalizePackagePath(u, path).Ok?
    ensures path != [] && NormalizePackagePath(u, path) == Ok(u.nfc(path))
    ensures SplitUstar(ARCHIVE_ROOT + u.nfc(path)).Ok? && 0 !in path
  {
  }

  lemma CanonicalIsNonEmpty(u: Unicode, path: Bytes)
    requires Canonical(u, path)
    ensures path != [] && 0 !in path && u.nfc(path) == path && SplitUstar(ARCHIVE_ROOT + path).Ok?
  {
    NormalizedIsNonEmpty(u, path);
  }

  lemma RegisteredIsRooted(u: Unicode, taken: seq<Bytes>, archivePath: Bytes)
    requires Lawful(u) && RegisterArchivePath(u, taken, archivePath).Ok?
    ensures var path := RegisterArchivePath(u, taken, archivePath).value;
            archivePath == ARCHIVE_ROOT + path && Canonical(u, path) && FreshPath(u, taken, path)
  {
    hide NormalizePackagePath, Lawful;
    var path := RegisterArchivePath(u, taken, archivePath).value;
    var inner := PackagePathFromArchiveEntry(u, archivePath).value;
    NormalizedIsNonEmpty(u, inner);
    NormalizedIsNonEmpty(u, path);
    assert u.nfc(path) == path by { assert path == u.nfc(inner); Idempotent(u, inner); }
  }

  lemma Idempotent(u: Unicode, s: Bytes)
    requires Lawful(u)
    ensures u.nfc(u.nfc(s)) == u.nfc(s)
  {
  }

  /** Both fields of a well-formed path are well-formed. */
  lemma FieldsDecodable(u: Unicode, split: Split)
    requires Lawful(u)
    ensures u.decodable(Joined(split)) && split.prefix != [] ==> u.decodable(split.name) && u.decodable(split.prefix)
    ensures u.decodable(split.name) && u.decodable(split.prefix) ==> u.decodable(Joined(split))
    ensures u.decodable([])
  {
    var joined := split.prefix + [SLASH] + split.name;
  }

  lemma RootDecodable(u: Unicode, path: Bytes)
    requires Lawful(u)
    ensures u.decodable(ARCHIVE_ROOT + path) <==> u.decodable(path)
  {
    var head := Ascii("dokion-package");
    assert ARCHIVE_ROOT + path == head + [SLASH] + path;
  }

  lemma DecodedIsDecodable(u: Unicode, content: Bytes)
    requires Lawful(u) && Decode(u, content).Ok?
    ensures u.decodable(Decode(u, content).value)
  {
    if StartsWith(content, BOM) {
      assert content == BOM + content[3..];
    }
  }

  lemma ReadPathIsDecodable(u: Unicode, header: Bytes)
    requires Lawful(u) && |header| == BLOCK_SIZE && ReadPath(u, header).Ok?
    ensures u.decodable(ReadPath(u, header).value)
  {
    hide Lawful;
    var split := Split(CanonicalText(u, header, 0, 100).value, CanonicalText(u, header, 345, 155).value);
    DecodedIsDecodable(u, RawText(header, 0, 100));
    DecodedIsDecodable(u, RawText(header, 345, 155));
    FieldsDecodable(u, split);
  }

  /** The prefix is a proper prefix of a rooted path, so it carries no mark. */
  lemma PrefixUnmarked(path: Bytes)
    requires SplitUstar(ARCHIVE_ROOT + path).Ok?
    ensures !StartsWith(SplitUstar(ARCHIVE_ROOT + path).value.prefix, BOM)
  {
    var a := ARCHIVE_ROOT + path;
    var split := SplitUstar(a).value;
    if split.prefix != [] {
      assert split.prefix[0] == a[0] == 0x64;
    }
  }

  // ---------- reading a printed header ----------

  lemma PrintedTexts(split: Split, size: nat)
    requires FitsHeader(split, size) && 0 !in split.name && 0 !in split.prefix
    ensures |HeaderBytes(split, size)| == BLOCK_SIZE
    ensures var h := HeaderBytes(split, size);
            RawText(h, 0, 100) == split.name && RawText(h, 345, 155) == split.prefix
            && AllZero(h[0..100][FirstIndex(h[0..100], 0)..])
            && AllZero(h[345..500][FirstIndex(h[345..500], 0)..])
  {
    var h := HeaderBytes(split, size);
    HeaderHasFields(split, size);
    hide HeaderBytes, AllZero, RawText, TextField;
    TextFieldPinned(h, 0, 100, split.name);
    TextFieldPinned(h, 345, 155, split.prefix);
  }

  /** What the reader takes for the path of a printed header: the path itself, unless
      the name carries a mark. */
  lemma ReadPrintedPath(u: Unicode, archivePath: Bytes, size: nat)
    requires Lawful(u) && u.decodable(archivePath) && 0 !in archivePath
    requires SplitUstar(archivePath).Ok? && FitsHeader(SplitUstar(archivePath).value, size)
    requires !StartsWith(SplitUstar(archivePath).value.prefix, BOM)
    ensures |HeaderBytes(SplitUstar(archivePath).value, size)| == BLOCK_SIZE
    ensures ReadPath(u, HeaderBytes(SplitUstar(archivePath).value, size)) == Ok(archivePath)
            <==> !StartsWith(SplitUstar(archivePath).value.name, BOM)
  {
    var split := SplitUstar(archivePath).value;
    var h := HeaderBytes(split, size);
    SplitTexts(archivePath);
    PrintedTexts(split, size);
    ReadTexts(u, h, split);
    hide HeaderBytes, RawText, AllZero, Lawful, CanonicalText, FitsHeader;
    FieldsDecodable(u, split);
  }

  lemma SplitTexts(archivePath: Bytes)
    requires SplitUstar(archivePath).Ok? && 0 !in archivePath
    ensures var split := SplitUstar(archivePath).value;
            Joined(split) == archivePath && 0 !in split.name && 0 !in split.prefix
  {
    var split := SplitUstar(archivePath).value;
    hide SplitUstar;
    if split.prefix != [] {
      assert forall i :: 0 <= i < |split.prefix| ==> split.prefix[i] == archivePath[i];
      assert forall i :: 0 <= i < |split.name| ==> split.name[i] == archivePath[|split.prefix| + 1 + i];
    }
  }

  lemma ReadTexts(u: Unicode, header: Bytes, split: Split)
    requires |header| == BLOCK_SIZE && u.decodable(split.name) && u.decodable(split.prefix)
    requires RawText(header, 0, 100) == split.name && RawText(header, 345, 155) == split.prefix
    requires AllZero(header[0..100][FirstIndex(header[0..100], 0)..])
    requires AllZero(header[345..500][FirstIndex(header[345..500], 0)..])
    requires !StartsWith(split.prefix, BOM) && SplitUstar(Joined(split)) == Ok(split)
    ensures ReadPath(u, header) == Ok(Joined(split)) <==> !StartsWith(split.name, BOM)
  {
    hide RawText, AllZero, SplitUstar;
    assert CanonicalText(u, header, 345, 155) == Ok(split.prefix);
    if StartsWith(split.name, BOM) {
      assert CanonicalText(u, header, 0, 100) == Ok(split.name[3..]);
      assert |Joined(Split(split.name[3..], split.prefix))| < |Joined(split)|;
    } else {
      assert CanonicalText(u, header, 0, 100) == Ok(split.name);
    }
  }

  // ---------- one entry ----------

  lemma AllowedSize(size: nat)
    requires size <= MAXIMUM_FILE_BYTES
    ensures size < Pow8(11)
  {
    Powers();
  }

  lemma CanonicalPrints(u: Unicode, e: Entry)
    requires Canonical(u, e.path) && |e.data| <= MAXIMUM_FILE_BYTES
    ensures SplitUstar(ARCHIVE_ROOT + e.path).Ok? && FitsHeader(SplitUstar(ARCHIVE_ROOT + e.path).value, |e.data|)
    ensures 0 !in ARCHIVE_ROOT + e.path
    ensures EntryBlocks(u, e) == Ok(HeaderBytes(SplitUstar(ARCHIVE_ROOT + e.path).value, |e.data|)
                                    + e.data + Zeros(BlockAligned(|e.data|) - |e.data|))
  {
    NormalizedIsNonEmpty(u, e.path);
    RootHasNoZero(e.path);
    hide NormalizePackagePath, HeaderBytes, OctalField, SplitUstar;
    AllowedSizeFits(|e.data|);
    assert ArchivePathForPackageFile(u, e.path) == Ok(ARCHIVE_ROOT + e.path);
    SplitLengths(ARCHIVE_ROOT + e.path);
  }

  lemma SplitLengths(path: Bytes)
    requires SplitUstar(path).Ok?
    ensures |SplitUstar(path).value.name| <= 100 && |SplitUstar(path).value.prefix| <= 155
  {
  }

  lemma RootHasNoZero(path: Bytes)
    requires 0 !in path
    ensures 0 !in ARCHIVE_ROOT + path
  {
    assert forall i :: 0 <= i < 15 ==> ARCHIVE_ROOT[i] != 0;
  }

  /** Whatever the reader accepts as an entry satisfies the writer's conditions. */
  lemma ReadIsAcceptable(u: Unicode, rest: Bytes, taken: seq<Bytes>, total: nat)
    requires Lawful(u) && |rest| >= BLOCK_SIZE && ReadEntry(u, rest, taken, total).Ok?
    ensures Acceptable(u, taken, total, ReadEntry(u, rest, taken, total).value)
  {
    hide Lawful, ReadPath, RegisterArchivePath, VerifyChecksum, ValidateHeader, Canonical, FreshPath;
    var archivePath := ReadPath(u, rest[..BLOCK_SIZE]).value;
    ReadPathIsDecodable(u, rest[..BLOCK_SIZE]);
    RegisteredIsRooted(u, taken, archivePath);
    RootDecodable(u, ReadEntry(u, rest, taken, total).value.path);
  }

  /** Without a mark, the path is the join of the raw fields. */
  lemma UnmarkedPath(u: Unicode, header: Bytes)
    requires |header| == BLOCK_SIZE && ReadPath(u, header).Ok? && !MarkedHeader(header)
    ensures var split := Split(RawText(header, 0, 100), RawText(header, 345, 155));
            SplitUstar(ReadPath(u, header).value) == Ok(split)
    ensures AllZero(header[0..100][FirstIndex(header[0..100], 0)..])
    ensures AllZero(header[345..500][FirstIndex(header[345..500], 0)..])
  {
    hide SplitUstar, AllZero, RawText;
  }

  /** Without a mark, the accepted header is the printed one. */
  lemma ReadHeaderIsPrinted(u: Unicode, header: Bytes)
    requires |header| == BLOCK_SIZE
    requires VerifyChecksum(header).Ok? && ValidateHeader(header).Ok? && ReadPath(u, header).Ok?
    requires !MarkedHeader(header)
    ensures Header(ReadPath(u, header).value, ValidateHeader(header).value) == Ok(header)
  {
    var split := Split(RawText(header, 0, 100), RawText(header, 345, 155));
    var size := ValidateHeader(header).value;
    UnmarkedPath(u, header);
    ReadSizeFits(header);
    hide VerifyChecksum, ValidateHeader, HeaderBytes, RawText, AllZero, TextField, OctalField, ReadPath, SplitUstar,
            MarkedHeader;
    TextFieldPinned(header, 0, 100, split.name);
    TextFieldPinned(header, 345, 155, split.prefix);
    HeaderPinned(header, split, size);
  }

  /** The checks of one round, put together. */
  ghost predicate Passes(u: Unicode, rest: Bytes, taken: seq<Bytes>, total: nat, e: Entry)
    requires |rest| >= BLOCK_SIZE
  {
    var header := rest[..BLOCK_SIZE];
    && VerifyChecksum(header).Ok? && ValidateHeader(header) == Ok(|e.data|)
    && ReadPath(u, header).Ok? && RegisterArchivePath(u, taken, ReadPath(u, header).value) == Ok(e.path)
    && CheckPlace(taken, e.path).Ok?
    && |e.data| <= MAXIMUM_FILE_BYTES && total + |e.data| <= MAXIMUM_TOTAL_PAYLOAD_BYTES
    && ReadData(rest, |e.data|) == Ok(e.data)
  }

  lemma ReadEntryPasses(u: Unicode, rest: Bytes, taken: seq<Bytes>, total: nat, e: Entry)
    requires |rest| >= BLOCK_SIZE
    ensures ReadEntry(u, rest, taken, total) == Ok(e) <==> Passes(u, rest, taken, total, e)
  {
    hide VerifyChecksum, ValidateHeader, ReadPath, RegisterArchivePath, CheckPlace;
  }

  lemma PassedData(u: Unicode, rest: Bytes, taken: seq<Bytes>, total: nat, e: Entry)
    requires |rest| >= BLOCK_SIZE && Passes(u, rest, taken, total, e)
    ensures BLOCK_SIZE + BlockAligned(|e.data|) <= |rest|
    ensures rest[..BLOCK_SIZE + BlockAligned(|e.data|)]
            == rest[..BLOCK_SIZE] + e.data + Zeros(BlockAligned(|e.data|) - |e.data|)
  {
    hide BlockAligned, VerifyChecksum, ValidateHeader, ReadPath, RegisterArchivePath, CheckPlace;
    var size, n := |e.data|, BlockAligned(|e.data|);
    AllZeroIsZeros(rest[BLOCK_SIZE + size..BLOCK_SIZE + n]);
    assert rest[..BLOCK_SIZE + n]
        == rest[..BLOCK_SIZE] + rest[BLOCK_SIZE..BLOCK_SIZE + size] + rest[BLOCK_SIZE + size..BLOCK_SIZE + n];
  }

  lemma BlocksOf(u: Unicode, e: Entry, header: Bytes)
    requires Canonical(u, e.path) && Header(ARCHIVE_ROOT + e.path, |e.data|) == Ok(header)
    ensures EntryBlocks(u, e) == Ok(header + e.data + Zeros(BlockAligned(|e.data|) - |e.data|))
  {
    hide NormalizePackagePath, Header, BlockAligned;
  }

  /** Without a mark, the accepted bytes are exactly what the writer prints. */
  lemma ReadIsPrinted(u: Unicode, rest: Bytes, taken: seq<Bytes>, total: nat, e: Entry)
    requires Lawful(u) && |rest| >= BLOCK_SIZE && ReadEntry(u, rest, taken, total) == Ok(e)
    requires !MarkedHeader(rest[..BLOCK_SIZE])
    ensures BLOCK_SIZE + BlockAligned(|e.data|) <= |rest|
    ensures EntryBlocks(u, e) == Ok(rest[..BLOCK_SIZE + BlockAligned(|e.data|)])
  {
    hide ReadEntry, Lawful, EntryBlocks, Canonical, BlockAligned, MarkedHeader, Zeros, Passes, Header;
    ReadEntryPasses(u, rest, taken, total, e);
    PassedHeader(u, rest, taken, total, e);
    PassedData(u, rest, taken, total, e);
    BlocksOf(u, e, rest[..BLOCK_SIZE]);
  }

  lemma PassedHeader(u: Unicode, rest: Bytes, taken: seq<Bytes>, total: nat, e: Entry)
    requires Lawful(u) && |rest| >= BLOCK_SIZE && Passes(u, rest, taken, total, e)
    requires !MarkedHeader(rest[..BLOCK_SIZE])
    ensures Canonical(u, e.path) && Header(ARCHIVE_ROOT + e.path, |e.data|) == Ok(rest[..BLOCK_SIZE])
  {
    hide Lawful, VerifyChecksum, ValidateHeader, ReadPath, RegisterArchivePath, MarkedHeader, ReadData, Header,
            Canonical, FreshPath;
    RegisteredIsRooted(u, taken, ReadPath(u, rest[..BLOCK_SIZE]).value);
    ReadHeaderIsPrinted(u, rest[..BLOCK_SIZE]);
  }

  /** Reading back a printed entry gives the entry exactly when its name is unmarked. */
  lemma PrintedReadsBack(u: Unicode, rest: Bytes, taken: seq<Bytes>, total: nat, e: Entry)
    requires Lawful(u) && Acceptable(u, taken, total, e)
    requires EntryBlocks(u, e).Ok? && EntryBlocks(u, e).value <= rest
    ensures |rest| >= BLOCK_SIZE + BlockAligned(|e.data|)
    ensures ReadEntry(u, rest, taken, total) == Ok(e) <==> !MarkedName(e)
    ensures MarkedHeader(rest[..BLOCK_SIZE]) <==> MarkedName(e)
  {
    var archivePath := ARCHIVE_ROOT + e.path;
    hide Lawful, NormalizePackagePath, FreshPath, CheckPlace, Canonical, EntryBlocks, ReadEntry, BlockAligned,
            HeaderBytes;
    PrintedParts(u, rest, e);
    var header := rest[..BLOCK_SIZE];
    var split := SplitUstar(archivePath).value;
    PrintedHeaderChecks(u, e.path, |e.data|);
    RootDecodable(u, e.path);
    CanonicalIsNonEmpty(u, e.path);
    RootHasNoZero(e.path);
    PrefixUnmarked(e.path);
    ReadPrintedPath(u, archivePath, |e.data|);
    RegisterRooted(u, taken, e.path);
    ReadEntryPasses(u, rest, taken, total, e);
    hide RegisterArchivePath, ReadPath, ReadData;
    if Passes(u, rest, taken, total, e) {
      RegisteredIsRooted(u, taken, ReadPath(u, header).value);
    }
  }

  lemma PrintedHeaderChecks(u: Unicode, path: Bytes, size: nat)
    requires size <= MAXIMUM_FILE_BYTES && Canonical(u, path)
    requires SplitUstar(ARCHIVE_ROOT + path).Ok? && FitsHeader(SplitUstar(ARCHIVE_ROOT + path).value, size)
    ensures var split := SplitUstar(ARCHIVE_ROOT + path).value;
            var h := HeaderBytes(split, size);
            && |h| == BLOCK_SIZE
            && VerifyChecksum(h).Ok? && ValidateHeader(h) == Ok(size)
            && RawText(h, 0, 100) == split.name && RawText(h, 345, 155) == split.prefix
  {
    var split := SplitUstar(ARCHIVE_ROOT + path).value;
    NormalizedIsNonEmpty(u, path);
    RootHasNoZero(path);
    SplitTexts(ARCHIVE_ROOT + path);
    AllowedSize(size);
    PrintedTexts(split, size);
    hide HeaderBytes, VerifyChecksum, ValidateHeader, RawText, TextField, OctalField, NormalizePackagePath, SplitUstar;
    HeaderPinned(HeaderBytes(split, size), split, size);
  }

  lemma PrintedParts(u: Unicode, rest: Bytes, e: Entry)
    requires Canonical(u, e.path) && |e.data| <= MAXIMUM_FILE_BYTES
    requires EntryBlocks(u, e).Ok? && EntryBlocks(u, e).value <= rest
    ensures |rest| >= BLOCK_SIZE + BlockAligned(|e.data|)
    ensures SplitUstar(ARCHIVE_ROOT + e.path).Ok? && FitsHeader(SplitUstar(ARCHIVE_ROOT + e.path).value, |e.data|)
    ensures rest[..BLOCK_SIZE] == HeaderBytes(SplitUstar(ARCHIVE_ROOT + e.path).value, |e.data|)
    ensures ReadData(rest, |e.data|) == Ok(e.data)
  {
    CanonicalPrints(u, e);
    var header := HeaderBytes(SplitUstar(ARCHIVE_ROOT + e.path).value, |e.data|);
    FieldLengths(SplitUstar(ARCHIVE_ROOT + e.path).value, |e.data|);
    hide HeaderBytes, EntryBlocks, Canonical, BlockAligned, SplitUstar;
    PaddedParts(rest, header, e.data);
  }

  lemma PaddedParts(rest: Bytes, header: Bytes, data: Bytes)
    requires |header| == BLOCK_SIZE && header + data + Zeros(BlockAligned(|data|) - |data|) <= rest
    ensures |rest| >= BLOCK_SIZE + BlockAligned(|data|)
    ensures rest[..BLOCK_SIZE] == header && ReadData(rest, |data|) == Ok(data)
  {
    var size, n := |data|, BlockAligned(|data|);
    hide BlockAligned;
    var blocks := header + data + Zeros(n - size);
    assert rest[..|blocks|] == blocks;
    assert rest[..BLOCK_SIZE] == blocks[..BLOCK_SIZE] == header;
    assert rest[BLOCK_SIZE..BLOCK_SIZE + size] == blocks[BLOCK_SIZE..BLOCK_SIZE + size] == data;
    assert rest[BLOCK_SIZE + size..BLOCK_SIZE + n] == blocks[BLOCK_SIZE + size..BLOCK_SIZE + n] == Zeros(n - size);
  }
}
