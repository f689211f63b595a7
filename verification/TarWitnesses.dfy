/** Archives on which the round trip and canonicity fail (`src/registry/package-tar.ts`):
    the name field after a cut may begin with anything. */
module TarWitnesses {
  import opened Wrappers
  import opened Bytes
  import opened PackagePaths
  import opened UstarHeader
  import opened HeaderReader
  import opened PackageTar
  import opened TarEntries
  import opened TarTheorems

  /** Every byte sequence is text, and already normalized. */
  ghost predicate TakesAnyText(u: Unicode) {
    Lawful(u) && forall s: Bytes :: u.nfc(s) == s && u.decodable(s)
  }

  lemma AnyTextIsPossible()
    ensures TakesAnyText(Unicode(s => true, s => s, s => s))
  {
  }

  function Directory(): (d: Bytes)
    ensures |d| == 90 && forall i :: 0 <= i < 90 ==> d[i] == 0x61
  {
    Repeat(0x61, 90)
  }

  /** A path whose root and directory take up more than the name field has room for. */
  function InDirectory(name: Bytes): Bytes {
    Directory() + [SLASH] + name
  }

  predicate SafeName(name: Bytes) {
    0 < |name| <= 10 && name[0] != 0x2e && forall b | b in name :: b !in [0, SLASH, 0x25, 0x5c]
  }

  lemma DirectorySplits(name: Bytes)
    requires SafeName(name)
    ensures SplitUstar(ARCHIVE_ROOT + InDirectory(name)) == Ok(Split(name, ARCHIVE_ROOT + Directory()))
  {
    var path := ARCHIVE_ROOT + InDirectory(name);
    var good := Split(name, ARCHIVE_ROOT + Directory());
    assert path == ARCHIVE_ROOT + Directory() + [SLASH] + name;
    assert path[105] == SLASH;
    assert forall j :: 105 < j < |path| ==> path[j] in name;
    assert LegalCut(path, 105);
    var split := SplitUstar(path).value;
    hide SplitUstar;
    assert Joined(split) == path;
    assert |split.prefix| >= 105;
    assert path[|split.prefix|] == SLASH;
    assert |split.prefix| == 105;
    assert split.prefix == path[..105] == good.prefix && split.name == path[106..] == good.name;
  }

  lemma DirectoryIsCanonical(u: Unicode, name: Bytes)
    requires TakesAnyText(u) && SafeName(name)
    ensures Canonical(u, InDirectory(name))
  {
    var path := InDirectory(name);
    assert forall i :: 0 <= i < |path| ==> path[i] == 0x61 || path[i] == SLASH || path[i] in name;
    assert forall b | b in path :: b !in [0, 0x25, 0x5c];
    hide Segments, Lawful;
    DirectorySegments(name);
    CanonicalPathsSplitBelow143(u, path);
  }

  lemma DirectorySegments(name: Bytes)
    requires SafeName(name)
    ensures Segments(InDirectory(name)) == [Directory(), name]
  {
    assert SLASH !in Directory();
    SegmentsOfJoin(Directory(), name);
    assert forall i :: 0 <= i < |name| ==> name[i] in name;
    FirstIndexIs(name, SLASH, |name|);
  }

  lemma OneEntryWrites(u: Unicode, name: Bytes, data: Bytes)
    requires TakesAnyText(u) && SafeName(name) && |data| <= MAXIMUM_FILE_BYTES
    ensures var e := Entry(InDirectory(name), data);
            && Acceptables(u, [], 0, [e]) && Acceptable(u, [], 0, e)
            && WriteArchive(u, [e]).Ok? && Stored(u, [e]) == [e]
            && NameField(e) == name
  {
    var e := Entry(InDirectory(name), data);
    DirectoryIsCanonical(u, name);
    DirectorySplits(name);
    hide Canonical, SplitUstar, WriteArchive, SortByPath, Lawful, InDirectory;
    assert Acceptables(u, [e.path], |data|, []);
    assert Acceptable(u, [], 0, e) && [e][1..] == [] && [] + [e.path] == [e.path];
    AcceptablesWrite(u, [e]);
  }

  /** What is known of the archive of one such file. */
  lemma OneEntryArchive(u: Unicode, name: Bytes, data: Bytes) returns (archive: Bytes)
    requires TakesAnyText(u) && SafeName(name) && |data| <= MAXIMUM_FILE_BYTES
    ensures var e := Entry(InDirectory(name), data);
            && WriteArchive(u, [e]) == Ok(archive) && EncodesTo(u, [e], archive)
            && TERMINAL_SIZE <= |archive| <= MAXIMUM_ARCHIVE_BYTES && |archive| % BLOCK_SIZE == 0
            && archive[..100] == TextField(name, 100)
            && (LooksCompressed(archive) <==> LooksCompressed(TextField(name, 100)))
  {
    hide WriteArchive, InDirectory, Acceptables, EncodesTo, NameField, Lawful, SafeName, LooksCompressed, Stored;
    var e := Entry(InDirectory(name), data);
    OneEntryWrites(u, name, data);
    assert u.decodable(e.path);
    archive := WriteArchive(u, [e]).value;
    WriterStores(u, [e]);
    FirstField(u, [e], archive);
  }

  function Signature(): Bytes {
    [0x42, 0x5a, 0x68]
  }

  lemma SignatureIsSeen()
    ensures SafeName(Signature()) && LooksCompressed(TextField(Signature(), 100))
  {
    assert StartsWith(TextField(Signature(), 100), Signature());
    assert SIGNATURES[2] == Signature();
  }

  /** A file named `BZh` in such a directory is written and then taken for bzip2. */
  lemma CompressionSignatureBreaksRoundTrip(u: Unicode, data: Bytes)
    requires TakesAnyText(u) && |data| <= MAXIMUM_FILE_BYTES
    ensures var entries := [Entry(InDirectory([0x42, 0x5a, 0x68]), data)];
            && WriteArchive(u, entries).Ok?
            && ReadArchive(u, WriteArchive(u, entries).value) == Err(CompressionUnsupported)
  {
    SignatureIsSeen();
    hide WriteArchive, InDirectory, EncodesTo, TakesAnyText, ReadFrom, SafeName, LooksCompressed, TextField;
    var archive := OneEntryArchive(u, Signature(), data);
  }

  /** A byte order mark and a letter. */
  function MarkedLetter(): Bytes {
    BOM + [0x61]
  }

  function MarkedEntry(data: Bytes): Entry {
    Entry(InDirectory(MarkedLetter()), data)
  }

  function CleanEntry(data: Bytes): Entry {
    Entry(InDirectory([0x61]), data)
  }

  lemma NamesAreSafe()
    ensures SafeName(MarkedLetter()) && SafeName([0x61])
    ensures !LooksCompressed(TextField(MarkedLetter(), 100))
    ensures TextField(MarkedLetter(), 100)[0] == 0xef && TextField([0x61], 100)[0] == 0x61
    ensures MarkedLetter() != [0x61] && InDirectory(MarkedLetter()) != InDirectory([0x61])
  {
    assert |InDirectory(MarkedLetter())| != |InDirectory([0x61])|;
    forall signature | signature in SIGNATURES
      ensures !StartsWith(TextField(MarkedLetter(), 100), signature)
    {
      assert signature[0] != 0xef;
    }
  }

  /** A file whose name begins with a byte order mark is written and reads back under
      another name; so its archive is accepted without being what the writer prints for
      the entries read. */
  lemma MarkedNameBreaksRoundTrip(u: Unicode, data: Bytes)
    requires TakesAnyText(u) && |data| <= MAXIMUM_FILE_BYTES
    ensures var (entries, read) := ([MarkedEntry(data)], [CleanEntry(data)]);
            && WriteArchive(u, entries).Ok? && WriteArchive(u, read).Ok?
            && ReadArchive(u, WriteArchive(u, entries).value) == Ok(read) != Ok(entries)
            && !(WriteArchive(u, read).value <= WriteArchive(u, entries).value)
  {
    NamesAreSafe();
    hide WriteArchive, ReadArchive, InDirectory, EncodesTo, TakesAnyText, SafeName, LooksCompressed, TextField, MarkedName;
    var archive := OneEntryArchive(u, MarkedLetter(), data);
    var other := OneEntryArchive(u, [0x61], data);
    assert MarkedEntry(data) != CleanEntry(data);
    MarkedReads(u, archive, data);
    assert archive[0] == archive[..100][0] && other[0] == other[..100][0];
  }

  lemma MarkedReads(u: Unicode, archive: Bytes, data: Bytes)
    requires TakesAnyText(u) && |data| <= MAXIMUM_FILE_BYTES
    requires EncodesTo(u, [MarkedEntry(data)], archive) && !LooksCompressed(archive)
    requires TERMINAL_SIZE <= |archive| <= MAXIMUM_ARCHIVE_BYTES && |archive| % BLOCK_SIZE == 0
    ensures ReadArchive(u, archive) == Ok([CleanEntry(data)])
  {
    hide EncodesTo, ReadEntry, AllZero, TakesAnyText, LooksCompressed, BlockAligned, ReadFrom, Encode, ReadArchive, InDirectory;
    MarkedStart(u, archive, data);
    EncodedEnd(u, archive[BLOCK_SIZE + BlockAligned(|data|)..], [CleanEntry(data).path], |data|);
    ReadsOne(u, archive, CleanEntry(data));
    ReadsAll(u, archive);
  }

  lemma MarkedStart(u: Unicode, archive: Bytes, data: Bytes)
    requires TakesAnyText(u) && |data| <= MAXIMUM_FILE_BYTES && EncodesTo(u, [MarkedEntry(data)], archive)
    ensures BLOCK_SIZE + BlockAligned(|data|) <= |archive| && !AllZero(archive[..BLOCK_SIZE])
    ensures ReadEntry(u, archive, [], 0) == Ok(CleanEntry(data))
    ensures EncodesTo(u, [], archive[BLOCK_SIZE + BlockAligned(|data|)..])
  {
    hide EncodesTo, EntryBlocks, ReadEntry, AllZero, TakesAnyText, MarkedEntry, CleanEntry, BlockAligned, Encode;
    var e := MarkedEntry(data);
    EncodeStartsWithBlocks(u, [e], archive);
    var blocks := EntryBlocks(u, e).value;
    HeaderIsNotZero(u, e, archive);
    MarkedEntryReads(u, archive, data);
    assert archive[..|blocks|] == blocks && [e][1..] == [];
    EncodesToCons(u, [e], archive, |blocks|);
  }

  lemma ReadsAll(u: Unicode, archive: Bytes)
    requires TERMINAL_SIZE <= |archive| <= MAXIMUM_ARCHIVE_BYTES && |archive| % BLOCK_SIZE == 0 && !LooksCompressed(archive)
    ensures ReadArchive(u, archive) == ReadFrom(u, archive, [], 0)
  {
    hide ReadFrom, LooksCompressed;
  }

  lemma ReadsOne(u: Unicode, rest: Bytes, e: Entry)
    requires |rest| >= BLOCK_SIZE && !AllZero(rest[..BLOCK_SIZE]) && ReadEntry(u, rest, [], 0) == Ok(e)
    requires BLOCK_SIZE + BlockAligned(|e.data|) <= |rest|
    requires ReadFrom(u, rest[BLOCK_SIZE + BlockAligned(|e.data|)..], [e.path], |e.data|) == Ok([])
    ensures ReadFrom(u, rest, [], 0) == Ok([e])
  {
    hide ReadEntry, BlockAligned, AllZero;
    assert [] + [e.path] == [e.path] && [e] + [] == [e];
  }

  lemma MarkedEntryReads(u: Unicode, rest: Bytes, data: Bytes)
    requires TakesAnyText(u) && |data| <= MAXIMUM_FILE_BYTES
    requires EntryBlocks(u, MarkedEntry(data)).Ok? && EntryBlocks(u, MarkedEntry(data)).value <= rest
    ensures |rest| >= BLOCK_SIZE && ReadEntry(u, rest, [], 0) == Ok(CleanEntry(data))
    ensures |EntryBlocks(u, MarkedEntry(data)).value| == BLOCK_SIZE + BlockAligned(|data|)
    ensures BLOCK_SIZE + BlockAligned(|data|) <= |rest|
  {
    var e, clean := MarkedEntry(data), CleanEntry(data);
    MarkedIsAcceptable(u, data);
    hide HeaderBytes, EntryBlocks, SplitUstar, Canonical, ReadEntry, TakesAnyText, ReadPath, RegisterArchivePath, CheckPlace,
            VerifyChecksum, ValidateHeader, ReadData, RawText, BlockAligned, FreshPath, MarkedEntry, CleanEntry, FitsHeader;
    PrintedParts(u, rest, e);
    BlocksLength(u, e);
    PrintedHeaderChecks(u, e.path, |data|);
    MarkedPathReads(u, rest[..BLOCK_SIZE], |data|);
    RegisterRooted(u, [], clean.path);
    ReadEntryPasses(u, rest, [], 0, clean);
  }

  lemma MarkedIsAcceptable(u: Unicode, data: Bytes)
    requires TakesAnyText(u) && |data| <= MAXIMUM_FILE_BYTES
    ensures MarkedEntry(data).data == data && CleanEntry(data).data == data
    ensures Acceptable(u, [], 0, MarkedEntry(data)) && Acceptable(u, [], 0, CleanEntry(data))
    ensures SplitUstar(ARCHIVE_ROOT + MarkedEntry(data).path) == Ok(Split(MarkedLetter(), ARCHIVE_ROOT + Directory()))
  {
    NamesAreSafe();
    hide InDirectory, SplitUstar, Canonical, TakesAnyText, SafeName, MarkedName, Directory;
    DirectorySplits(MarkedLetter());
    OneEntryWrites(u, MarkedLetter(), data);
    OneEntryWrites(u, [0x61], data);
  }

  lemma MarkedPathReads(u: Unicode, header: Bytes, size: nat)
    requires TakesAnyText(u) && FitsHeader(Split(MarkedLetter(), ARCHIVE_ROOT + Directory()), size)
    requires header == HeaderBytes(Split(MarkedLetter(), ARCHIVE_ROOT + Directory()), size)
    ensures |header| == BLOCK_SIZE && ReadPath(u, header) == Ok(ARCHIVE_ROOT + CleanEntry([]).path)
  {
    var split := Split(MarkedLetter(), ARCHIVE_ROOT + Directory());
    RootHasNoZero(Directory());
    NamesAreSafe();
    PrintedTexts(split, size);
    DirectorySplits([0x61]);
    var clean := Split([0x61], split.prefix);
    assert Joined(clean) == ARCHIVE_ROOT + InDirectory([0x61]);
    assert MarkedLetter()[3..] == [0x61] && StartsWith(MarkedLetter(), BOM);
    assert split.prefix[0] == 0x64;
    assert !StartsWith(split.prefix, BOM);
    hide HeaderBytes, RawText, AllZero, SplitUstar, Lawful, InDirectory, MarkedName, Directory, FitsHeader, StartsWith;
    assert CanonicalText(u, header, 0, 100) == Ok([0x61]);
    assert CanonicalText(u, header, 345, 155) == Ok(split.prefix);
  }
}
