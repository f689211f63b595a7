/** The deterministic package archive (`src/registry/package-tar.ts`): the writer
    and the reader as the loops the program runs, each proved equal to a function. */
module PackageTar {
  import opened Wrappers
  import opened Bytes
  import opened PackagePaths
  import opened UstarHeader
  import opened HeaderReader

  const TERMINAL_SIZE := 1024

  datatype Entry = Entry(path: Bytes, data: Bytes)

  /** `Math.ceil(size / BLOCK_SIZE) * BLOCK_SIZE`. */
  function BlockAligned(size: nat): (n: nat)
    ensures size <= n < size + BLOCK_SIZE && n % BLOCK_SIZE == 0
  {
    (size + BLOCK_SIZE - 1) / BLOCK_SIZE * BLOCK_SIZE
  }

  // ---------- writer ----------

  /** Registers the paths in the caller's order. */
  function RegisterAll(u: Unicode, taken: seq<Bytes>, entries: seq<Entry>): Result<seq<Entry>, Error>
    decreases |entries|
  {
    if entries == [] then Ok([])
    else
      var path :- Register(u, taken, entries[0].path);
      var rest :- RegisterAll(u, taken + [path], entries[1..]);
      Ok([Entry(path, entries[0].data)] + rest)
  }

  function Insert(e: Entry, entries: seq<Entry>): seq<Entry>
    decreases |entries|
  {
    if entries == [] || Compare(e.path, entries[0].path) <= 0 then [e] + entries
    else [entries[0]] + Insert(e, entries[1..])
  }

  /** The runtime's stable sort by `compareUtf8Bytes` on the path. */
  function SortByPath(entries: seq<Entry>): seq<Entry> {
    if entries == [] then [] else Insert(entries[0], SortByPath(entries[1..]))
  }

  function CheckSizes(entries: seq<Entry>, payload: nat): Result<(), Error> {
    if entries == [] then Ok(())
    else if |entries[0].data| > MAXIMUM_FILE_BYTES then Err(FileTooLarge)
    else if payload + |entries[0].data| > MAXIMUM_TOTAL_PAYLOAD_BYTES then Err(TooLarge)
    else CheckSizes(entries[1..], payload + |entries[0].data|)
  }

  function ArchiveSize(entries: seq<Entry>): nat {
    if entries == [] then TERMINAL_SIZE
    else BLOCK_SIZE + BlockAligned(|entries[0].data|) + ArchiveSize(entries[1..])
  }

  /** One entry: its header, its data, zeros up to the next block. */
  function EntryBlocks(u: Unicode, e: Entry): Result<Bytes, Error> {
    var archivePath :- ArchivePathForPackageFile(u, e.path);
    var header :- Header(archivePath, |e.data|);
    Ok(header + e.data + Zeros(BlockAligned(|e.data|) - |e.data|))
  }

  function Encode(u: Unicode, entries: seq<Entry>): Result<Bytes, Error> {
    if entries == [] then Ok([])
    else
      var blocks :- EntryBlocks(u, entries[0]);
      var rest :- Encode(u, entries[1..]);
      Ok(blocks + rest)
  }

  /** `createDeterministicPackageTar`. */
  function WriteArchive(u: Unicode, entries: seq<Entry>): Result<Bytes, Error> {
    if entries == [] || |entries| > MAXIMUM_FILES then Err(TooManyFiles)
    else
      var named :- RegisterAll(u, [], entries);
      var sorted := SortByPath(named);
      var _ :- CheckSizes(sorted, 0);
      var blocks :- Encode(u, sorted);
      Ok(blocks + Zeros(TERMINAL_SIZE))
  }

  function Total(entries: seq<Entry>): nat {
    if entries == [] then 0 else |entries[0].data| + Total(entries[1..])
  }

  lemma {:induction false} ArchiveSizeBound(entries: seq<Entry>, payload: nat)
    requires CheckSizes(entries, payload).Ok? && payload <= MAXIMUM_TOTAL_PAYLOAD_BYTES
    ensures payload + Total(entries) <= MAXIMUM_TOTAL_PAYLOAD_BYTES
    ensures ArchiveSize(entries) <= TERMINAL_SIZE + (2 * BLOCK_SIZE - 1) * |entries| + Total(entries)
  {
    if entries != [] {
      ArchiveSizeBound(entries[1..], payload + |entries[0].data|);
    }
  }

  /** The count, file and payload bounds already imply the archive bound: the
      writer's last size check cannot fail. */
  lemma ArchiveNeverTooLarge(entries: seq<Entry>)
    requires |entries| <= MAXIMUM_FILES && CheckSizes(entries, 0).Ok?
    ensures ArchiveSize(entries) <= MAXIMUM_ARCHIVE_BYTES
  {
    ArchiveSizeBound(entries, 0);
  }

  lemma {:induction false} EncodeLength(u: Unicode, entries: seq<Entry>)
    requires Encode(u, entries).Ok?
    ensures |Encode(u, entries).value| + TERMINAL_SIZE == ArchiveSize(entries)
  {
    if entries != [] {
      EntryBlocksLength(u, entries[0]);
      EncodeLength(u, entries[1..]);
    }
  }

  lemma EntryBlocksLength(u: Unicode, e: Entry)
    requires EntryBlocks(u, e).Ok?
    ensures |EntryBlocks(u, e).value| == BLOCK_SIZE + BlockAligned(|e.data|)
    ensures Header(ArchivePathForPackageFile(u, e.path).value, |e.data|).Ok?
    ensures EntryBlocks(u, e).value[..BLOCK_SIZE] == Header(ArchivePathForPackageFile(u, e.path).value, |e.data|).value
  {
    var archivePath := ArchivePathForPackageFile(u, e.path).value;
    FieldLengths(SplitUstar(archivePath).value, |e.data|);
  }

  /** The registration loop of the writer. */
  method RegisterEntries(u: Unicode, entries: seq<Entry>) returns (r: Result<seq<Entry>, Error>)
    ensures r == RegisterAll(u, [], entries)
  {
    var registry := new PackagePathRegistry();
    var named := [];
    hide Register;
    assert entries[0..] == entries;
    PrefixedByNothing(RegisterAll(u, [], entries));
    for i := 0 to |entries|
      invariant registry.Valid(u) && fresh(registry)
      invariant RegisterAll(u, [], entries) == Prefixed(named, RegisterAll(u, registry.paths, entries[i..]))
    {
      ghost var tail := RegisterAll(u, registry.paths, entries[i..]);
      assert entries[i..][0] == entries[i] && entries[i..][1..] == entries[i + 1..];
      var path :- registry.Add(u, entries[i].path);
      PrefixedTwice(named, [Entry(path, entries[i].data)], RegisterAll(u, registry.paths, entries[i + 1..]));
      named := named + [Entry(path, entries[i].data)];
    }
    assert named + [] == named;
    return Ok(named);
  }

  method MeasureEntries(entries: seq<Entry>) returns (r: Result<nat, Error>)
    ensures r == if CheckSizes(entries, 0).Ok? then Ok(ArchiveSize(entries)) else Err(CheckSizes(entries, 0).error)
  {
    var payloadSize: nat := 0;
    var archiveSize: nat := TERMINAL_SIZE;
    assert entries[0..] == entries;
    for i := 0 to |entries|
      invariant CheckSizes(entries, 0) == CheckSizes(entries[i..], payloadSize)
      invariant ArchiveSize(entries) + TERMINAL_SIZE == archiveSize + ArchiveSize(entries[i..])
    {
      assert entries[i..][1..] == entries[i + 1..];
      if |entries[i].data| > MAXIMUM_FILE_BYTES { return Err(FileTooLarge); }
      payloadSize := payloadSize + |entries[i].data|;
      if payloadSize > MAXIMUM_TOTAL_PAYLOAD_BYTES { return Err(TooLarge); }
      archiveSize := archiveSize + BLOCK_SIZE + BlockAligned(|entries[i].data|);
    }
    return Ok(archiveSize);
  }

  /** Sets a header and its data at the offset; what follows stays zero. */
  method PutEntry(archive: array<byte>, offset: nat, header: Bytes, data: Bytes)
    requires |header| == BLOCK_SIZE
    requires offset + BLOCK_SIZE + BlockAligned(|data|) <= archive.Length
    requires AllZero(archive[offset..])
    modifies archive
    ensures archive[..offset + BLOCK_SIZE + BlockAligned(|data|)]
            == old(archive[..offset]) + (header + data + Zeros(BlockAligned(|data|) - |data|))
    ensures AllZero(archive[offset + BLOCK_SIZE + BlockAligned(|data|)..])
  {
    var n := BlockAligned(|data|);
    hide BlockAligned;
    ghost var end := offset + BLOCK_SIZE + |data|;
    forall k | end <= k < archive.Length
      ensures archive[k] == 0
    {
      assert archive[k] == archive[offset..][k - offset];
    }
    SetBytes(archive, offset, header);
    SetBytes(archive, offset + BLOCK_SIZE, data);
    assert archive[..offset] == old(archive[..offset]);
    assert archive[offset..offset + BLOCK_SIZE] == header;
    assert archive[end..offset + BLOCK_SIZE + n] == Zeros(n - |data|);
  }

  /** One round of the printing loop: `done` is what the archive holds so far. */
  method PutRound(u: Unicode, entries: seq<Entry>, archive: array<byte>, offset: nat, ghost done: Bytes)
    returns (r: Result<nat, Error>, ghost after: Bytes)
    requires entries != [] && offset + ArchiveSize(entries) == archive.Length
    requires archive[..offset] == done && AllZero(archive[offset..])
    modifies archive
    ensures r.Err? ==> Appended(done, Encode(u, entries)) == Err(r.error)
    ensures r.Ok? ==> r.value + ArchiveSize(entries[1..]) == archive.Length
    ensures r.Ok? ==> archive[..r.value] == after && AllZero(archive[r.value..])
    ensures r.Ok? ==> Appended(done, Encode(u, entries)) == Appended(after, Encode(u, entries[1..]))
  {
    hide ArchivePathForPackageFile, Header, BlockAligned, AllZero, Encode, EntryBlocks, ArchiveSize, Appended,
            OctalField, Zeros;
    var e := entries[0];
    after := done;
    ArchiveSizeRound(entries);
    EncodeRound(u, entries, done);
    var archivePath :- ArchivePathForPackageFile(u, e.path);
    var header :- HeaderFor(archivePath, |e.data|);
    PutEntry(archive, offset, header, e.data);
    after := done + (header + e.data + Zeros(BlockAligned(|e.data|) - |e.data|));
    r := Ok(offset + BLOCK_SIZE + BlockAligned(|e.data|));
  }

  /** Prints the entries into a zeroed archive, one header and one data area each. */
  method FillArchive(u: Unicode, entries: seq<Entry>, archive: array<byte>) returns (r: Result<(), Error>)
    requires archive.Length == ArchiveSize(entries) && AllZero(archive[..])
    modifies archive
    ensures r.Ok? == Encode(u, entries).Ok?
    ensures r.Err? ==> r.error == Encode(u, entries).error
    ensures r.Ok? ==> archive[..] == Encode(u, entries).value + Zeros(TERMINAL_SIZE)
  {
    var offset: nat := 0;
    ghost var done: Bytes := [];
    assert entries[0..] == entries;
    AppendedNothing(Encode(u, entries));
    hide AllZero, Encode, ArchiveSize, Appended, Zeros;
    for i := 0 to |entries|
      invariant offset <= archive.Length && offset + ArchiveSize(entries[i..]) == archive.Length
      invariant AllZero(archive[offset..]) && done == archive[..offset]
      invariant Encode(u, entries) == Appended(done, Encode(u, entries[i..]))
    {
      assert entries[i..][1..] == entries[i + 1..];
      var next;
      next, done := PutRound(u, entries[i..], archive, offset, done);
      if next.Err? { return Err(next.error); }
      offset := next.value;
    }
    EncodeEnd(u, done);
    FinishArchive(archive[..], offset);
    return Ok(());
  }

  lemma EncodeEnd(u: Unicode, done: Bytes)
    ensures Appended(done, Encode(u, [])) == Ok(done) && ArchiveSize([]) == TERMINAL_SIZE
  {
    assert done + [] == done;
  }

  lemma ArchiveSizeRound(entries: seq<Entry>)
    requires entries != []
    ensures ArchiveSize(entries) == BLOCK_SIZE + BlockAligned(|entries[0].data|) + ArchiveSize(entries[1..])
  {
  }

  /** How one round of the printing loop relates to the encoding. */
  lemma EncodeRound(u: Unicode, entries: seq<Entry>, done: Bytes)
    requires entries != []
    ensures var e := entries[0];
            match ArchivePathForPackageFile(u, e.path)
            case Err(error) => Appended(done, Encode(u, entries)) == Err(error)
            case Ok(archivePath) =>
              match Header(archivePath, |e.data|)
              case Err(error) => Appended(done, Encode(u, entries)) == Err(error)
              case Ok(header) =>
                && |header| == BLOCK_SIZE
                && Appended(done, Encode(u, entries))
                   == Appended(done + (header + e.data + Zeros(BlockAligned(|e.data|) - |e.data|)), Encode(u, entries[1..]))
  {
    if EntryBlocks(u, entries[0]).Ok? {
      EntryBlocksLength(u, entries[0]);
      AppendedAssociative(done, EntryBlocks(u, entries[0]).value, Encode(u, entries[1..]));
    }
  }

  lemma FinishArchive(archive: Bytes, offset: nat)
    requires offset + TERMINAL_SIZE == |archive| && AllZero(archive[offset..])
    ensures archive == archive[..offset] + Zeros(TERMINAL_SIZE)
  {
    AllZeroIsZeros(archive[offset..]);
  }

  function Appended(done: Bytes, rest: Result<Bytes, Error>): Result<Bytes, Error> {
    var blocks :- rest;
    Ok(done + blocks)
  }

  lemma AppendedNothing(rest: Result<Bytes, Error>)
    ensures Appended([], rest) == rest
  {
    if rest.Ok? {
      assert [] + rest.value == rest.value;
    }
  }

  lemma AppendedAssociative(a: Bytes, b: Bytes, rest: Result<Bytes, Error>)
    ensures Appended(a, Appended(b, rest)) == Appended(a + b, rest)
  {
    if rest.Ok? {
      assert a + (b + rest.value) == a + b + rest.value;
    }
  }

  method CreateDeterministicPackageTar(u: Unicode, entries: seq<Entry>) returns (r: Result<Bytes, Error>)
    ensures r == WriteArchive(u, entries)
  {
    if |entries| == 0 || |entries| > MAXIMUM_FILES { return Err(TooManyFiles); }
    var named :- RegisterEntries(u, entries);
    var sorted := SortByPath(named);
    var archiveSize :- MeasureEntries(sorted);
    RegisterAllLength(u, [], entries);
    SortLength(named);
    ArchiveNeverTooLarge(sorted);
    assert archiveSize <= MAXIMUM_ARCHIVE_BYTES;
    var archive := new byte[archiveSize](_ => 0);
    var _ :- FillArchive(u, sorted, archive);
    return Ok(archive[..]);
  }

  lemma {:induction false} RegisterAllLength(u: Unicode, taken: seq<Bytes>, entries: seq<Entry>)
    requires RegisterAll(u, taken, entries).Ok?
    ensures |RegisterAll(u, taken, entries).value| == |entries|
    decreases |entries|
  {
    hide Register;
    if entries != [] {
      RegisterAllLength(u, taken + [Register(u, taken, entries[0].path).value], entries[1..]);
    }
  }

  lemma InsertLength(e: Entry, entries: seq<Entry>)
    ensures |Insert(e, entries)| == |entries| + 1
  {
  }

  lemma {:induction false} SortLength(entries: seq<Entry>)
    ensures |SortByPath(entries)| == |entries|
  {
    if entries != [] {
      SortLength(entries[1..]);
      InsertLength(entries[0], SortByPath(entries[1..]));
    }
  }

  // ---------- reader ----------

  const SIGNATURES: seq<Bytes> := [
    [0x1f, 0x8b],
    [0x50, 0x4b, 0x03, 0x04],
    [0x42, 0x5a, 0x68],
    [0xfd, 0x37, 0x7a, 0x58, 0x5a, 0x00],
    [0x28, 0xb5, 0x2f, 0xfd]]

  /** `rejectCompression`. */
  predicate LooksCompressed(bytes: Bytes) {
    exists signature | signature in SIGNATURES :: StartsWith(bytes, signature)
  }

  /** One round of the reader's loop at a non-zero header. `taken` holds the paths
      accepted so far and `total` their payload. */
  function ReadEntry(u: Unicode, rest: Bytes, taken: seq<Bytes>, total: nat): (r: Result<Entry, Error>)
    requires |rest| >= BLOCK_SIZE
    ensures r.Ok? ==> BLOCK_SIZE + BlockAligned(|r.value.data|) <= |rest|
  {
    var header := rest[..BLOCK_SIZE];
    var _ :- VerifyChecksum(header);
    var size :- ValidateHeader(header);
    var archivePath :- ReadPath(u, header);
    var path :- RegisterArchivePath(u, taken, archivePath);
    var _ :- CheckPlace(taken, path);
    if size > MAXIMUM_FILE_BYTES then Err(FileTooLarge)
    else if total + size > MAXIMUM_TOTAL_PAYLOAD_BYTES then Err(TooLarge)
    else
      var data :- ReadData(rest, size);
      Ok(Entry(path, data))
  }

  /** The two text fields, which must be the canonical split of their join. */
  function ReadPath(u: Unicode, header: Bytes): Result<Bytes, Error>
    requires |header| == BLOCK_SIZE
  {
    var name :- CanonicalText(u, header, 0, 100);
    var prefix :- CanonicalText(u, header, 345, 155);
    var archivePath := Joined(Split(name, prefix));
    var expected :- SplitUstar(archivePath);
    if expected != Split(name, prefix) then Err(ArchiveInvalid) else Ok(archivePath)
  }

  function RegisterArchivePath(u: Unicode, taken: seq<Bytes>, archivePath: Bytes): Result<Bytes, Error> {
    var inner :- PackagePathFromArchiveEntry(u, archivePath);
    var path :- Register(u, taken, inner);
    var again :- ArchivePathForPackageFile(u, path);
    if again != archivePath then Err(ArchiveInvalid) else Ok(path)
  }

  /** Order against the previous path, and the file count with this one. */
  function CheckPlace(taken: seq<Bytes>, path: Bytes): Result<(), Error> {
    if taken != [] && Compare(taken[|taken| - 1], path) > 0 then Err(ArchiveInvalid)
    else if |taken| + 1 > MAXIMUM_FILES then Err(TooManyFiles)
    else Ok(())
  }

  function ReadData(rest: Bytes, size: nat): (r: Result<Bytes, Error>)
    requires |rest| >= BLOCK_SIZE
    ensures r.Ok? ==> |r.value| == size && BLOCK_SIZE + BlockAligned(size) <= |rest|
  {
    var payloadEnd := BLOCK_SIZE + size;
    var next := BLOCK_SIZE + BlockAligned(size);
    if next > |rest| then Err(ArchiveInvalid)
    else if !AllZero(rest[payloadEnd..next]) then Err(ArchiveInvalid)
    else Ok(rest[BLOCK_SIZE..payloadEnd])
  }

  /** At a zero block: a second one, and nothing but zeros after it. */
  function CheckTerminator(rest: Bytes, any: bool): Result<(), Error>
    requires |rest| >= BLOCK_SIZE
  {
    if |rest| < TERMINAL_SIZE || !AllZero(rest[BLOCK_SIZE..TERMINAL_SIZE]) then Err(ArchiveInvalid)
    else if !AllZero(rest[TERMINAL_SIZE..]) then Err(ArchiveInvalid)
    else if !any then Err(ArchiveInvalid)
    else Ok(())
  }

  function ReadFrom(u: Unicode, rest: Bytes, taken: seq<Bytes>, total: nat): Result<seq<Entry>, Error>
    decreases |rest|
  {
    if |rest| < BLOCK_SIZE then Err(ArchiveInvalid)
    else if AllZero(rest[..BLOCK_SIZE]) then
      var _ :- CheckTerminator(rest, taken != []);
      Ok([])
    else
      var e :- ReadEntry(u, rest, taken, total);
      var next := BLOCK_SIZE + BlockAligned(|e.data|);
      var entries :- ReadFrom(u, rest[next..], taken + [e.path], total + |e.data|);
      Ok([e] + entries)
  }

  /** `readRegistryPackageTar`. */
  function ReadArchive(u: Unicode, bytes: Bytes): Result<seq<Entry>, Error> {
    if LooksCompressed(bytes) then Err(CompressionUnsupported)
    else if |bytes| > MAXIMUM_ARCHIVE_BYTES then Err(TooLarge)
    else if |bytes| < TERMINAL_SIZE || |bytes| % BLOCK_SIZE != 0 then Err(ArchiveInvalid)
    else ReadFrom(u, bytes, [], 0)
  }

  /** The loop body: checks one header and registers its path. */
  method ReadEntryAt(u: Unicode, bytes: Bytes, offset: nat, registry: PackagePathRegistry,
          previousPath: Option<Bytes>, totalPayload: nat)
    returns (r: Result<Entry, Error>)
    requires offset + BLOCK_SIZE <= |bytes|
    requires registry.Valid(u)
    requires previousPath == LastOf(registry.paths)
    modifies registry
    ensures registry.Valid(u)
    ensures r == ReadEntry(u, bytes[offset..], old(registry.paths), totalPayload)
    ensures r.Ok? ==> registry.paths == old(registry.paths) + [r.value.path]
  {
    hide VerifyChecksum, ValidateHeader, ReadPath, Register, NormalizePackagePath, PackagePathFromArchiveEntry;
    hide ArchivePathForPackageFile, Compare, AllZero;
    var rest := bytes[offset..];
    var header := rest[..BLOCK_SIZE];
    var _ :- VerifyChecksum(header);
    var size :- ValidateHeader(header);
    var archivePath :- ReadPath(u, header);
    var inner :- PackagePathFromArchiveEntry(u, archivePath);
    var path :- registry.Add(u, inner);
    var again :- ArchivePathForPackageFile(u, path);
    if again != archivePath { return Err(ArchiveInvalid); }
    if previousPath.Some? && Compare(previousPath.value, path) > 0 { return Err(ArchiveInvalid); }
    if registry.size > MAXIMUM_FILES { return Err(TooManyFiles); }
    if size > MAXIMUM_FILE_BYTES { return Err(FileTooLarge); }
    if totalPayload + size > MAXIMUM_TOTAL_PAYLOAD_BYTES { return Err(TooLarge); }
    var payloadStart := offset + BLOCK_SIZE;
    var payloadEnd := payloadStart + size;
    var nextOffset := payloadStart + BlockAligned(size);
    if payloadEnd > |bytes| || nextOffset > |bytes| { return Err(ArchiveInvalid); }
    assert bytes[payloadEnd..nextOffset] == rest[BLOCK_SIZE + size..BLOCK_SIZE + BlockAligned(size)];
    if !AllZero(bytes[payloadEnd..nextOffset]) { return Err(ArchiveInvalid); }
    assert bytes[payloadStart..payloadEnd] == rest[BLOCK_SIZE..BLOCK_SIZE + size];
    return Ok(Entry(path, bytes[payloadStart..payloadEnd]));
  }

  /** The reader's loop from one of its states: the offset, the paths registered,
      the payload counted, and the entries collected. */
  function ReadRounds(u: Unicode, bytes: Bytes, offset: nat, taken: seq<Bytes>, total: nat,
          entries: seq<Entry>): Result<seq<Entry>, Error>
    requires offset <= |bytes|
    decreases |bytes| - offset
  {
    if offset + BLOCK_SIZE > |bytes| then Err(ArchiveInvalid)
    else if AllZero(bytes[offset..offset + BLOCK_SIZE]) then
      var _ :- CheckTerminator(bytes[offset..], entries != []);
      Ok(entries)
    else
      var e :- ReadEntry(u, bytes[offset..], taken, total);
      ReadRounds(u, bytes, offset + BLOCK_SIZE + BlockAligned(|e.data|), taken + [e.path], total + |e.data|, entries + [e])
  }

  lemma RoundsEnd(u: Unicode, bytes: Bytes, taken: seq<Bytes>, p: Progress)
    requires OnTrack(u, bytes, taken, p) && |bytes| < p.offset + BLOCK_SIZE
    ensures ReadRounds(u, bytes, 0, [], 0, []) == Err(ArchiveInvalid)
  {
  }

  /** The loop collects what the recursive reader finds in the remaining bytes. */
  lemma {:induction false} RoundsReadTheRest(u: Unicode, bytes: Bytes, offset: nat, taken: seq<Bytes>, total: nat,
          entries: seq<Entry>)
    requires offset <= |bytes| && |taken| == |entries|
    ensures ReadRounds(u, bytes, offset, taken, total, entries) == Prefixed(entries, ReadFrom(u, bytes[offset..], taken, total))
    decreases |bytes| - offset
  {
    hide CheckTerminator, ReadEntry, AllZero;
    var rest := bytes[offset..];
    if offset + BLOCK_SIZE <= |bytes| {
      SliceOfDrop(bytes, offset, offset, offset + BLOCK_SIZE);
      if AllZero(rest[..BLOCK_SIZE]) {
        assert entries + [] == entries;
      } else if ReadEntry(u, rest, taken, total).Ok? {
        var e := ReadEntry(u, rest, taken, total).value;
        var next := BLOCK_SIZE + BlockAligned(|e.data|);
        DropOfDrop(bytes, offset, next);
        RoundsReadTheRest(u, bytes, offset + next, taken + [e.path], total + |e.data|, entries + [e]);
        PrefixedTwice(entries, [e], ReadFrom(u, rest[next..], taken + [e.path], total + |e.data|));
      }
    }
  }

  function LastOf(paths: seq<Bytes>): Option<Bytes> {
    if paths == [] then None else Some(paths[|paths| - 1])
  }

  /** The variables of the reader's loop. */
  datatype Progress = Progress(offset: nat, totalPayload: nat, previousPath: Option<Bytes>, entries: seq<Entry>)

  datatype Round = Finished(result: Result<seq<Entry>, Error>) | Continue(progress: Progress)

  /** The loop invariant: what is left to do yields what the whole archive yields. */
  ghost predicate OnTrack(u: Unicode, bytes: Bytes, taken: seq<Bytes>, p: Progress) {
    && p.offset <= |bytes|
    && p.previousPath == LastOf(taken)
    && ReadRounds(u, bytes, 0, [], 0, []) == ReadRounds(u, bytes, p.offset, taken, p.totalPayload, p.entries)
  }

  /** One round of the loop: the end of the archive, or one more entry. */
  method ReadRoundAt(u: Unicode, bytes: Bytes, registry: PackagePathRegistry, p: Progress) returns (round: Round)
    requires registry.Valid(u) && OnTrack(u, bytes, registry.paths, p) && p.offset + BLOCK_SIZE <= |bytes|
    modifies registry
    ensures registry.Valid(u)
    ensures round.Finished? ==> round.result == ReadRounds(u, bytes, 0, [], 0, [])
    ensures round.Continue? ==>
              OnTrack(u, bytes, registry.paths, round.progress) && p.offset < round.progress.offset <= |bytes|
  {
    hide CheckTerminator, ReadEntry, AllZero, PackagePathRegistry.Valid, BlockAligned;
    if AllZero(bytes[p.offset..p.offset + BLOCK_SIZE]) {
      var result := Terminate(bytes, p.offset, p.entries);
      return Finished(result);
    }
    var e := ReadEntryAt(u, bytes, p.offset, registry, p.previousPath, p.totalPayload);
    if e.Err? { return Finished(Err(e.error)); }
    var entry := e.value;
    return Continue(Progress(
      p.offset + BLOCK_SIZE + BlockAligned(|entry.data|), p.totalPayload + |entry.data|, Some(entry.path), p.entries + [entry]));
  }

  /** The reader's loop. */
  method ReadEntries(u: Unicode, bytes: Bytes, registry: PackagePathRegistry) returns (r: Result<seq<Entry>, Error>)
    requires registry.Valid(u) && registry.paths == []
    modifies registry
    ensures r == ReadRounds(u, bytes, 0, [], 0, [])
  {
    var p := Progress(0, 0, None, []);
    assert OnTrack(u, bytes, registry.paths, p);
    hide OnTrack, ReadRounds, PackagePathRegistry.Valid;
    while p.offset + BLOCK_SIZE <= |bytes|
      invariant registry.Valid(u) && OnTrack(u, bytes, registry.paths, p) && p.offset <= |bytes|
      decreases |bytes| - p.offset
    {
      var round := ReadRoundAt(u, bytes, registry, p);
      if round.Finished? { return round.result; }
      p := round.progress;
    }
    RoundsEnd(u, bytes, registry.paths, p);
    return Err(ArchiveInvalid);
  }

  method ReadRegistryPackageTar(u: Unicode, bytes: Bytes) returns (r: Result<seq<Entry>, Error>)
    ensures r == ReadArchive(u, bytes)
  {
    if LooksCompressed(bytes) { return Err(CompressionUnsupported); }
    if |bytes| > MAXIMUM_ARCHIVE_BYTES { return Err(TooLarge); }
    if |bytes| < TERMINAL_SIZE || |bytes| % BLOCK_SIZE != 0 { return Err(ArchiveInvalid); }
    var registry := new PackagePathRegistry();
    r := ReadEntries(u, bytes, registry);
    RoundsReadTheRest(u, bytes, 0, [], 0, []);
    assert bytes[0..] == bytes;
    PrefixedByNothing(ReadFrom(u, bytes, [], 0));
  }

  /** The end of the loop: two zero blocks, no trailing data, at least one file. */
  method Terminate(bytes: Bytes, offset: nat, entries: seq<Entry>) returns (r: Result<seq<Entry>, Error>)
    requires offset + BLOCK_SIZE <= |bytes|
    ensures r == match CheckTerminator(bytes[offset..], entries != []) case Ok(_) => Ok(entries) case Err(e) => Err(e)
  {
    var rest := bytes[offset..];
    if offset + TERMINAL_SIZE > |bytes| { return Err(ArchiveInvalid); }
    assert bytes[offset + BLOCK_SIZE..offset + TERMINAL_SIZE] == rest[BLOCK_SIZE..TERMINAL_SIZE];
    if !AllZero(bytes[offset + BLOCK_SIZE..offset + TERMINAL_SIZE]) { return Err(ArchiveInvalid); }
    assert bytes[offset + TERMINAL_SIZE..] == rest[TERMINAL_SIZE..];
    if !AllZero(bytes[offset + TERMINAL_SIZE..]) { return Err(ArchiveInvalid); }
    if entries == [] { return Err(ArchiveInvalid); }
    return Ok(entries);
  }
}
