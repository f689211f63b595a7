/** When the archive writer and the reader (`src/registry/package-tar.ts`) succeed, and
    with which error they fail otherwise. */
module ArchiveAcceptance {
  import opened Wrappers
  import opened Bytes
  import opened PackagePaths
  import opened UstarHeader
  import opened PackageTar
  import opened TarEntries
  import opened ArchiveOrder
  import opened TarTheorems
  import opened PathSafety

  /** The path can be stored: it is accepted, and its normal form is safe as well. */
  ghost predicate StorablePath(u: Unicode, path: Bytes) {
    SafePath(path) && FitsArchive(u.nfc(path)) && SafePath(u.nfc(path))
  }

  /** No two entries agree in their normalized paths, not even after case folding. */
  ghost predicate NoClash(u: Unicode, entries: seq<Entry>) {
    forall i, j :: 0 <= i < j < |entries| ==> FoldedPath(u, entries[i]) != FoldedPath(u, entries[j])
  }

  function FoldedPath(u: Unicode, e: Entry): Bytes {
    u.fold(u.nfc(e.path))
  }

  function Payload(entries: seq<Entry>): nat {
    if entries == [] then 0 else |entries[0].data| + Payload(entries[1..])
  }

  ghost predicate Sizes(entries: seq<Entry>) {
    (forall e | e in entries :: |e.data| <= 67108864) && Payload(entries) <= 268435456
  }

  ghost predicate WriterTakes(u: Unicode, entries: seq<Entry>) {
    && 1 <= |entries| <= 9999
    && (forall e | e in entries :: StorablePath(u, e.path))
    && NoClash(u, entries) && Sizes(entries)
  }

  lemma {:induction false} CheckSizesIs(entries: seq<Entry>, payload: nat)
    requires payload <= MAXIMUM_TOTAL_PAYLOAD_BYTES
    ensures CheckSizes(entries, payload).Ok?
            <==> (forall e | e in entries :: |e.data| <= MAXIMUM_FILE_BYTES) && payload + Payload(entries) <= MAXIMUM_TOTAL_PAYLOAD_BYTES
    ensures CheckSizes(entries, payload) == Err(FileTooLarge) ==> exists e | e in entries :: |e.data| > MAXIMUM_FILE_BYTES
    ensures CheckSizes(entries, payload) == Err(TooLarge) ==> payload + Payload(entries) > MAXIMUM_TOTAL_PAYLOAD_BYTES
    ensures CheckSizes(entries, payload).Err? ==> CheckSizes(entries, payload).error in {FileTooLarge, TooLarge}
  {
    if entries != [] {
      assert entries == [entries[0]] + entries[1..];
      if payload + |entries[0].data| <= MAXIMUM_TOTAL_PAYLOAD_BYTES { CheckSizesIs(entries[1..], payload + |entries[0].data|); }
    }
  }

  lemma {:induction false} PayloadPermuted(xs: seq<Entry>, ys: seq<Entry>)
    requires multiset(xs) == multiset(ys)
    ensures Payload(xs) == Payload(ys)
    decreases |ys|
  {
    if ys == [] {
      assert xs == [];
    } else {
      var i := Align(xs, ys);
      PayloadPermuted(Without(xs, i), ys[1..]);
      PayloadWithout(xs, i);
    }
  }

  lemma {:induction false} PayloadWithout(entries: seq<Entry>, i: nat)
    requires i < |entries|
    ensures Payload(entries) == |entries[i].data| + Payload(Without(entries, i))
  {
    var rest := entries[1..];
    if i == 0 {
      assert Without(entries, 0) == rest;
    } else {
      PayloadWithout(rest, i - 1);
      assert Without(entries, i) == [entries[0]] + Without(rest, i - 1);
    }
  }

  lemma {:induction false} PayloadOfNamed(u: Unicode, entries: seq<Entry>)
    ensures Payload(Named(u, entries)) == Payload(entries)
  {
    if entries != [] {
      NamedCons(u, entries);
      PayloadOfNamed(u, entries[1..]);
    }
  }

  lemma NoClashCons(u: Unicode, entries: seq<Entry>)
    requires entries != []
    ensures NoClash(u, entries) <==> NoClash(u, entries[1..]) && forall e | e in entries[1..] :: FoldedPath(u, e) != FoldedPath(u, entries[0])
  {
    var rest := entries[1..];
    hide FoldedPath;
    assert forall i :: 0 <= i < |rest| ==> rest[i] == entries[i + 1] && rest[i] in rest;
    if NoClash(u, rest) && forall e | e in rest :: FoldedPath(u, e) != FoldedPath(u, entries[0]) {
      forall i, j | 0 <= i < j < |entries|
        ensures FoldedPath(u, entries[i]) != FoldedPath(u, entries[j])
      {
        assert entries[j] == rest[j - 1];
        if i > 0 { assert entries[i] == rest[i - 1]; }
      }
    }
  }

  lemma ClashFreeIs(u: Unicode, e: Entry, rest: seq<Entry>)
    ensures ClashFree(u, NamedEntry(u, e), Named(u, rest)) <==> forall x | x in rest :: FoldedPath(u, x) != FoldedPath(u, e)
  {
    var named := Named(u, rest);
    forall i | 0 <= i < |rest|
      ensures named[i] in named && rest[i] in rest && u.fold(named[i].path) == FoldedPath(u, rest[i])
    {
    }
  }

  lemma {:induction false} DistinctIsNoClash(u: Unicode, entries: seq<Entry>)
    ensures Distinct(u, Named(u, entries)) <==> NoClash(u, entries)
  {
    if entries != [] {
      NamedCons(u, entries);
      DistinctIsNoClash(u, entries[1..]);
      NoClashCons(u, entries);
      ClashFreeIs(u, entries[0], entries[1..]);
      hide NoClash, ClashFree, Named, NamedEntry, FoldedPath;
      assert Named(u, entries)[0] == NamedEntry(u, entries[0]);
    }
  }

  /** The writer succeeds exactly on entries it can store. */
  lemma WriterSucceedsExactly(u: Unicode, entries: seq<Entry>)
    requires Lawful(u)
    ensures WriteArchive(u, entries).Ok? <==> WriterTakes(u, entries)
  {
    hide Lawful, RegisterAll, Encode, CheckSizes, SortByPath, Distinct, NoClash, SafePath, FitsArchive, Canonical, NormalizePackagePath;
    var stored := Stored(u, entries);
    RegisterAllIs(u, [], entries);
    DistinctIsNoClash(u, entries);
    StoredSizes(u, entries);
    StoredEncodes(u, entries);
    PathsAre(u, entries);
  }

  lemma PathsAre(u: Unicode, entries: seq<Entry>)
    requires Lawful(u)
    ensures (forall e | e in entries :: StorablePath(u, e.path))
            <==> forall e | e in entries :: Nameable(u, e) && Canonical(u, u.nfc(e.path))
  {
    hide SafePath, FitsArchive, NormalizePackagePath;
    forall e | e in entries
      ensures StorablePath(u, e.path) <==> Nameable(u, e) && Canonical(u, u.nfc(e.path))
    {
      assert u.nfc(u.nfc(e.path)) == u.nfc(e.path);
      NormalizedExactly(u, e.path);
      NormalizedExactly(u, u.nfc(e.path));
    }
  }

  lemma StoredIsNamed(u: Unicode, entries: seq<Entry>)
    ensures multiset(Stored(u, entries)) == multiset(Named(u, entries))
    ensures forall e :: e in Stored(u, entries) <==> e in Named(u, entries)
  {
    hide SortByPath;
    SortIs(u, Named(u, entries));
    forall e
      ensures e in Stored(u, entries) <==> e in Named(u, entries)
    {
      assert e in multiset(Stored(u, entries)) <==> e in multiset(Named(u, entries));
    }
  }

  lemma StoredSizes(u: Unicode, entries: seq<Entry>)
    ensures CheckSizes(Stored(u, entries), 0).Ok? <==> Sizes(entries)
  {
    var stored, named := Stored(u, entries), Named(u, entries);
    hide CheckSizes, Stored;
    StoredIsNamed(u, entries);
    PayloadPermuted(stored, named);
    PayloadOfNamed(u, entries);
    CheckSizesIs(stored, 0);
    assert (forall e | e in named :: |e.data| <= MAXIMUM_FILE_BYTES) <==> forall e | e in entries :: |e.data| <= MAXIMUM_FILE_BYTES by {
      forall i | 0 <= i < |entries|
        ensures named[i] in named && entries[i] in entries && named[i].data == entries[i].data
      {
      }
    }
  }

  lemma StoredPathsAre(u: Unicode, entries: seq<Entry>)
    ensures (forall e | e in Stored(u, entries) :: Canonical(u, e.path)) <==> forall e | e in entries :: Canonical(u, u.nfc(e.path))
  {
    var named := Named(u, entries);
    hide Stored, Canonical;
    StoredIsNamed(u, entries);
    forall i | 0 <= i < |entries|
      ensures named[i] in named && entries[i] in entries && named[i].path == u.nfc(entries[i].path)
    {
    }
  }

  lemma StoredEncodes(u: Unicode, entries: seq<Entry>)
    requires Lawful(u)
    ensures CheckSizes(Stored(u, entries), 0).Ok? ==>
              (Encode(u, Stored(u, entries)).Ok? <==> forall e | e in entries :: Canonical(u, u.nfc(e.path)))
  {
    var stored, named := Stored(u, entries), Named(u, entries);
    hide Lawful, CheckSizes, Encode, Stored, Canonical, NormalizePackagePath;
    StoredPathsAre(u, entries);
    if CheckSizes(stored, 0).Ok? {
      CheckedSizes(stored, 0);
      if forall e | e in stored :: Canonical(u, e.path) { StorableEncodes(u, stored); }
      if Encode(u, stored).Ok? {
        EncodedPathsNormalize(u, stored);
        StoredIsNamed(u, entries);
        forall e | e in stored
          ensures Canonical(u, e.path)
        {
          var i :| 0 <= i < |named| && named[i] == e;
          StoredPathIsNormal(u, entries[i].path);
        }
      }
    }
  }

  lemma StoredPathIsNormal(u: Unicode, path: Bytes)
    requires Lawful(u) && NormalizePackagePath(u, u.nfc(path)).Ok?
    ensures Canonical(u, u.nfc(path))
  {
    hide NormalizePackagePath;
    assert u.nfc(u.nfc(path)) == u.nfc(path);
    NormalizedIsNfc(u, u.nfc(path));
  }

  // ---------- the errors ----------

  /** A wrong number of files; else a path that is refused; else a size; else a path whose
      normal form is refused. */
  lemma WriterFailsWith(u: Unicode, entries: seq<Entry>)
    requires WriteArchive(u, entries).Err?
    ensures var error := WriteArchive(u, entries).error;
            && (error == TooManyFiles <==> !(1 <= |entries| <= 9999))
            && (error in {PathDuplicate, CaseCollision} ==> !NoClash(u, entries))
            && (error == FileTooLarge ==> exists e | e in entries :: |e.data| > 67108864)
            && (error == TooLarge ==> Payload(entries) > 268435456)
            && error in {TooManyFiles, PathInvalid, PathDuplicate, CaseCollision, FileTooLarge, TooLarge}
  {
    hide RegisterAll, Encode, CheckSizes, SortByPath, Distinct, NoClash;
    if 1 <= |entries| <= 9999 {
      RegisterAllIs(u, [], entries);
      if RegisterAll(u, [], entries).Err? {
        RegisterFailsWith(u, [], entries);
      } else {
        var stored := Stored(u, entries);
        StoredFailsWith(u, entries);
        if CheckSizes(stored, 0).Ok? {
          CheckedSizes(stored, 0);
          EncodeFailsWith(u, stored);
        }
      }
    }
  }

  lemma StoredFailsWith(u: Unicode, entries: seq<Entry>)
    ensures CheckSizes(Stored(u, entries), 0) == Err(FileTooLarge) ==> exists e | e in entries :: |e.data| > 67108864
    ensures CheckSizes(Stored(u, entries), 0) == Err(TooLarge) ==> Payload(entries) > 268435456
    ensures CheckSizes(Stored(u, entries), 0).Err? ==> CheckSizes(Stored(u, entries), 0).error in {FileTooLarge, TooLarge}
  {
    var stored, named := Stored(u, entries), Named(u, entries);
    hide CheckSizes, Stored;
    StoredIsNamed(u, entries);
    PayloadPermuted(stored, named);
    PayloadOfNamed(u, entries);
    CheckSizesIs(stored, 0);
    if e :| e in stored && |e.data| > 67108864 {
      var i :| 0 <= i < |named| && named[i] == e;
      assert entries[i] in entries;
    }
  }

  lemma {:induction false} RegisterFailsWith(u: Unicode, taken: seq<Bytes>, entries: seq<Entry>)
    requires RegisterAll(u, taken, entries).Err?
    ensures var error := RegisterAll(u, taken, entries).error;
            && error in {PathInvalid, PathDuplicate, CaseCollision}
            && (error in {PathDuplicate, CaseCollision} ==> !NoClash(u, entries) || exists t, e | t in taken && e in entries :: u.fold(t) == FoldedPath(u, e))
    decreases |entries|
  {
    assert entries == [entries[0]] + entries[1..];
    var head := Register(u, taken, entries[0].path);
    OneFailsWith(u, taken, entries[0].path);
    NoClashCons(u, entries);
    RegisterIs(u, taken, entries[0].path);
    hide Register, NoClash;
    if head.Ok? {
      var path := head.value;
      RegisterFailsWith(u, taken + [path], entries[1..]);
      if t, e :| t in taken + [path] && e in entries[1..] && u.fold(t) == FoldedPath(u, e) {
        assert e in entries;
        if t in taken { assert t in taken; } else { assert t == path; }
      }
    } else if head.error in {PathDuplicate, CaseCollision} {
      var t :| t in taken && u.fold(t) == u.fold(u.nfc(entries[0].path));
      assert entries[0] in entries;
    }
  }

  /** A path is a duplicate when it is taken as it is, and collides when only its case
      folded form is. */
  lemma OneFailsWith(u: Unicode, taken: seq<Bytes>, path: Bytes)
    ensures Register(u, taken, path) == Err(PathInvalid) <==> NormalizePackagePath(u, path).Err?
    ensures Register(u, taken, path) == Err(PathDuplicate) <==> NormalizePackagePath(u, path).Ok? && u.nfc(path) in taken
    ensures Register(u, taken, path) == Err(CaseCollision)
            <==> NormalizePackagePath(u, path).Ok? && u.nfc(path) !in taken && exists t | t in taken :: u.fold(t) == u.fold(u.nfc(path))
  {
    NormalizedExactly(u, path);
    hide NormalizePackagePath, SafePath, FitsArchive;
  }

  lemma BlocksFailWith(u: Unicode, e: Entry)
    requires |e.data| <= MAXIMUM_FILE_BYTES && EntryBlocks(u, e).Err?
    ensures EntryBlocks(u, e).error == PathInvalid
  {
    NormalizedExactly(u, e.path);
    AllowedSizeFits(|e.data|);
    hide NormalizePackagePath, SafePath, FitsArchive, HeaderBytes, OctalField;
    if NormalizePackagePath(u, e.path).Ok? { NormalizedIsNonEmpty(u, e.path); }
  }

  lemma {:induction false} EncodeFailsWith(u: Unicode, entries: seq<Entry>)
    requires Encode(u, entries).Err? && forall e | e in entries :: |e.data| <= MAXIMUM_FILE_BYTES
    ensures Encode(u, entries).error == PathInvalid
  {
    hide EntryBlocks;
    assert entries[0] in entries && forall e | e in entries[1..] :: e in entries;
    if EntryBlocks(u, entries[0]).Err? {
      BlocksFailWith(u, entries[0]);
    } else {
      EncodeFailsWith(u, entries[1..]);
    }
  }

  // ---------- the reader ----------

  /** The bytes are what the writer prints for the entries, and zeros. */
  ghost predicate WrittenAs(u: Unicode, entries: seq<Entry>, bytes: Bytes) {
    && WriterTakes(u, entries) && (forall e | e in entries :: u.decodable(e.path)) && WriteArchive(u, entries).Ok?
    && WriteArchive(u, entries).value <= bytes && AllZero(bytes[|WriteArchive(u, entries).value|..])
  }

  /** Without marks the reader accepts exactly archives of the writer followed by zeros, of
      whole blocks, within the bound and without a compression signature. */
  lemma ReaderAcceptsExactly(u: Unicode, bytes: Bytes)
    requires Lawful(u) && Unmarked(bytes)
    ensures ReadArchive(u, bytes).Ok? <==>
              && |bytes| % 512 == 0 && |bytes| <= 335544320 && !LooksCompressed(bytes)
              && exists entries :: WrittenAs(u, entries, bytes)
    ensures forall entries :: WrittenAs(u, entries, bytes) && ReadArchive(u, bytes).Ok? ==>
              ReadArchive(u, bytes).value == Stored(u, entries)
  {
    hide Lawful, WriteArchive, ReadFrom, Unmarked, LooksCompressed, Stored, WriterTakes, AllZero, ReadArchive;
    ReadableIs(u, bytes);
    if ReadArchive(u, bytes).Ok? {
      var entries := ReadArchive(u, bytes).value;
      Canonicity(u, bytes);
      WriterSucceedsExactly(u, entries);
      assert forall e | e in entries :: u.decodable(e.path) by { ReadIsDecodable(u, bytes); }
      assert WrittenAs(u, entries, bytes);
    }
    forall entries | WrittenAs(u, entries, bytes)
      ensures ReadFrom(u, bytes, [], 0) == Ok(Stored(u, entries)) && |bytes| >= 1024
    {
      WrittenReads(u, entries, bytes);
    }
  }

  lemma ReadableIs(u: Unicode, bytes: Bytes)
    ensures ReadArchive(u, bytes).Ok? <==>
              |bytes| % 512 == 0 && 1024 <= |bytes| <= 335544320 && !LooksCompressed(bytes) && ReadFrom(u, bytes, [], 0).Ok?
    ensures ReadArchive(u, bytes).Ok? ==> ReadArchive(u, bytes) == ReadFrom(u, bytes, [], 0)
    ensures LooksCompressed(bytes) ==> ReadArchive(u, bytes) == Err(CompressionUnsupported)
    ensures !LooksCompressed(bytes) && |bytes| > 335544320 ==> ReadArchive(u, bytes) == Err(TooLarge)
  {
    hide ReadFrom, LooksCompressed;
  }

  lemma ReadIsDecodable(u: Unicode, bytes: Bytes)
    requires Lawful(u) && ReadArchive(u, bytes).Ok?
    ensures forall e | e in ReadArchive(u, bytes).value :: u.decodable(e.path)
  {
    hide Lawful, ReadFrom, Acceptables, Canonical;
    ReadIsAcceptables(u, bytes, [], 0);
    AcceptablesAreStorable(u, [], 0, ReadArchive(u, bytes).value);
  }

  lemma WrittenReads(u: Unicode, entries: seq<Entry>, bytes: Bytes)
    requires Lawful(u) && Unmarked(bytes) && WrittenAs(u, entries, bytes)
    ensures ReadFrom(u, bytes, [], 0) == Ok(Stored(u, entries)) && |bytes| >= 1024
  {
    hide Lawful, WriteArchive, ReadFrom, Unmarked, Stored, WriterTakes, AllZero, Acceptables, EncodesTo, UnmarkedNames, Encode;
    WriterStores(u, entries);
    EncodedIsWritten(u, Stored(u, entries), WriteArchive(u, entries).value, bytes);
    EncodedReadsBack(u, bytes, [], 0, Stored(u, entries));
  }
}
