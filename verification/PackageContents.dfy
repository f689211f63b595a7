/** What a built package contains (`src/registry/package-builder.ts`), said by the
    configuration and the source directory alone, and when a build succeeds. */
module PackageContents {
  import opened Wrappers
  import opened Bytes
  import opened PackagePaths
  import opened PackageTar
  import opened TarEntries
  import opened ArchiveOrder
  import opened TarTheorems
  import opened PathSafety
  import opened ArchiveAcceptance
  import opened RegistryPackage

  // ---------- what a package is to contain ----------

  /** The three required files, then the configured ones. */
  function Declared(c: Config): seq<Bytes> {
    [PLAYBOOK, README, LICENSE] + c.files
  }

  ghost predicate IsDeclared(e: Services, c: Config, path: Bytes) {
    exists i :: 0 <= i < |Declared(c)| && path == e.unicode.nfc(Declared(c)[i])
  }

  predicate Ascending(paths: seq<Bytes>) {
    forall i, j :: 0 <= i < j < |paths| ==> Compare(paths[i], paths[j]) < 0
  }

  /** Exactly the declared files, once each and in order, with the size, digest and media
      type of the file of that name in the source directory. */
  ghost predicate PacksExactly(e: Services, c: Config, source: map<Bytes, Bytes>, files: seq<ManifestFile>) {
    && Ascending(PathsOfFiles(files))
    && (forall p :: p in PathsOfFiles(files) <==> IsDeclared(e, c, p))
    && (forall f | f in files :: f.path in source
                                 && f == ManifestFile(f.path, e.mediaType(f.path), |source[f.path]|, e.sha256(source[f.path])))
  }

  function ManifestWith(c: Config, files: seq<ManifestFile>): Manifest {
    Manifest(c.namespace, c.name, c.version, PLAYBOOK, README, LICENSE, c.compatibility, c.capabilities, files)
  }

  function FilesTotal(files: seq<ManifestFile>): nat {
    if files == [] then 0 else files[0].size + FilesTotal(files[1..])
  }

  /** The paths, contents and names the configuration asks for can be packed. */
  ghost predicate Packable(e: Services, c: Config, source: map<Bytes, Bytes>) {
    var u, d := e.unicode, Declared(c);
    && (forall p | p in d :: StorablePath(u, p))
    && (forall p | p in d :: u.nfc(p) != MANIFEST && u.nfc(p) != BUILD_CONFIG)
    && (forall i, j :: 0 <= i < j < |d| ==> u.fold(u.nfc(d[i])) != u.fold(u.nfc(d[j])))
    && (forall p | p in d :: u.fold(u.nfc(p)) != u.fold(MANIFEST))
    && (forall p | p in d :: u.nfc(p) in source && |source[u.nfc(p)]| <= 67108864 && e.scriptFree(u.nfc(p), source[u.nfc(p)]))
  }

  /** The manifest is accepted by its own parser, and everything fits the bounds. */
  ghost predicate Fits(e: Services, c: Config, files: seq<ManifestFile>) {
    var manifest := e.canonicalJson(ManifestWith(c, files));
    && |manifest| <= 4194304 && e.parse(manifest).Some?
    && FilesTotal(files) + |manifest| <= 268435456 && |files| + 1 <= 9999
  }

  // ---------- lists in order ----------

  lemma {:induction false} AscendingUnique(a: seq<Bytes>, b: seq<Bytes>)
    requires Ascending(a) && Ascending(b) && forall p :: p in a <==> p in b
    ensures a == b
  {
    if a != [] {
      assert a[0] in b;
      assert b[0] in a;
      HeadIsLeast(a, b[0]);
      HeadIsLeast(b, a[0]);
      CompareAntisymmetric(a[0], b[0]);
      CompareZero(a[0], b[0]);
      forall p
        ensures p in a[1..] <==> p in b[1..]
      {
        TailMember(a, p);
        TailMember(b, p);
      }
      AscendingUnique(a[1..], b[1..]);
      assert a == [a[0]] + a[1..] && b == [b[0]] + b[1..];
    } else {
      NoMembers(b);
    }
  }

  lemma HeadIsLeast(a: seq<Bytes>, p: Bytes)
    requires Ascending(a) && p in a
    ensures Compare(a[0], p) <= 0
  {
    CompareZero(p, p);
  }

  lemma TailMember(a: seq<Bytes>, p: Bytes)
    requires Ascending(a) && a != []
    ensures p in a[1..] <==> p in a && p != a[0]
  {
    CompareZero(p, p);
    assert a == [a[0]] + a[1..];
    assert forall i :: 0 <= i < |a[1..]| ==> a[1..][i] == a[i + 1];
  }

  /** The order of the files is forced. */
  lemma PackedOnce(e: Services, c: Config, source: map<Bytes, Bytes>, a: seq<ManifestFile>, b: seq<ManifestFile>)
    requires PacksExactly(e, c, source, a) && PacksExactly(e, c, source, b)
    ensures a == b
  {
    AscendingUnique(PathsOfFiles(a), PathsOfFiles(b));
    forall i | 0 <= i < |a|
      ensures a[i] == b[i]
    {
      assert a[i] in a && b[i] in b && PathsOfFiles(a)[i] == PathsOfFiles(b)[i];
    }
  }

  // ---------- the parts of a build ----------

  lemma {:induction false} NormalizesExactly(u: Unicode, paths: seq<Bytes>)
    ensures NormalizeAll(u, paths).Ok? <==> forall p | p in paths :: NormalizePackagePath(u, p).Ok?
    ensures NormalizeAll(u, paths).Ok? ==> NormalizeAll(u, paths).value == seq(|paths|, i requires 0 <= i < |paths| => u.nfc(paths[i]))
  {
    hide NormalizePackagePath;
    if paths != [] {
      assert paths == [paths[0]] + paths[1..];
      NormalizedIsNfc(u, paths[0]);
      NormalizesExactly(u, paths[1..]);
    }
  }

  /** The payload: each path with the file of that name. */
  ghost predicate HoldsSources(source: map<Bytes, Bytes>, paths: seq<Bytes>, payload: seq<Entry>) {
    |payload| == |paths| && forall i :: 0 <= i < |paths| ==> paths[i] in source && payload[i] == Entry(paths[i], source[paths[i]])
  }

  /** The first round of the payload loop. */
  lemma PayloadCons(e: Services, source: map<Bytes, Bytes>, paths: seq<Bytes>, total: nat)
    requires paths != [] && PayloadFrom(e, source, paths, total).Ok?
    ensures paths[0] in source && |source[paths[0]]| <= MAXIMUM_FILE_BYTES && e.scriptFree(paths[0], source[paths[0]])
    ensures total + |source[paths[0]]| <= MAXIMUM_TOTAL_PAYLOAD_BYTES
    ensures var later := PayloadFrom(e, source, paths[1..], total + |source[paths[0]]|);
            later.Ok? && PayloadFrom(e, source, paths, total).value == [Entry(paths[0], source[paths[0]])] + later.value
  {
  }

  lemma HoldsCons(source: map<Bytes, Bytes>, paths: seq<Bytes>, rest: seq<Entry>)
    requires paths != [] && paths[0] in source && HoldsSources(source, paths[1..], rest)
    ensures HoldsSources(source, paths, [Entry(paths[0], source[paths[0]])] + rest)
    ensures Payload([Entry(paths[0], source[paths[0]])] + rest) == |source[paths[0]]| + Payload(rest)
  {
    var payload := [Entry(paths[0], source[paths[0]])] + rest;
    assert payload[1..] == rest;
    assert forall i :: 1 <= i < |paths| ==> paths[i] == paths[1..][i - 1] && payload[i] == rest[i - 1];
  }

  lemma {:induction false} PayloadExactly(e: Services, source: map<Bytes, Bytes>, paths: seq<Bytes>, total: nat)
    requires PayloadFrom(e, source, paths, total).Ok?
    ensures HoldsSources(source, paths, PayloadFrom(e, source, paths, total).value)
    ensures total <= MAXIMUM_TOTAL_PAYLOAD_BYTES ==>
              total + Payload(PayloadFrom(e, source, paths, total).value) <= MAXIMUM_TOTAL_PAYLOAD_BYTES
    ensures forall p | p in paths :: |source[p]| <= MAXIMUM_FILE_BYTES && e.scriptFree(p, source[p])
    decreases |paths|
  {
    if paths != [] {
      PayloadCons(e, source, paths, total);
      hide PayloadFrom;
      var later := PayloadFrom(e, source, paths[1..], total + |source[paths[0]]|).value;
      PayloadExactly(e, source, paths[1..], total + |source[paths[0]]|);
      HoldsCons(source, paths, later);
      assert paths == [paths[0]] + paths[1..];
    }
  }

  lemma {:induction false} PayloadSucceeds(e: Services, source: map<Bytes, Bytes>, paths: seq<Bytes>, total: nat, payload: seq<Entry>)
    requires HoldsSources(source, paths, payload) && total + Payload(payload) <= MAXIMUM_TOTAL_PAYLOAD_BYTES
    requires forall p | p in paths :: |source[p]| <= MAXIMUM_FILE_BYTES && e.scriptFree(p, source[p])
    ensures PayloadFrom(e, source, paths, total) == Ok(payload)
    decreases |paths|
  {
    if paths == [] {
      assert payload == [];
    } else {
      assert paths[0] in paths && forall p :: p in paths[1..] ==> p in paths;
      PayloadSucceeds(e, source, paths[1..], total + |source[paths[0]]|, payload[1..]);
      assert payload == [payload[0]] + payload[1..];
    }
  }

  function Normal(e: Services, c: Config): (paths: seq<Bytes>)
    ensures |paths| == |Declared(c)| && forall i :: 0 <= i < |paths| ==> paths[i] == e.unicode.nfc(Declared(c)[i])
  {
    seq(|Declared(c)|, i requires 0 <= i < |Declared(c)| => e.unicode.nfc(Declared(c)[i]))
  }

  /** Sorting distinct paths. */
  lemma SortedAscends(u: Unicode, paths: seq<Bytes>)
    requires Distinct(u, AsEntries(paths))
    ensures Ascending(SortedPaths(paths)) && forall p :: p in SortedPaths(paths) <==> p in paths
    ensures |SortedPaths(paths)| == |paths|
  {
    hide Distinct, SortByPath;
    var sorted := SortByPath(AsEntries(paths));
    SortIs(u, AsEntries(paths));
    SortedMembers(paths);
    DistinctPermuted(u, AsEntries(paths), sorted);
    DistinctPaths(u, sorted);
    forall i, j | 0 <= i < j < |sorted|
      ensures Compare(PathsOf(sorted)[i], PathsOf(sorted)[j]) < 0
    {
      SortedPair(sorted, i, j);
      CompareZero(sorted[i].path, sorted[j].path);
      assert PathsOf(sorted)[i] != PathsOf(sorted)[j];
    }
  }

  lemma {:induction false} SortedPair(entries: seq<Entry>, i: nat, j: nat)
    requires Sorted(entries) && i < j < |entries|
    ensures Compare(entries[i].path, entries[j].path) <= 0
  {
    if i == 0 {
      SortedHead(entries, entries[j]);
    } else {
      SortedPair(entries[1..], i - 1, j - 1);
    }
  }

  /** What a build that succeeds went through. */
  ghost predicate Parts(e: Services, c: Config, source: map<Bytes, Bytes>, payload: seq<Entry>, manifestBytes: Bytes) {
    var u := e.unicode;
    && (forall p | p in Declared(c) :: NormalizePackagePath(u, p).Ok?)
    && (forall p | p in Normal(e, c) :: p != MANIFEST && p != BUILD_CONFIG && NormalizePackagePath(u, p).Ok?)
    && NoClash(u, AsEntries(Normal(e, c)))
    && PayloadFrom(e, source, SortedPaths(Normal(e, c)), 0) == Ok(payload)
    && manifestBytes == e.canonicalJson(ManifestFor(e, c, payload))
    && ParseManifest(e, manifestBytes).Ok?
    && WriteArchive(u, payload + [Entry(MANIFEST, manifestBytes)]).Ok?
  }

  lemma UniqueExactly(u: Unicode, paths: seq<Bytes>)
    ensures UniquePaths(u, paths).Ok? <==> (forall p | p in paths :: NormalizePackagePath(u, p).Ok?) && NoClash(u, AsEntries(paths))
  {
    var entries := AsEntries(paths);
    hide NormalizePackagePath, RegisterAll, Distinct, NoClash;
    RegisterAllIs(u, [], entries);
    DistinctIsNoClash(u, entries);
    assert (forall x | x in entries :: Nameable(u, x)) <==> forall p | p in paths :: NormalizePackagePath(u, p).Ok? by {
      forall i | 0 <= i < |paths|
        ensures entries[i] in entries && paths[i] in paths && entries[i].path == paths[i]
      {
      }
    }
  }

  lemma BuildParts(e: Services, c: Config, source: map<Bytes, Bytes>)
    ensures BuildPackage(e, c, source).Ok? <==> exists payload, manifestBytes :: Parts(e, c, source, payload, manifestBytes)
    ensures forall payload, manifestBytes :: Parts(e, c, source, payload, manifestBytes) && BuildPackage(e, c, source).Ok? ==>
              var b := BuildPackage(e, c, source).value;
              && WriteArchive(e.unicode, payload + [Entry(MANIFEST, manifestBytes)]) == Ok(b.archive)
              && ParseManifest(e, manifestBytes) == Ok(b.manifest)
              && b.artifactDigest == e.sha256(b.archive) && b.manifestDigest == e.sha256(manifestBytes)
              && b.packageId == PackageId(b.manifest) && b.version == b.manifest.version
  {
    hide NormalizePackagePath, NormalizeAll, PayloadFrom, SortedPaths, WriteArchive, UniquePaths, NoClash, Ascii;
    var u := e.unicode;
    assert Declared(c) == [PLAYBOOK, README, LICENSE] + c.files;
    NormalizesExactly(u, Declared(c));
    var paths := Normal(e, c);
    UniqueExactly(u, paths);
    assert NormalizeAll(u, Declared(c)).Ok? ==> NormalizeAll(u, Declared(c)).value == paths;
    if BuildPackage(e, c, source).Ok? {
      var payload := PayloadFrom(e, source, SortedPaths(paths), 0).value;
      assert Parts(e, c, source, payload, e.canonicalJson(ManifestFor(e, c, payload)));
    }
  }

  // ---------- when a build succeeds ----------

  ghost predicate FoldsApart(u: Unicode, paths: seq<Bytes>) {
    forall i, j :: 0 <= i < j < |paths| ==> u.fold(paths[i]) != u.fold(paths[j])
  }

  lemma NormalTwice(e: Services, c: Config)
    requires Lawful(e.unicode)
    ensures forall p | p in Normal(e, c) :: e.unicode.nfc(p) == p
    ensures NoClash(e.unicode, AsEntries(Normal(e, c))) <==> FoldsApart(e.unicode, Normal(e, c))
    ensures FoldsApart(e.unicode, Normal(e, c)) ==> Distinct(e.unicode, AsEntries(Normal(e, c)))
    ensures forall p :: p in Normal(e, c) <==> IsDeclared(e, c, p)
  {
    var u, paths := e.unicode, Normal(e, c);
    var entries := AsEntries(paths);
    hide Distinct;
    forall i | 0 <= i < |paths|
      ensures u.nfc(paths[i]) == paths[i] && FoldedPath(u, entries[i]) == u.fold(paths[i])
    {
      assert u.nfc(u.nfc(Declared(c)[i])) == u.nfc(Declared(c)[i]);
    }
    assert Named(u, entries) == entries;
    DistinctIsNoClash(u, entries);
  }

  /** The payload in manifest form. */
  lemma FilesOfPayload(e: Services, c: Config, source: map<Bytes, Bytes>, payload: seq<Entry>)
    requires Lawful(e.unicode) && FoldsApart(e.unicode, Normal(e, c))
    requires HoldsSources(source, SortedPaths(Normal(e, c)), payload)
    ensures PacksExactly(e, c, source, FilesOf(e, payload)) && FilesTotal(FilesOf(e, payload)) == Payload(payload)
  {
    hide SortedPaths, FoldsApart;
    NormalTwice(e, c);
    SortedAscends(e.unicode, Normal(e, c));
    var files := FilesOf(e, payload);
    assert PathsOfFiles(files) == SortedPaths(Normal(e, c));
    TotalsAgree(e, payload);
  }

  lemma {:induction false} TotalsAgree(e: Services, payload: seq<Entry>)
    ensures FilesTotal(FilesOf(e, payload)) == Payload(payload)
  {
    if payload != [] {
      assert FilesOf(e, payload)[1..] == FilesOf(e, payload[1..]);
      TotalsAgree(e, payload[1..]);
    }
  }

  lemma {:induction false} PayloadAndOne(payload: seq<Entry>, x: Entry)
    ensures Payload(payload + [x]) == Payload(payload) + |x.data|
  {
    if payload == [] {
      assert [] + [x] == [x] && [x][1..] == [];
    } else {
      PayloadAndOne(payload[1..], x);
      assert (payload + [x])[1..] == payload[1..] + [x];
    }
  }

  lemma ManifestPath(u: Unicode)
    requires u.nfc(MANIFEST) == MANIFEST
    ensures StorablePath(u, MANIFEST)
  {
    var path := MANIFEST;
    assert |path| == 13 && path[1] == 0x61 && path[0] == 0x6d;
    assert forall k :: 0 <= k < |path| ==> path[k] !in {0, 0x25, 0x2f, 0x5c};
    assert forall i: nat, j: nat :: Stretch(path, i, j) ==> i == 0 && j == 13;
    assert forall i: nat :: !EncodedAt(path, i);
  }

  lemma PathsOfPackage(u: Unicode, paths: seq<Bytes>, source: map<Bytes, Bytes>, payload: seq<Entry>, m: Entry)
    requires HoldsSources(source, paths, payload) && StorablePath(u, m.path)
    ensures (forall x | x in payload + [m] :: StorablePath(u, x.path)) <==> forall p | p in paths :: StorablePath(u, p)
  {
    hide StorablePath;
    var entries := payload + [m];
    if forall x | x in entries :: StorablePath(u, x.path) {
      forall p | p in paths
        ensures StorablePath(u, p)
      {
        var i :| 0 <= i < |paths| && paths[i] == p;
        assert entries[i] == payload[i] && entries[i] in entries;
      }
    }
    if forall p | p in paths :: StorablePath(u, p) {
      forall x | x in entries
        ensures StorablePath(u, x.path)
      {
        if x != m {
          var i :| 0 <= i < |payload| && payload[i] == x;
          assert paths[i] in paths;
        }
      }
    }
  }

  lemma SizesOfPackage(paths: seq<Bytes>, source: map<Bytes, Bytes>, payload: seq<Entry>, m: Entry)
    requires HoldsSources(source, paths, payload) && |m.data| <= MAXIMUM_MANIFEST_BYTES
    requires forall p | p in paths :: p in source && |source[p]| <= MAXIMUM_FILE_BYTES
    ensures Sizes(payload + [m]) <==> Payload(payload) + |m.data| <= 268435456
  {
    PayloadAndOne(payload, m);
    forall x | x in payload + [m]
      ensures |x.data| <= 67108864
    {
      if x != m {
        var i :| 0 <= i < |payload| && payload[i] == x;
        assert paths[i] in paths;
      }
    }
  }

  /** What the writer asks of a payload and a manifest. */
  lemma PackageIsTaken(u: Unicode, paths: seq<Bytes>, source: map<Bytes, Bytes>, payload: seq<Entry>, manifest: Bytes)
    requires Lawful(u) && u.nfc(MANIFEST) == MANIFEST && HoldsSources(source, paths, payload)
    requires forall p | p in paths :: u.nfc(p) == p && p in source && |source[p]| <= MAXIMUM_FILE_BYTES
    requires |manifest| <= MAXIMUM_MANIFEST_BYTES
    ensures WriterTakes(u, payload + [Entry(MANIFEST, manifest)]) <==>
              && |payload| + 1 <= 9999 && (forall p | p in paths :: StorablePath(u, p))
              && FoldsApart(u, paths) && (forall p | p in paths :: u.fold(p) != u.fold(MANIFEST))
              && Payload(payload) + |manifest| <= 268435456
  {
    var m := Entry(MANIFEST, manifest);
    ManifestPath(u);
    hide StorablePath, Sizes, Ascii, Lawful;
    PathsOfPackage(u, paths, source, payload, m);
    SizesOfPackage(paths, source, payload, m);
    var entries := payload + [m];
    forall i | 0 <= i < |paths|
      ensures FoldedPath(u, entries[i]) == u.fold(paths[i])
    {
      assert entries[i] == payload[i] && paths[i] in paths;
    }
    ClashesAre(u, paths, entries);
    hide NoClash, FoldsApart;
  }

  lemma ClashesAre(u: Unicode, paths: seq<Bytes>, entries: seq<Entry>)
    requires |entries| == |paths| + 1 && entries[|paths|].path == MANIFEST == u.nfc(MANIFEST)
    requires forall i :: 0 <= i < |paths| ==> FoldedPath(u, entries[i]) == u.fold(paths[i])
    ensures NoClash(u, entries) <==> FoldsApart(u, paths) && forall p | p in paths :: u.fold(p) != u.fold(MANIFEST)
  {
    assert FoldedPath(u, entries[|paths|]) == u.fold(MANIFEST);
    assert forall i :: 0 <= i < |paths| ==> paths[i] in paths;
    if NoClash(u, entries) {
      forall p | p in paths
        ensures u.fold(p) != u.fold(MANIFEST)
      {
        var i :| 0 <= i < |paths| && paths[i] == p;
        assert FoldedPath(u, entries[i]) != FoldedPath(u, entries[|paths|]);
      }
    }
  }

  lemma NamesAreFixed(e: Services)
    requires e.Faithful()
    ensures e.unicode.nfc(MANIFEST) == MANIFEST && Lawful(e.unicode)
  {
    assert IsAscii(MANIFEST);
    hide Lawful, IsAscii;
  }

  /** A build that succeeds packs what it was to pack. */
  lemma PartsPack(e: Services, c: Config, source: map<Bytes, Bytes>, payload: seq<Entry>, manifestBytes: Bytes)
    requires e.Faithful() && Parts(e, c, source, payload, manifestBytes)
    ensures Packable(e, c, source)
    ensures var files := FilesOf(e, payload);
            PacksExactly(e, c, source, files) && Fits(e, c, files) && manifestBytes == e.canonicalJson(ManifestWith(c, files))
  {
    var u, paths := e.unicode, Normal(e, c);
    var sorted, files := SortedPaths(paths), FilesOf(e, payload);
    NamesAreFixed(e);
    NormalTwice(e, c);
    assert ManifestFor(e, c, payload) == ManifestWith(c, files);
    hide NormalizePackagePath, PayloadFrom, SortedPaths, WriteArchive, NoClash, Ascii, Lawful, FoldsApart, Packable,
            PacksExactly, StorablePath, ManifestWith;
    SortedAscends(u, paths);
    PayloadExactly(e, source, sorted, 0);
    FilesOfPayload(e, c, source, payload);
    WriterSucceedsExactly(u, payload + [Entry(MANIFEST, manifestBytes)]);
    forall p | p in sorted
      ensures u.nfc(p) == p && p in source
    {
      assert p in paths;
      var i :| 0 <= i < |sorted| && sorted[i] == p;
    }
    PackageIsTaken(u, sorted, source, payload, manifestBytes);
    PartsArePackable(e, c, source, sorted);
  }

  lemma PartsArePackable(e: Services, c: Config, source: map<Bytes, Bytes>, sorted: seq<Bytes>)
    requires Lawful(e.unicode) && FoldsApart(e.unicode, Normal(e, c)) && forall p :: p in sorted <==> p in Normal(e, c)
    requires forall p | p in Declared(c) :: NormalizePackagePath(e.unicode, p).Ok?
    requires forall p | p in Normal(e, c) :: p != MANIFEST && p != BUILD_CONFIG
    requires forall p | p in sorted :: StorablePath(e.unicode, p) && e.unicode.nfc(p) == p && e.unicode.fold(p) != e.unicode.fold(MANIFEST)
    requires forall p | p in sorted :: p in source && |source[p]| <= MAXIMUM_FILE_BYTES && e.scriptFree(p, source[p])
    ensures Packable(e, c, source)
  {
    var u, d, paths := e.unicode, Declared(c), Normal(e, c);
    hide NormalizePackagePath, SafePath, FitsArchive, Ascii;
    forall p | p in d
      ensures u.nfc(p) in sorted && StorablePath(u, p)
    {
      var i :| 0 <= i < |d| && d[i] == p;
      assert paths[i] in paths;
      NormalizedExactly(u, p);
    }
    assert forall i :: 0 <= i < |d| ==> paths[i] == u.nfc(d[i]);
  }

  function SourcesOf(source: map<Bytes, Bytes>, paths: seq<Bytes>): (payload: seq<Entry>)
    requires forall p | p in paths :: p in source
    ensures HoldsSources(source, paths, payload)
  {
    assert forall i :: 0 <= i < |paths| ==> paths[i] in paths;
    seq(|paths|, i requires 0 <= i < |paths| => Entry(paths[i], source[paths[i]]))
  }

  lemma DeclaredNames(e: Services, c: Config, source: map<Bytes, Bytes>)
    requires Lawful(e.unicode) && Packable(e, c, source)
    ensures FoldsApart(e.unicode, Normal(e, c))
    ensures forall p | p in Declared(c) :: StorablePath(e.unicode, p)
    ensures forall p | p in Normal(e, c) :: PackableName(e, source, p)
  {
    var u, d, paths := e.unicode, Declared(c), Normal(e, c);
    hide SafePath, FitsArchive, Declared, Ascii, Normal;
    assert forall p | p in d :: StorablePath(u, p);
    forall i, j | 0 <= i < j < |paths|
      ensures u.fold(paths[i]) != u.fold(paths[j])
    {
      assert paths[i] == u.nfc(d[i]) && paths[j] == u.nfc(d[j]);
    }
    forall p | p in paths
      ensures PackableName(e, source, p)
    {
      var i :| 0 <= i < |d| && paths[i] == p;
      assert d[i] in d && u.nfc(u.nfc(d[i])) == u.nfc(d[i]);
    }
  }

  ghost predicate PackableName(e: Services, source: map<Bytes, Bytes>, p: Bytes) {
    var u := e.unicode;
    && p != MANIFEST && p != BUILD_CONFIG && u.nfc(p) == p && StorablePath(u, p) && u.fold(p) != u.fold(MANIFEST)
    && p in source && |source[p]| <= MAXIMUM_FILE_BYTES && e.scriptFree(p, source[p])
  }

  lemma PackableNames(e: Services, c: Config, source: map<Bytes, Bytes>)
    requires Lawful(e.unicode) && Packable(e, c, source)
    ensures var u, paths := e.unicode, Normal(e, c);
            && FoldsApart(u, paths) && NoClash(u, AsEntries(paths)) && Distinct(u, AsEntries(paths))
            && (forall p | p in Declared(c) :: NormalizePackagePath(u, p).Ok?)
            && (forall p | p in paths :: PackableName(e, source, p) && NormalizePackagePath(u, p).Ok?)
  {
    hide NormalizePackagePath, SafePath, FitsArchive, Ascii, NoClash, Distinct, Lawful, FoldsApart, Packable, Declared, Normal;
    DeclaredNames(e, c, source);
    NormalTwice(e, c);
    forall p | p in Declared(c) || p in Normal(e, c)
      ensures NormalizePackagePath(e.unicode, p).Ok?
    {
      NormalizedExactly(e.unicode, p);
    }
  }

  lemma PackableBuilds(e: Services, c: Config, source: map<Bytes, Bytes>, files: seq<ManifestFile>) returns (payload: seq<Entry>)
    requires e.Faithful() && Packable(e, c, source) && PacksExactly(e, c, source, files) && Fits(e, c, files)
    ensures Parts(e, c, source, payload, e.canonicalJson(ManifestWith(c, files))) && FilesOf(e, payload) == files
  {
    hide NormalizePackagePath, PayloadFrom, SortedPaths, WriteArchive, NoClash, Ascii, Lawful, Packable, PacksExactly, StorablePath,
            Distinct, Normal, FoldsApart, Ascending, FilesTotal, Payload, ManifestFor, AsEntries, FilesOf;
    var u, paths, sorted := e.unicode, Normal(e, c), SortedPaths(Normal(e, c));
    NamesAreFixed(e);
    PackableNames(e, c, source);
    SortedAscends(u, paths);
    payload := SourcesOf(source, sorted);
    FilesOfPayload(e, c, source, payload);
    PackedOnce(e, c, source, files, FilesOf(e, payload));
    ManifestIsWith(e, c, payload);
    PackageIsWritten(e, paths, sorted, source, payload, e.canonicalJson(ManifestWith(c, files)));
  }

  lemma ManifestIsWith(e: Services, c: Config, payload: seq<Entry>)
    ensures ManifestFor(e, c, payload) == ManifestWith(c, FilesOf(e, payload)) && |FilesOf(e, payload)| == |payload|
  {
    hide Ascii;
  }

  lemma PackageIsWritten(e: Services, paths: seq<Bytes>, sorted: seq<Bytes>, source: map<Bytes, Bytes>, payload: seq<Entry>,
          manifestBytes: Bytes)
    requires e.Faithful() && HoldsSources(source, sorted, payload) && Ascending(sorted) && FoldsApart(e.unicode, paths)
    requires forall p :: p in sorted <==> p in paths
    requires forall p | p in paths :: PackableName(e, source, p)
    requires |manifestBytes| <= MAXIMUM_MANIFEST_BYTES && |payload| + 1 <= 9999 && Payload(payload) + |manifestBytes| <= 268435456
    ensures PayloadFrom(e, source, sorted, 0) == Ok(payload)
    ensures WriteArchive(e.unicode, payload + [Entry(MANIFEST, manifestBytes)]).Ok?
  {
    var u := e.unicode;
    NamesAreFixed(e);
    hide PayloadFrom, WriteArchive, Ascii, Lawful, StorablePath, HoldsSources, FoldsApart, Ascending, WriterTakes, Payload;
    PayloadSucceeds(e, source, sorted, 0, payload);
    SortedFoldsApart(u, paths, sorted);
    PackageIsTaken(u, sorted, source, payload, manifestBytes);
    WriterSucceedsExactly(u, payload + [Entry(MANIFEST, manifestBytes)]);
  }

  lemma SortedFoldsApart(u: Unicode, paths: seq<Bytes>, sorted: seq<Bytes>)
    requires FoldsApart(u, paths) && Ascending(sorted) && forall p :: p in sorted <==> p in paths
    ensures FoldsApart(u, sorted)
  {
    forall i, j | 0 <= i < j < |sorted|
      ensures u.fold(sorted[i]) != u.fold(sorted[j])
    {
      CompareZero(sorted[i], sorted[j]);
      assert sorted[i] in paths && sorted[j] in paths;
      var a :| 0 <= a < |paths| && paths[a] == sorted[i];
      var b :| 0 <= b < |paths| && paths[b] == sorted[j];
      assert a != b;
    }
  }

  /** A build succeeds exactly when what is declared can be packed and fits; the manifest
      then is the configuration's, with exactly the declared files. */
  lemma BuildsExactly(e: Services, c: Config, source: map<Bytes, Bytes>)
    requires e.Faithful()
    ensures BuildPackage(e, c, source).Ok? <==>
              Packable(e, c, source) && exists files :: PacksExactly(e, c, source, files) && Fits(e, c, files)
    ensures BuildPackage(e, c, source).Ok? ==>
              var b := BuildPackage(e, c, source).value;
              && PacksExactly(e, c, source, b.manifest.files) && b.manifest == ManifestWith(c, b.manifest.files)
              && b.artifactDigest == e.sha256(b.archive) && b.manifestDigest == e.sha256(e.canonicalJson(b.manifest))
              && b.packageId == c.namespace + "/" + c.name && b.version == c.version
  {
    hide Packable, PacksExactly, Fits, ManifestWith, Parts, BuildPackage;
    BuildParts(e, c, source);
    if BuildPackage(e, c, source).Ok? {
      var payload, manifestBytes :| Parts(e, c, source, payload, manifestBytes);
      PartsPack(e, c, source, payload, manifestBytes);
      ParsedIsWith(e, c, FilesOf(e, payload), manifestBytes);
    } else if Packable(e, c, source) && exists files :: PacksExactly(e, c, source, files) && Fits(e, c, files) {
      var files :| PacksExactly(e, c, source, files) && Fits(e, c, files);
      var payload := PackableBuilds(e, c, source, files);
    }
  }

  lemma ParsedIsWith(e: Services, c: Config, files: seq<ManifestFile>, manifestBytes: Bytes)
    requires e.Faithful() && manifestBytes == e.canonicalJson(ManifestWith(c, files)) && ParseManifest(e, manifestBytes).Ok?
    ensures ParseManifest(e, manifestBytes).value == ManifestWith(c, files)
    ensures ManifestWith(c, files).files == files && ManifestWith(c, files).version == c.version
    ensures PackageId(ManifestWith(c, files)) == c.namespace + "/" + c.name
  {
    hide Ascii, Lawful;
  }

  // ---------- from the source directory to the entries read ----------

  /** The manifest and the declared files, each with the content of its source file. */
  ghost predicate Contents(e: Services, source: map<Bytes, Bytes>, manifest: Manifest, entries: seq<Entry>) {
    && Ascending(PathsOf(entries))
    && (forall f | f in manifest.files :: f.path in source)
    && forall x :: x in entries <==>
         || x == Entry(MANIFEST, e.canonicalJson(manifest))
         || exists f :: f in manifest.files && x == Entry(f.path, source[f.path])
  }

  /** Building a package and reading its archive back gives exactly the manifest and the
      declared source files, unless a name field begins with a compression signature or
      a byte order mark. */
  lemma BuiltReadsBack(e: Services, c: Config, source: map<Bytes, Bytes>)
    requires e.Faithful() && BuildPackage(e, c, source).Ok? && forall p <- c.files :: e.unicode.decodable(p)
    ensures var b := BuildPackage(e, c, source).value;
            exists entries :: Contents(e, source, b.manifest, entries)
                              && (ReadArchive(e.unicode, b.archive) == Ok(entries) <==> StartsPlain(entries) && UnmarkedNames(entries))
  {
    var u, b := e.unicode, BuildPackage(e, c, source).value;
    hide Packable, PacksExactly, Fits, Parts, BuildPackage, NormalizeAll, PayloadFrom, WriteArchive, ReadArchive, Stored, StartsPlain,
            UnmarkedNames, Lawful, Packed, Ascii, Contents;
    BuildsExactly(e, c, source);
    BuildParts(e, c, source);
    var payload, manifestBytes :| Parts(e, c, source, payload, manifestBytes);
    PartsPack(e, c, source, payload, manifestBytes);
    ParsedIsWith(e, c, FilesOf(e, payload), manifestBytes);
    var m := Entry(MANIFEST, manifestBytes);
    PartsArePacked(e, c, source, payload, m);
    StoredIsSplit(e, payload, m);
    RoundTrip(u, payload + [m]);
    StoredContents(e, source, b.manifest, payload, m);
    assert Contents(e, source, b.manifest, Stored(u, payload + [m]));
  }

  lemma PartsArePacked(e: Services, c: Config, source: map<Bytes, Bytes>, payload: seq<Entry>, m: Entry)
    requires e.Faithful() && Parts(e, c, source, payload, m.data) && m.path == MANIFEST && forall p <- c.files :: e.unicode.decodable(p)
    ensures Packed(e, payload, m) && HoldsSources(source, PathsOf(payload), payload)
  {
    hide NormalizePackagePath, PayloadFrom, SortedPaths, WriteArchive, NoClash, Ascii, Lawful, Packed;
    NormalizesExactly(e.unicode, Declared(c));
    assert Declared(c) == [PLAYBOOK, README, LICENSE] + c.files;
    assert NormalizeAll(e.unicode, Declared(c)).value == Normal(e, c);
    BuiltIsPacked(e, c, source, payload, m);
    PayloadExactly(e, source, SortedPaths(Normal(e, c)), 0);
    assert PathsOf(payload) == SortedPaths(Normal(e, c));
  }

  lemma StoredAscends(u: Unicode, entries: seq<Entry>)
    requires Distinct(u, entries) && forall x <- entries :: u.nfc(x.path) == x.path
    ensures Ascending(PathsOf(Stored(u, entries))) && forall x :: x in Stored(u, entries) <==> x in entries
  {
    var stored := Stored(u, entries);
    hide SortByPath, Distinct, Stored, NoDuplicates, Sorted;
    StoredIsPermuted(u, entries);
    StoredIsSorted(u, entries);
    forall i, j | 0 <= i < j < |stored|
      ensures Compare(PathsOf(stored)[i], PathsOf(stored)[j]) < 0
    {
      SortedPair(stored, i, j);
      CompareZero(stored[i].path, stored[j].path);
      DuplicatesDiffer(PathsOf(stored), i, j);
    }
  }

  lemma StoredIsSorted(u: Unicode, entries: seq<Entry>)
    ensures Sorted(Stored(u, entries))
  {
    SortIs(u, Named(u, entries));
    hide SortByPath, Sorted;
  }

  lemma DuplicatesDiffer(keys: seq<Bytes>, i: nat, j: nat)
    requires NoDuplicates(keys) && i < j < |keys|
    ensures keys[i] != keys[j]
  {
  }

  lemma StoredContents(e: Services, source: map<Bytes, Bytes>, manifest: Manifest, payload: seq<Entry>, m: Entry)
    requires Packed(e, payload, m) && HoldsSources(source, PathsOf(payload), payload)
    requires manifest.files == FilesOf(e, payload) && m.data == e.canonicalJson(manifest)
    ensures Contents(e, source, manifest, Stored(e.unicode, payload + [m]))
  {
    var entries := payload + [m];
    hide SortByPath, Distinct, Nameable, SortedPaths, Ascii, NormalizePackagePath, Stored, Ascending;
    StoredAscends(e.unicode, entries);
    hide Packed;
    forall i | 0 <= i < |payload|
      ensures manifest.files[i] in manifest.files && payload[i] in payload
              && payload[i] == Entry(manifest.files[i].path, source[manifest.files[i].path])
    {
      assert PathsOf(payload)[i] == payload[i].path;
    }
    assert forall x :: x in entries <==> x == m || x in payload;
  }
}
