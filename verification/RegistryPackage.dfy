/** Building and verifying a registry package (`src/registry/package-builder.ts`,
    `src/registry/package-verifier.ts`) on top of the archive format. */
module RegistryPackage {
  import opened Wrappers
  import opened Bytes
  import opened PackagePaths
  import opened PackageTar
  import opened ArchiveOrder
  import opened TarTheorems
  import Semver

  const MANIFEST: Bytes := Ascii("manifest.json")
  const BUILD_CONFIG: Bytes := Ascii("dokion-package.json")
  const PLAYBOOK: Bytes := Ascii("playbook.json")
  const README: Bytes := Ascii("README.md")
  const LICENSE: Bytes := Ascii("LICENSE")

  datatype ManifestFile = ManifestFile(path: Bytes, mediaType: string, size: nat, digest: string)

  datatype Compatibility = Compatibility(minimum: Bytes, maximum: Bytes, platforms: Option<seq<string>>)

  datatype Manifest = Manifest(
    namespace: string,
    name: string,
    version: string,
    playbookPath: Bytes,
    readmePath: Bytes,
    licensePath: Bytes,
    compatibility: Compatibility,
    capabilities: Option<seq<string>>,
    files: seq<ManifestFile>)

  /** `dokion-package.json`; an absent maximum version is empty. */
  datatype Config = Config(
    namespace: string,
    name: string,
    version: string,
    compatibility: Compatibility,
    capabilities: Option<seq<string>>,
    files: seq<Bytes>)

  /** The text services, SHA-256, canonical JSON and its schema-checked parser, the
      lifecycle script policy, media types, and the running version and platform. */
  datatype Services = Services(
    unicode: Unicode,
    sha256: Bytes -> string,
    canonicalJson: Manifest -> Bytes,
    parse: Bytes -> Option<Manifest>,
    scriptFree: (Bytes, Bytes) -> bool,
    mediaType: Bytes -> string,
    version: Bytes,
    platform: string)
  {
    /** ASCII text is well-formed and in normal form; parsing canonical JSON gives the
        value back, if it passes the schema at all. */
    ghost predicate Faithful() {
      && Lawful(unicode)
      && (forall s: Bytes :: IsAscii(s) ==> unicode.decodable(s) && unicode.nfc(s) == s)
      && (forall m :: parse(canonicalJson(m)).Some? ==> parse(canonicalJson(m)).value == m)
    }
  }

  predicate IsAscii(s: Bytes) {
    forall i :: 0 <= i < |s| ==> s[i] < 128
  }

  function PackageId(m: Manifest): string {
    m.namespace + "/" + m.name
  }

  function ParseManifest(e: Services, bytes: Bytes): Result<Manifest, Error> {
    if |bytes| > MAXIMUM_MANIFEST_BYTES || e.parse(bytes).None? then Err(ManifestInvalid) else Ok(e.parse(bytes).value)
  }

  // ---------------------------------------------------------------- lists of paths

  function AsEntries(paths: seq<Bytes>): (entries: seq<Entry>)
    ensures |entries| == |paths| && forall i :: 0 <= i < |paths| ==> entries[i] == Entry(paths[i], [])
  {
    seq(|paths|, i requires 0 <= i < |paths| => Entry(paths[i], []))
  }

  function PathsOf(entries: seq<Entry>): (paths: seq<Bytes>)
    ensures |paths| == |entries| && forall i :: 0 <= i < |entries| ==> paths[i] == entries[i].path
  {
    seq(|entries|, i requires 0 <= i < |entries| => entries[i].path)
  }

  /** `[...paths].sort(compareUtf8Bytes)` */
  function SortedPaths(paths: seq<Bytes>): seq<Bytes> {
    PathsOf(SortByPath(AsEntries(paths)))
  }

  /** `assertUniquePackagePaths`, and the normalized paths. */
  function UniquePaths(u: Unicode, paths: seq<Bytes>): (r: Result<seq<Bytes>, Error>)
    ensures r.Ok? ==> |r.value| == |paths|
  {
    RegisterAllIs(u, [], AsEntries(paths));
    var named :- RegisterAll(u, [], AsEntries(paths));
    Ok(PathsOf(named))
  }

  /** `new Map(...)`: a later value replaces an earlier one. */
  function Index<V>(keys: seq<Bytes>, values: seq<V>): map<Bytes, V>
    requires |keys| == |values|
  {
    if keys == [] then map[]
    else
      var n := |keys| - 1;
      Index(keys[..n], values[..n])[keys[n] := values[n]]
  }

  lemma {:induction false} IndexKeys<V>(keys: seq<Bytes>, values: seq<V>)
    requires |keys| == |values|
    ensures forall k :: k in Index(keys, values) <==> k in keys
  {
    if keys != [] {
      var n := |keys| - 1;
      IndexKeys(keys[..n], values[..n]);
      assert keys == keys[..n] + [keys[n]];
    }
  }

  predicate NoDuplicates(keys: seq<Bytes>) {
    forall i, j :: 0 <= i < j < |keys| ==> keys[i] != keys[j]
  }

  lemma {:induction false} IndexAt<V>(keys: seq<Bytes>, values: seq<V>, i: nat)
    requires |keys| == |values| && NoDuplicates(keys) && i < |keys|
    ensures keys[i] in Index(keys, values) && Index(keys, values)[keys[i]] == values[i]
  {
    var n := |keys| - 1;
    if i < n {
      IndexAt(keys[..n], values[..n], i);
    }
  }

  lemma SortedMembers(paths: seq<Bytes>)
    ensures forall p :: p in SortedPaths(paths) <==> p in paths
    ensures |SortedPaths(paths)| == |paths|
  {
    var entries := AsEntries(paths);
    SortLength(entries);
    SortIs(Unicode(b => true, b => b, b => b), entries);
    var sorted := SortByPath(entries);
    forall p: Bytes
      ensures p in PathsOf(sorted) <==> p in paths
    {
      MemberOfPaths(sorted, p);
      MemberOfPaths(entries, p);
      assert PathsOf(entries) == paths;
      assert forall x :: x in sorted <==> x in multiset(sorted);
      assert forall x :: x in entries <==> x in multiset(entries);
    }
  }

  lemma MemberOfPaths(entries: seq<Entry>, p: Bytes)
    ensures p in PathsOf(entries) <==> exists x :: x in entries && x.path == p
  {
    if p in PathsOf(entries) {
      var i :| 0 <= i < |entries| && PathsOf(entries)[i] == p;
      assert entries[i] in entries;
    }
    if exists x :: x in entries && x.path == p {
      var x :| x in entries && x.path == p;
      var i :| 0 <= i < |entries| && entries[i] == x;
      assert PathsOf(entries)[i] == p;
    }
  }

  // ---------------------------------------------------------------- building

  function NormalizeAll(u: Unicode, paths: seq<Bytes>): Result<seq<Bytes>, Error> {
    if paths == [] then Ok([])
    else
      var path :- NormalizePackagePath(u, paths[0]);
      var rest :- NormalizeAll(u, paths[1..]);
      Ok([path] + rest)
  }

  /** The payload loop; `source` holds the regular files of the source directory. */
  function PayloadFrom(e: Services, source: map<Bytes, Bytes>, paths: seq<Bytes>, total: nat): Result<seq<Entry>, Error>
    decreases |paths|
  {
    if paths == [] then Ok([])
    else if paths[0] !in source then Err(DeclaredFileMissing)
    else
      var bytes := source[paths[0]];
      if |bytes| > MAXIMUM_FILE_BYTES then Err(FileTooLarge)
      else if !e.scriptFree(paths[0], bytes) then Err(LifecycleScript)
      else if total + |bytes| > MAXIMUM_TOTAL_PAYLOAD_BYTES then Err(TooLarge)
      else
        var rest :- PayloadFrom(e, source, paths[1..], total + |bytes|);
        Ok([Entry(paths[0], bytes)] + rest)
  }

  function FileOf(e: Services, x: Entry): ManifestFile {
    ManifestFile(x.path, e.mediaType(x.path), |x.data|, e.sha256(x.data))
  }

  function FilesOf(e: Services, entries: seq<Entry>): (files: seq<ManifestFile>)
    ensures |files| == |entries| && forall i :: 0 <= i < |entries| ==> files[i] == FileOf(e, entries[i])
  {
    seq(|entries|, i requires 0 <= i < |entries| => FileOf(e, entries[i]))
  }

  function ManifestFor(e: Services, c: Config, payload: seq<Entry>): Manifest {
    Manifest(c.namespace, c.name, c.version, PLAYBOOK, README, LICENSE, c.compatibility, c.capabilities, FilesOf(e, payload))
  }

  datatype Built = Built(archive: Bytes, artifactDigest: string, manifestDigest: string, packageId: string,
          version: string, manifest: Manifest)

  /** `buildRegistryPackage`. */
  function BuildPackage(e: Services, c: Config, source: map<Bytes, Bytes>): Result<Built, Error> {
    var paths :- NormalizeAll(e.unicode, [PLAYBOOK, README, LICENSE] + c.files);
    if MANIFEST in paths || BUILD_CONFIG in paths then Err(ConfigInvalid)
    else
      var _ :- UniquePaths(e.unicode, paths);
      var payload :- PayloadFrom(e, source, SortedPaths(paths), 0);
      var manifestBytes := e.canonicalJson(ManifestFor(e, c, payload));
      var manifest :- ParseManifest(e, manifestBytes);
      var archive :- WriteArchive(e.unicode, payload + [Entry(MANIFEST, manifestBytes)]);
      Ok(Built(archive, e.sha256(archive), e.sha256(manifestBytes), PackageId(manifest), manifest.version, manifest))
  }

  // ---------------------------------------------------------------- verifying

  /** The entries with, or without, this path. */
  function Filter(entries: seq<Entry>, path: Bytes, equal: bool): (kept: seq<Entry>)
    ensures forall x :: x in kept <==> x in entries && ((x.path == path) == equal)
  {
    if entries == [] then []
    else (if (entries[0].path == path) == equal then [entries[0]] else []) + Filter(entries[1..], path, equal)
  }

  function RequireDeclared(u: Unicode, keys: seq<Bytes>, required: seq<Bytes>): Result<(), Error> {
    if required == [] then Ok(())
    else
      var path :- NormalizePackagePath(u, required[0]);
      if path !in keys then Err(DeclaredFileMissing) else RequireDeclared(u, keys, required[1..])
  }

  /** The checks of each declared file against the archive, in path order. */
  function CheckFiles(e: Services, paths: seq<Bytes>, declared: map<Bytes, ManifestFile>, observed: map<Bytes,
          Entry>): Result<seq<ManifestFile>, Error>
    requires forall p <- paths :: p in declared && p in observed
  {
    if paths == [] then Ok([])
    else
      var (file, x) := (declared[paths[0]], observed[paths[0]]);
      if |x.data| != file.size then Err(SizeMismatch)
      else if e.sha256(x.data) != file.digest then Err(DigestMismatch)
      else if !e.scriptFree(paths[0], x.data) then Err(LifecycleScript)
      else
        var rest :- CheckFiles(e, paths[1..], declared, observed);
        Ok([ManifestFile(paths[0], file.mediaType, file.size, file.digest)] + rest)
  }

  /** `verifyCompatibility`. */
  function VerifyCompatibility(e: Services, c: Compatibility): Result<(), Error> {
    var minimum := Semver.Ordered(e.version, c.minimum);
    if minimum.Err? then Err(ManifestInvalid)
    else if minimum.value < 0 then Err(Incompatible)
    else
      var maximum := Semver.Ordered(e.version, c.maximum);
      if c.maximum != [] && maximum.Err? then Err(ManifestInvalid)
      else if c.maximum != [] && maximum.value > 0 then Err(Incompatible)
      else if c.platforms.Some? && e.platform !in c.platforms.value then Err(Incompatible)
      else Ok(())
  }

  datatype Evidence = Evidence(
    artifactDigest: string,
    artifactSize: nat,
    manifestDigest: string,
    packageId: string,
    version: string,
    files: seq<ManifestFile>)

  /** The manifest against the payload. */
  function MatchFiles(e: Services, manifest: Manifest, payload: seq<Entry>): Result<seq<ManifestFile>, Error> {
    var keys :- UniquePaths(e.unicode, PathsOfFiles(manifest.files));
    var _ :- RequireDeclared(e.unicode, keys, [manifest.playbookPath, manifest.readmePath, manifest.licensePath]);
    if exists p <- PathsOf(payload) :: p !in keys then Err(UndeclaredFile)
    else if exists p <- keys :: p !in PathsOf(payload) then Err(DeclaredFileMissing)
    else
      SortedMembers(keys);
      IndexKeys(keys, manifest.files);
      IndexKeys(PathsOf(payload), payload);
      CheckFiles(e, SortedPaths(keys), Index(keys, manifest.files), Index(PathsOf(payload), payload))
  }

  function PathsOfFiles(files: seq<ManifestFile>): (paths: seq<Bytes>)
    ensures |paths| == |files| && forall i :: 0 <= i < |files| ==> paths[i] == files[i].path
  {
    seq(|files|, i requires 0 <= i < |files| => files[i].path)
  }

  /** `verifyRegistryPackage`; an empty expectation is none. */
  function VerifyPackage(e: Services, bytes: Bytes, expectedId: string, expectedVersion: string): Result<Evidence,
          Error> {
    var entries :- ReadArchive(e.unicode, bytes);
    var manifests := Filter(entries, MANIFEST, true);
    if |manifests| != 1 then Err(ManifestInvalid)
    else
      var manifest :- ParseManifest(e, manifests[0].data);
      if expectedId != "" && expectedId != PackageId(manifest) then Err(IdMismatch)
      else if expectedVersion != "" && expectedVersion != manifest.version then Err(VersionMismatch)
      else
        var files :- MatchFiles(e, manifest, Filter(entries, MANIFEST, false));
        var _ :- VerifyCompatibility(e, manifest.compatibility);
        Ok(Evidence(e.sha256(bytes), |bytes|, e.sha256(manifests[0].data), PackageId(manifest), manifest.version, files))
  }

  // ---------------------------------------------------------------- what acceptance means

  /** A file's size, digest and scripts are as declared. */
  ghost predicate FilePasses(e: Services, path: Bytes, file: ManifestFile, x: Entry) {
    |x.data| == file.size && e.sha256(x.data) == file.digest && e.scriptFree(path, x.data)
  }

  lemma {:induction false} CheckFilesIs(e: Services, paths: seq<Bytes>, declared: map<Bytes, ManifestFile>,
          observed: map<Bytes, Entry>)
    requires forall p <- paths :: p in declared && p in observed
    ensures CheckFiles(e, paths, declared, observed).Ok? <==> forall p <- paths :: FilePasses(e, p, declared[p], observed[p])
    ensures CheckFiles(e, paths, declared, observed).Ok? ==>
              var files := CheckFiles(e, paths, declared, observed).value;
              |files| == |paths| && forall i :: 0 <= i < |paths| ==> files[i] == declared[paths[i]].(path := paths[i])
  {
    if paths != [] {
      CheckFilesIs(e, paths[1..], declared, observed);
      assert paths == [paths[0]] + paths[1..];
    }
  }

  lemma {:induction false} DistinctPaths(u: Unicode, entries: seq<Entry>)
    requires Distinct(u, entries)
    ensures NoDuplicates(PathsOf(entries))
  {
    if entries != [] {
      DistinctPaths(u, entries[1..]);
      var paths := PathsOf(entries);
      forall i, j | 0 <= i < j < |paths|
        ensures paths[i] != paths[j]
      {
        assert PathsOf(entries[1..])[j - 1] == paths[j] && entries[1..][j - 1] in entries[1..];
        if i > 0 { assert PathsOf(entries[1..])[i - 1] == paths[i]; }
      }
    }
  }

  lemma UniquePathsAre(u: Unicode, paths: seq<Bytes>)
    requires UniquePaths(u, paths).Ok?
    ensures var keys := UniquePaths(u, paths).value;
            NoDuplicates(keys) && |keys| == |paths| && forall i :: 0 <= i < |paths| ==> keys[i] == u.nfc(paths[i])
  {
    var entries := AsEntries(paths);
    RegisterAllIs(u, [], entries);
    hide RegisterAll;
    DistinctPaths(u, Named(u, entries));
  }

  lemma {:induction false} FilteredPaths(entries: seq<Entry>, path: Bytes, equal: bool)
    requires NoDuplicates(PathsOf(entries))
    ensures NoDuplicates(PathsOf(Filter(entries, path, equal)))
  {
    if entries != [] {
      var rest := entries[1..];
      assert forall i :: 0 <= i < |rest| ==> PathsOf(entries)[i + 1] == PathsOf(rest)[i];
      FilteredPaths(rest, path, equal);
      var kept := Filter(rest, path, equal);
      forall j | 0 <= j < |kept|
        ensures kept[j].path != entries[0].path
      {
        assert kept[j] in kept;
        var k :| 0 <= k < |rest| && rest[k] == kept[j];
        assert PathsOf(entries)[0] != PathsOf(entries)[k + 1];
      }
    }
  }

  /** Declared file `i` is payload entry `j`. */
  ghost predicate SameFile(e: Services, files: seq<ManifestFile>, payload: seq<Entry>, i: nat, j: nat) {
    && i < |files| && j < |payload|
    && e.unicode.nfc(files[i].path) == payload[j].path
    && FilePasses(e, payload[j].path, files[i], payload[j])
  }

  /** Every declared file is exactly one payload entry, and every payload entry exactly one
      declared file. */
  ghost predicate Bijection(e: Services, files: seq<ManifestFile>, payload: seq<Entry>) {
    && (forall i: nat :: i < |files| ==> InPayload(e, files, payload, i))
    && (forall j: nat :: j < |payload| ==> InManifest(e, files, payload, j))
  }

  ghost predicate InPayload(e: Services, files: seq<ManifestFile>, payload: seq<Entry>, i: nat) {
    exists j: nat :: Only(e, files, payload, i, j)
  }

  ghost predicate InManifest(e: Services, files: seq<ManifestFile>, payload: seq<Entry>, j: nat) {
    exists i: nat :: Only(e, files, payload, i, j)
  }

  /** They are the same file, and neither is the same as any other. */
  ghost predicate Only(e: Services, files: seq<ManifestFile>, payload: seq<Entry>, i: nat, j: nat) {
    && SameFile(e, files, payload, i, j)
    && (forall k: nat :: SameFile(e, files, payload, i, k) ==> k == j)
    && (forall k: nat :: SameFile(e, files, payload, k, j) ==> k == i)
  }

  /** The parts of a successful match. */
  lemma MatchedParts(e: Services, manifest: Manifest, payload: seq<Entry>)
    requires MatchFiles(e, manifest, payload).Ok?
    ensures UniquePaths(e.unicode, PathsOfFiles(manifest.files)).Ok?
    ensures var keys := UniquePaths(e.unicode, PathsOfFiles(manifest.files)).value;
            var (declared, observed) := (Index(keys, manifest.files), Index(PathsOf(payload), payload));
            && (forall p :: p in keys <==> p in PathsOf(payload))
            && (forall p <- keys :: p in declared && p in observed && FilePasses(e, p, declared[p], observed[p]))
  {
    hide UniquePaths, SortedPaths, CheckFiles, RequireDeclared, Index, FilePasses;
    var keys := UniquePaths(e.unicode, PathsOfFiles(manifest.files)).value;
    SortedMembers(keys);
    IndexKeys(keys, manifest.files);
    IndexKeys(PathsOf(payload), payload);
    CheckFilesIs(e, SortedPaths(keys), Index(keys, manifest.files), Index(PathsOf(payload), payload));
  }

  /** The manifest's paths and the payload's paths are the same, once each, and each file
      passes its checks. */
  lemma MatchedFiles(e: Services, manifest: Manifest, payload: seq<Entry>)
    requires NoDuplicates(PathsOf(payload)) && MatchFiles(e, manifest, payload).Ok?
    ensures Bijection(e, manifest.files, payload)
  {
    var files := manifest.files;
    var keys := UniquePaths(e.unicode, PathsOfFiles(files)).value;
    MatchedParts(e, manifest, payload);
    UniquePathsAre(e.unicode, PathsOfFiles(files));
    hide MatchFiles, UniquePaths, Index;
    forall i: nat, j: nat | i < |files| && j < |payload| && keys[i] == payload[j].path
      ensures SameFile(e, files, payload, i, j)
    {
      IndexAt(keys, files, i);
      IndexAt(PathsOf(payload), payload, j);
      assert keys[i] in keys;
    }
    PairedPaths(e, files, payload, keys);
  }

  lemma PairedPaths(e: Services, files: seq<ManifestFile>, payload: seq<Entry>, keys: seq<Bytes>)
    requires |keys| == |files| && NoDuplicates(keys) && NoDuplicates(PathsOf(payload))
    requires forall i :: 0 <= i < |files| ==> keys[i] == e.unicode.nfc(files[i].path)
    requires forall p :: p in keys <==> p in PathsOf(payload)
    requires forall i: nat, j: nat :: i < |files| && j < |payload| && keys[i] == payload[j].path ==>
              SameFile(e, files, payload, i, j)
    ensures Bijection(e, files, payload)
  {
    forall i: nat, j: nat | SameFile(e, files, payload, i, j)
      ensures Only(e, files, payload, i, j)
    {
      assert keys[i] == PathsOf(payload)[j];
    }
    forall i: nat | i < |files|
      ensures InPayload(e, files, payload, i)
    {
      assert keys[i] in PathsOf(payload);
      var j :| 0 <= j < |payload| && PathsOf(payload)[j] == keys[i];
      assert Only(e, files, payload, i, j);
    }
    forall j: nat | j < |payload|
      ensures InManifest(e, files, payload, j)
    {
      assert PathsOf(payload)[j] in keys;
      var i :| 0 <= i < |keys| && keys[i] == PathsOf(payload)[j];
      assert Only(e, files, payload, i, j);
    }
  }

  lemma ReadPathsAreDistinct(u: Unicode, bytes: Bytes)
    requires Lawful(u) && ReadArchive(u, bytes).Ok?
    ensures NoDuplicates(PathsOf(ReadArchive(u, bytes).value))
  {
    var entries := ReadArchive(u, bytes).value;
    hide Lawful, ReadFrom, Acceptables;
    ReadIsAcceptables(u, bytes, [], 0);
    AcceptablesAreStorable(u, [], 0, entries);
    DistinctPaths(u, entries);
  }

  /** An accepted package has one manifest, whose files are the archive's other entries:
      same paths, sizes and digests, each exactly once. */
  lemma AcceptedIsBijection(e: Services, bytes: Bytes, expectedId: string, expectedVersion: string)
    requires Lawful(e.unicode) && VerifyPackage(e, bytes, expectedId, expectedVersion).Ok?
    ensures var entries := ReadArchive(e.unicode, bytes).value;
            var manifests := Filter(entries, MANIFEST, true);
            && ReadArchive(e.unicode, bytes).Ok? && |manifests| == 1 && ParseManifest(e, manifests[0].data).Ok?
            && Bijection(e, ParseManifest(e, manifests[0].data).value.files, Filter(entries, MANIFEST, false))
  {
    hide ReadArchive, MatchFiles, Bijection, Lawful;
    var entries := ReadArchive(e.unicode, bytes).value;
    ReadPathsAreDistinct(e.unicode, bytes);
    FilteredPaths(entries, MANIFEST, false);
    MatchedFiles(e, ParseManifest(e, Filter(entries, MANIFEST, true)[0].data).value, Filter(entries, MANIFEST, false));
  }

  // ---------------------------------------------------------------- what is built is accepted

  lemma {:induction false} PayloadIs(e: Services, source: map<Bytes, Bytes>, paths: seq<Bytes>, total: nat)
    requires PayloadFrom(e, source, paths, total).Ok?
    ensures var payload := PayloadFrom(e, source, paths, total).value;
            PathsOf(payload) == paths && forall x <- payload :: e.scriptFree(x.path, x.data)
    decreases |paths|
  {
    if paths != [] {
      PayloadIs(e, source, paths[1..], total + |source[paths[0]]|);
    }
  }

  lemma {:induction false} NormalizedAre(u: Unicode, paths: seq<Bytes>)
    requires Lawful(u) && NormalizeAll(u, paths).Ok? && forall p <- paths :: u.decodable(p)
    ensures var normal := NormalizeAll(u, paths).value;
            && |normal| == |paths|
            && (forall i :: 0 <= i < |paths| ==> NormalizePackagePath(u, paths[i]) == Ok(normal[i]) && normal[i] == u.nfc(paths[i]))
            && (forall p <- normal :: u.decodable(p) && u.nfc(p) == p)
  {
    hide NormalizePackagePath;
    if paths != [] {
      assert paths[0] in paths;
      NormalizedAre(u, paths[1..]);
    }
  }

  lemma {:induction false} FilterOne(entries: seq<Entry>, x: Entry)
    requires NoDuplicates(PathsOf(entries)) && x in entries
    ensures Filter(entries, x.path, true) == [x]
  {
    var rest := entries[1..];
    assert forall i :: 0 <= i < |rest| ==> PathsOf(entries)[i + 1] == PathsOf(rest)[i];
    var i :| 0 <= i < |entries| && entries[i] == x;
    assert i > 0 ==> PathsOf(entries)[0] != PathsOf(entries)[i];
    if i == 0 {
      forall y | y in rest
        ensures y.path != x.path
      {
        var k :| 0 <= k < |rest| && rest[k] == y;
        assert PathsOf(entries)[0] != PathsOf(entries)[k + 1];
      }
      NothingKept(rest, x.path);
    } else {
      FilterOne(rest, x);
    }
  }

  lemma NothingKept(entries: seq<Entry>, path: Bytes)
    requires forall x <- entries :: x.path != path
    ensures Filter(entries, path, true) == []
  {
  }

  /** Sorting a sorted list of paths changes nothing. */
  lemma SortedTwice(paths: seq<Bytes>)
    ensures SortedPaths(SortedPaths(paths)) == SortedPaths(paths)
  {
    var sorted := SortByPath(AsEntries(paths));
    SortIs(Unicode(b => true, b => b, b => b), AsEntries(paths));
    forall x | x in sorted
      ensures x.data == []
    {
      assert x in multiset(sorted);
      assert x in AsEntries(paths);
    }
    assert AsEntries(PathsOf(sorted)) == sorted by {
      assert forall i :: 0 <= i < |sorted| ==> sorted[i] in sorted;
    }
    SortKeepsSorted(sorted);
  }

  lemma {:induction false} DistinctByPaths(u: Unicode, a: seq<Entry>, b: seq<Entry>)
    requires PathsOf(a) == PathsOf(b) && Distinct(u, a)
    ensures Distinct(u, b)
  {
    if b != [] {
      assert PathsOf(a)[1..] == PathsOf(a[1..]) && PathsOf(b)[1..] == PathsOf(b[1..]);
      assert PathsOf(a)[0] == a[0].path == b[0].path;
      DistinctByPaths(u, a[1..], b[1..]);
      forall y | y in b[1..]
        ensures u.fold(y.path) != u.fold(b[0].path)
      {
        var k :| 0 <= k < |b[1..]| && b[1..][k] == y;
        assert PathsOf(a[1..])[k] == PathsOf(b[1..])[k];
        assert a[1..][k] in a[1..];
      }
    }
  }

  /** What a successful build has stored: the sorted payload and the manifest, under
      distinct paths in normal form. */
  ghost predicate Packed(e: Services, payload: seq<Entry>, manifest: Entry) {
    var entries := payload + [manifest];
    && manifest.path == MANIFEST
    && Distinct(e.unicode, entries)
    && (forall x <- entries :: Nameable(e.unicode, x) && e.unicode.nfc(x.path) == x.path && e.unicode.decodable(x.path))
    && (forall x <- payload :: e.scriptFree(x.path, x.data))
    && SortedPaths(PathsOf(payload)) == PathsOf(payload)
    && (forall p :: p in [PLAYBOOK, README, LICENSE] ==> NormalizePackagePath(e.unicode, p) == Ok(p) && p in PathsOf(payload))
  }

  lemma RequiredAreNormal(e: Services, p: Bytes, normal: seq<Bytes>, i: nat)
    requires e.Faithful() && IsAscii(p) && i < |normal| && NormalizePackagePath(e.unicode, p) == Ok(normal[i])
    ensures normal[i] == p && p in normal && NormalizePackagePath(e.unicode, p) == Ok(p)
  {
    hide NormalizePackagePath, Lawful;
  }

  lemma BuiltIsPacked(e: Services, c: Config, source: map<Bytes, Bytes>, payload: seq<Entry>, manifest: Entry)
    requires e.Faithful() && forall p <- c.files :: e.unicode.decodable(p)
    requires var paths := NormalizeAll(e.unicode, [PLAYBOOK, README, LICENSE] + c.files);
             paths.Ok? && PayloadFrom(e, source, SortedPaths(paths.value), 0) == Ok(payload)
    requires manifest.path == MANIFEST && WriteArchive(e.unicode, payload + [manifest]).Ok?
    ensures Packed(e, payload, manifest)
  {
    hide NormalizePackagePath, Lawful, NormalizeAll, PayloadFrom, SortedPaths, WriteArchive, Distinct, Nameable,
            IsAscii, Ascii;
    var u := e.unicode;
    var paths := NormalizeAll(u, [PLAYBOOK, README, LICENSE] + c.files).value;
    NamesAreAscii(e);
    DeclaredAreNormal(e, c.files, paths);
    PayloadIs(e, source, SortedPaths(paths), 0);
    SortedMembers(paths);
    SortedTwice(paths);
    WrittenAreDistinct(u, payload + [manifest], paths, payload, manifest);
  }

  lemma NamesAreAscii(e: Services)
    requires e.Faithful()
    ensures IsAscii(PLAYBOOK) && IsAscii(README) && IsAscii(LICENSE)
    ensures e.unicode.decodable(MANIFEST) && e.unicode.nfc(MANIFEST) == MANIFEST
    ensures e.unicode.decodable(PLAYBOOK) && e.unicode.decodable(README) && e.unicode.decodable(LICENSE)
  {
    assert IsAscii(PLAYBOOK) && IsAscii(README) && IsAscii(LICENSE) && IsAscii(MANIFEST);
    hide Lawful, IsAscii;
  }

  lemma DeclaredAreNormal(e: Services, files: seq<Bytes>, paths: seq<Bytes>)
    requires e.Faithful() && NormalizeAll(e.unicode, [PLAYBOOK, README, LICENSE] + files) == Ok(paths)
    requires forall p <- files :: e.unicode.decodable(p)
    ensures forall p <- paths :: e.unicode.decodable(p) && e.unicode.nfc(p) == p
    ensures forall p :: p in [PLAYBOOK, README, LICENSE] ==> NormalizePackagePath(e.unicode, p) == Ok(p) && p in paths
  {
    hide NormalizePackagePath, Lawful, NormalizeAll, IsAscii, Ascii;
    var declared := [PLAYBOOK, README, LICENSE] + files;
    NamesAreAscii(e);
    NormalizedAre(e.unicode, declared);
    assert declared[0] == PLAYBOOK && declared[1] == README && declared[2] == LICENSE;
    RequiredAreNormal(e, PLAYBOOK, paths, 0);
    RequiredAreNormal(e, README, paths, 1);
    RequiredAreNormal(e, LICENSE, paths, 2);
  }

  lemma WrittenAreDistinct(u: Unicode, entries: seq<Entry>, paths: seq<Bytes>, payload: seq<Entry>, manifest: Entry)
    requires WriteArchive(u, entries).Ok? && entries == payload + [manifest]
    requires forall p :: p in PathsOf(payload) <==> p in paths
    requires forall p <- paths :: u.decodable(p) && u.nfc(p) == p
    requires u.decodable(manifest.path) && u.nfc(manifest.path) == manifest.path
    ensures Distinct(u, entries)
    ensures forall x <- entries :: Nameable(u, x) && u.nfc(x.path) == x.path && u.decodable(x.path)
  {
    WriterParts(u, entries);
    RegisterAllIs(u, [], entries);
    hide NormalizePackagePath, WriteArchive, RegisterAll, Distinct, Nameable;
    forall x | x in entries
      ensures u.nfc(x.path) == x.path && u.decodable(x.path)
    {
      if x in payload {
        MemberOfPaths(payload, x.path);
      }
    }
    assert Named(u, entries) == entries;
  }

  /** Under the names it was built with, the manifest matches the payload. */
  lemma PackedMatches(e: Services, manifest: Manifest, payload: seq<Entry>, stored: seq<Entry>, m: Entry)
    requires Packed(e, payload, m) && manifest.files == FilesOf(e, payload)
    requires manifest.playbookPath == PLAYBOOK && manifest.readmePath == README && manifest.licensePath == LICENSE
    requires NoDuplicates(PathsOf(stored)) && forall x :: x in stored <==> x in payload
    ensures MatchFiles(e, manifest, stored) == Ok(manifest.files)
  {
    hide UniquePaths, SortedPaths, Distinct, Nameable, NormalizePackagePath, CheckFiles, MatchFiles, Index,
            RequireDeclared, Ascii;
    var keys := PathsOf(payload);
    PackedKeys(e, payload, m);
    RequiredAreDeclared(e.unicode, keys);
    forall p: Bytes
      ensures p in PathsOf(stored) <==> p in keys
    {
      MemberOfPaths(stored, p);
      MemberOfPaths(payload, p);
    }
    PackedFilesPass(e, payload, stored, keys, manifest.files);
    assert PathsOfFiles(manifest.files) == keys;
    MatchesWhen(e, manifest, stored, keys);
  }

  lemma MatchesWhen(e: Services, manifest: Manifest, payload: seq<Entry>, keys: seq<Bytes>)
    requires UniquePaths(e.unicode, PathsOfFiles(manifest.files)) == Ok(keys) && SortedPaths(keys) == keys
    requires RequireDeclared(e.unicode, keys, [manifest.playbookPath, manifest.readmePath, manifest.licensePath]).Ok?
    requires forall p :: p in PathsOf(payload) <==> p in keys
    requires var (declared, observed) := (Index(keys, manifest.files), Index(PathsOf(payload), payload));
             (forall p <- keys :: p in declared && p in observed) && CheckFiles(e, keys, declared, observed) == Ok(manifest.files)
    ensures MatchFiles(e, manifest, payload) == Ok(manifest.files)
  {
    hide UniquePaths, SortedPaths, CheckFiles, Index, RequireDeclared, Ascii;
  }

  lemma RequiredAreDeclared(u: Unicode, keys: seq<Bytes>)
    requires forall p :: p in [PLAYBOOK, README, LICENSE] ==> NormalizePackagePath(u, p) == Ok(p) && p in keys
    ensures RequireDeclared(u, keys, [PLAYBOOK, README, LICENSE]).Ok?
  {
    hide NormalizePackagePath;
    assert [PLAYBOOK, README, LICENSE][1..] == [README, LICENSE] && [README, LICENSE][1..] == [LICENSE] && [LICENSE][1..] == [];
    assert RequireDeclared(u, keys, []).Ok?;
    assert RequireDeclared(u, keys, [LICENSE]).Ok?;
    assert RequireDeclared(u, keys, [README, LICENSE]).Ok?;
  }

  lemma PackedKeys(e: Services, payload: seq<Entry>, m: Entry)
    requires Packed(e, payload, m)
    ensures UniquePaths(e.unicode, PathsOf(payload)) == Ok(PathsOf(payload)) && NoDuplicates(PathsOf(payload))
  {
    var u, entries, named := e.unicode, payload + [m], AsEntries(PathsOf(payload));
    hide SortedPaths, NormalizePackagePath, RegisterAll, SortByPath;
    DistinctWithout(u, entries, |payload|);
    assert Without(entries, |payload|) == payload;
    DistinctByPaths(u, payload, named);
    forall x | x in named
      ensures Nameable(u, x)
    {
      var i :| 0 <= i < |named| && named[i] == x;
      assert payload[i] in entries;
    }
    forall i | 0 <= i < |named|
      ensures NamedEntry(u, named[i]) == named[i]
    {
      assert payload[i] in entries;
    }
    assert Named(u, named) == named;
    RegisterAllIs(u, [], named);
    DistinctPaths(u, named);
    assert PathsOf(named) == PathsOf(payload);
  }

  lemma PackedFilesPass(e: Services, payload: seq<Entry>, stored: seq<Entry>, keys: seq<Bytes>,
          files: seq<ManifestFile>)
    requires keys == PathsOf(payload) && files == FilesOf(e, payload) && NoDuplicates(keys)
    requires NoDuplicates(PathsOf(stored)) && forall x :: x in stored <==> x in payload
    requires forall x <- payload :: e.scriptFree(x.path, x.data)
    ensures forall p <- keys :: p in Index(keys, files) && p in Index(PathsOf(stored), stored)
    ensures CheckFiles(e, keys, Index(keys, files), Index(PathsOf(stored), stored)) == Ok(files)
  {
    var declared, observed := Index(keys, files), Index(PathsOf(stored), stored);
    forall i | 0 <= i < |keys|
      ensures keys[i] in declared && declared[keys[i]] == FileOf(e, payload[i]) && keys[i] in observed && observed[keys[i]] == payload[i]
    {
      IndexAt(keys, files, i);
      assert payload[i] in stored;
      var k :| 0 <= k < |stored| && stored[k] == payload[i];
      IndexAt(PathsOf(stored), stored, k);
    }
    forall p | p in keys
      ensures p in declared && p in observed && FilePasses(e, p, declared[p], observed[p])
    {
      var i :| 0 <= i < |keys| && keys[i] == p;
      assert payload[i] in payload;
    }
    hide Index;
    CheckFilesIs(e, keys, declared, observed);
    assert CheckFiles(e, keys, declared, observed).value == files;
  }

  /** Build, then verify: an archive that reads back (see `TarTheorems.RoundTrip`) is
      accepted exactly when the running version and platform are compatible and the
      expectations fit, with the digests, id, version and files of the build. */
  lemma BuiltIsAccepted(e: Services, c: Config, source: map<Bytes, Bytes>, expectedId: string, expectedVersion: string)
    requires e.Faithful() && BuildPackage(e, c, source).Ok? && forall p <- c.files :: e.unicode.decodable(p)
    requires var b := BuildPackage(e, c, source).value;
             var entries := WrittenEntries(e, c, source);
             StartsPlain(Stored(e.unicode, entries)) && UnmarkedNames(Stored(e.unicode, entries))
    ensures var b := BuildPackage(e, c, source).value;
            && (VerifyPackage(e, b.archive, expectedId, expectedVersion).Ok? <==>
                  && VerifyCompatibility(e, c.compatibility).Ok?
                  && (expectedId == "" || expectedId == b.packageId) && (expectedVersion == "" || expectedVersion == b.version))
            && (VerifyPackage(e, b.archive, expectedId, expectedVersion).Ok? ==>
                  VerifyPackage(e, b.archive, expectedId, expectedVersion).value
                  == Evidence(b.artifactDigest, |b.archive|, b.manifestDigest, b.packageId, b.version, b.manifest.files))
  {
    hide BuildPackage, VerifyPackage, WriteArchive, ReadArchive, MatchFiles, Packed, Stored, StartsPlain,
            UnmarkedNames, VerifyCompatibility, Filter, Lawful, Ascii;
    var b := BuildPackage(e, c, source).value;
    var payload, m := BuildParts(e, c, source);
    var entries := payload + [m];
    StoredIsSplit(e, payload, m);
    RoundTrip(e.unicode, entries);
    var stored := Stored(e.unicode, entries);
    PackedMatches(e, b.manifest, payload, Filter(stored, MANIFEST, false), m);
    VerifiesWhen(e, b.archive, expectedId, expectedVersion, stored, m, b.manifest);
  }

  /** The parts of a successful build. */
  lemma BuildParts(e: Services, c: Config, source: map<Bytes, Bytes>) returns (payload: seq<Entry>, m: Entry)
    requires e.Faithful() && BuildPackage(e, c, source).Ok? && forall p <- c.files :: e.unicode.decodable(p)
    ensures Packed(e, payload, m) && WrittenEntries(e, c, source) == payload + [m]
    ensures var b := BuildPackage(e, c, source).value;
            && WriteArchive(e.unicode, payload + [m]) == Ok(b.archive)
            && ParseManifest(e, m.data) == Ok(b.manifest) && b.manifest == ManifestFor(e, c, payload)
            && b.artifactDigest == e.sha256(b.archive) && b.manifestDigest == e.sha256(m.data)
            && b.packageId == PackageId(b.manifest) && b.version == b.manifest.version
  {
    hide NormalizeAll, PayloadFrom, SortedPaths, WriteArchive, UniquePaths, Packed, Lawful, Ascii;
    var paths := NormalizeAll(e.unicode, [PLAYBOOK, README, LICENSE] + c.files).value;
    payload := PayloadFrom(e, source, SortedPaths(paths), 0).value;
    m := Entry(MANIFEST, e.canonicalJson(ManifestFor(e, c, payload)));
    BuiltIsPacked(e, c, source, payload, m);
  }

  lemma VerifiesWhen(e: Services, bytes: Bytes, expectedId: string, expectedVersion: string, entries: seq<Entry>,
          m: Entry, manifest: Manifest)
    requires ReadArchive(e.unicode, bytes) == Ok(entries) && Filter(entries, MANIFEST, true) == [m]
    requires ParseManifest(e, m.data) == Ok(manifest)
    requires MatchFiles(e, manifest, Filter(entries, MANIFEST, false)) == Ok(manifest.files)
    ensures VerifyPackage(e, bytes, expectedId, expectedVersion).Ok? <==>
              && VerifyCompatibility(e, manifest.compatibility).Ok?
              && (expectedId == "" || expectedId == PackageId(manifest)) && (expectedVersion == "" || expectedVersion == manifest.version)
    ensures VerifyPackage(e, bytes, expectedId, expectedVersion).Ok? ==>
              VerifyPackage(e, bytes, expectedId, expectedVersion).value
              == Evidence(e.sha256(bytes), |bytes|, e.sha256(m.data), PackageId(manifest), manifest.version, manifest.files)
  {
    hide ReadArchive, MatchFiles, Filter, VerifyCompatibility, ParseManifest, PackageId, Ascii;
  }

  /** What a successful build hands to the archive writer. */
  function WrittenEntries(e: Services, c: Config, source: map<Bytes, Bytes>): seq<Entry>
    requires BuildPackage(e, c, source).Ok?
  {
    var paths := NormalizeAll(e.unicode, [PLAYBOOK, README, LICENSE] + c.files).value;
    var payload := PayloadFrom(e, source, SortedPaths(paths), 0).value;
    payload + [Entry(MANIFEST, e.canonicalJson(ManifestFor(e, c, payload)))]
  }

  lemma StoredIsSplit(e: Services, payload: seq<Entry>, m: Entry)
    requires Packed(e, payload, m)
    ensures var stored := Stored(e.unicode, payload + [m]);
            && Filter(stored, MANIFEST, true) == [m]
            && NoDuplicates(PathsOf(Filter(stored, MANIFEST, false)))
            && forall x :: x in Filter(stored, MANIFEST, false) <==> x in payload
    ensures forall x <- payload + [m] :: e.unicode.decodable(x.path)
  {
    hide SortedPaths, Nameable, NormalizePackagePath, SortByPath, Ascii, Distinct, Filter;
    var u, entries := e.unicode, payload + [m];
    var stored := Stored(u, entries);
    StoredIsPermuted(u, entries);
    FilterOne(stored, m);
    FilteredPaths(stored, MANIFEST, false);
    forall x | x in payload
      ensures x.path != MANIFEST
    {
      var i :| 0 <= i < |payload| && payload[i] == x;
      assert PathsOf(entries)[i] != PathsOf(entries)[|payload|];
    }
  }

  /** Entries in normal form and without clashes are only reordered. */
  lemma StoredIsPermuted(u: Unicode, entries: seq<Entry>)
    requires Distinct(u, entries) && forall x <- entries :: u.nfc(x.path) == x.path
    ensures forall x :: x in Stored(u, entries) <==> x in entries
    ensures NoDuplicates(PathsOf(Stored(u, entries))) && NoDuplicates(PathsOf(entries))
  {
    hide SortByPath, Distinct;
    forall i | 0 <= i < |entries|
      ensures NamedEntry(u, entries[i]) == entries[i]
    {
      assert entries[i] in entries;
    }
    assert Named(u, entries) == entries;
    var stored := Stored(u, entries);
    SortIs(u, entries);
    assert forall x :: x in stored <==> x in multiset(stored);
    assert forall x :: x in entries <==> x in multiset(entries);
    DistinctPermuted(u, entries, stored);
    DistinctPaths(u, stored);
    DistinctPaths(u, entries);
  }

  // ---------------------------------------------------------------- the program

  /** The payload loop of the builder. */
  method CollectPayload(e: Services, source: map<Bytes, Bytes>, paths: seq<Bytes>)
    returns (r: Result<seq<Entry>, Error>)
    ensures r == PayloadFrom(e, source, paths, 0)
  {
    var tarEntries: seq<Entry> := [];
    var totalPayloadBytes: nat := 0;
    assert paths[0..] == paths;
    PrefixedByNothing(PayloadFrom(e, source, paths, 0));
    for i: nat := 0 to |paths|
      invariant PayloadFrom(e, source, paths, 0) == Prefixed(tarEntries, PayloadFrom(e, source, paths[i..], totalPayloadBytes))
    {
      var path := paths[i];
      assert paths[i..][0] == path && paths[i..][1..] == paths[i + 1..];
      if path !in source { return Err(DeclaredFileMissing); }
      var bytes := source[path];
      if |bytes| > MAXIMUM_FILE_BYTES { return Err(FileTooLarge); }
      if !e.scriptFree(path, bytes) { return Err(LifecycleScript); }
      totalPayloadBytes := totalPayloadBytes + |bytes|;
      if totalPayloadBytes > MAXIMUM_TOTAL_PAYLOAD_BYTES { return Err(TooLarge); }
      PrefixedTwice(tarEntries, [Entry(path, bytes)], PayloadFrom(e, source, paths[i + 1..], totalPayloadBytes));
      tarEntries := tarEntries + [Entry(path, bytes)];
    }
    assert tarEntries + [] == tarEntries;
    return Ok(tarEntries);
  }

  method BuildRegistryPackage(e: Services, c: Config, source: map<Bytes, Bytes>) returns (r: Result<Built, Error>)
    ensures r == BuildPackage(e, c, source)
  {
    hide NormalizeAll, PayloadFrom, WriteArchive, RegisterAll, SortedPaths, Ascii;
    var paths :- NormalizeAll(e.unicode, [PLAYBOOK, README, LICENSE] + c.files);
    if MANIFEST in paths || BUILD_CONFIG in paths { return Err(ConfigInvalid); }
    var _ :- RegisterEntries(e.unicode, AsEntries(paths));
    var payload :- CollectPayload(e, source, SortedPaths(paths));
    var manifestBytes := e.canonicalJson(ManifestFor(e, c, payload));
    var manifest :- ParseManifest(e, manifestBytes);
    var archive :- CreateDeterministicPackageTar(e.unicode, payload + [Entry(MANIFEST, manifestBytes)]);
    return Ok(Built(archive, e.sha256(archive), e.sha256(manifestBytes), PackageId(manifest), manifest.version, manifest));
  }

  /** The loop over the declared files in path order. */
  method VerifyFiles(e: Services, paths: seq<Bytes>, declared: map<Bytes, ManifestFile>, observed: map<Bytes, Entry>)
    returns (r: Result<seq<ManifestFile>, Error>)
    requires forall p <- paths :: p in declared && p in observed
    ensures r == CheckFiles(e, paths, declared, observed)
  {
    var verifiedFiles: seq<ManifestFile> := [];
    assert paths[0..] == paths;
    var all := CheckFiles(e, paths, declared, observed);
    PrefixedByNothing(all);
    for i: nat := 0 to |paths|
      invariant all == Prefixed(verifiedFiles, CheckFiles(e, paths[i..], declared, observed))
    {
      var path := paths[i];
      assert paths[i..][0] == path && paths[i..][1..] == paths[i + 1..];
      var declaration, entry := declared[path], observed[path];
      if |entry.data| != declaration.size { return Err(SizeMismatch); }
      var digest := e.sha256(entry.data);
      if digest != declaration.digest { return Err(DigestMismatch); }
      if !e.scriptFree(path, entry.data) { return Err(LifecycleScript); }
      var file := ManifestFile(path, declaration.mediaType, declaration.size, digest);
      PrefixedTwice(verifiedFiles, [file], CheckFiles(e, paths[i + 1..], declared, observed));
      verifiedFiles := verifiedFiles + [file];
    }
    assert verifiedFiles + [] == verifiedFiles;
    return Ok(verifiedFiles);
  }

  /** The loop over the required paths. */
  method RequirePaths(u: Unicode, keys: seq<Bytes>, required: seq<Bytes>) returns (r: Result<(), Error>)
    ensures r == RequireDeclared(u, keys, required)
  {
    hide NormalizePackagePath;
    assert required[0..] == required;
    for i: nat := 0 to |required|
      invariant RequireDeclared(u, keys, required) == RequireDeclared(u, keys, required[i..])
    {
      assert required[i..][0] == required[i] && required[i..][1..] == required[i + 1..];
      var path :- NormalizePackagePath(u, required[i]);
      if path !in keys { return Err(DeclaredFileMissing); }
    }
    return Ok(());
  }

  /** The loops over the archive's entries and over the declared paths. */
  method ComparePaths(keys: seq<Bytes>, observed: seq<Bytes>) returns (r: Result<(), Error>)
    ensures r == if exists p <- observed :: p !in keys then Err(UndeclaredFile)
                 else if exists p <- keys :: p !in observed then Err(DeclaredFileMissing) else Ok(())
  {
    for j: nat := 0 to |observed|
      invariant forall k :: 0 <= k < j ==> observed[k] in keys
    {
      if observed[j] !in keys { return Err(UndeclaredFile); }
    }
    for j: nat := 0 to |keys|
      invariant forall k :: 0 <= k < j ==> keys[k] in observed
    {
      if keys[j] !in observed { return Err(DeclaredFileMissing); }
    }
    return Ok(());
  }

  /** The manifest against the payload. */
  method MatchRegistryFiles(e: Services, manifest: Manifest, payload: seq<Entry>)
    returns (r: Result<seq<ManifestFile>, Error>)
    ensures r == MatchFiles(e, manifest, payload)
  {
    hide NormalizePackagePath, RegisterAll, SortedPaths, Index, CheckFiles, RequireDeclared;
    var declaredPaths := PathsOfFiles(manifest.files);
    RegisterAllIs(e.unicode, [], AsEntries(declaredPaths));
    var named :- RegisterEntries(e.unicode, AsEntries(declaredPaths));
    var keys := PathsOf(named);
    var _ :- RequirePaths(e.unicode, keys, [manifest.playbookPath, manifest.readmePath, manifest.licensePath]);
    var observedPaths := PathsOf(payload);
    var _ :- ComparePaths(keys, observedPaths);
    var declared, observed := Index(keys, manifest.files), Index(observedPaths, payload);
    SortedMembers(keys);
    IndexKeys(keys, manifest.files);
    IndexKeys(observedPaths, payload);
    r := VerifyFiles(e, SortedPaths(keys), declared, observed);
  }

  method VerifyRegistryPackage(e: Services, bytes: Bytes, expectedId: string, expectedVersion: string)
    returns (r: Result<Evidence, Error>)
    ensures r == VerifyPackage(e, bytes, expectedId, expectedVersion)
  {
    hide ReadArchive, MatchFiles, Ascii;
    var entries :- ReadRegistryPackageTar(e.unicode, bytes);
    var manifestEntries := Filter(entries, MANIFEST, true);
    if |manifestEntries| != 1 { return Err(ManifestInvalid); }
    var manifest :- ParseManifest(e, manifestEntries[0].data);
    var packageId := PackageId(manifest);
    if expectedId != "" && expectedId != packageId { return Err(IdMismatch); }
    if expectedVersion != "" && expectedVersion != manifest.version { return Err(VersionMismatch); }
    var files :- MatchRegistryFiles(e, manifest, Filter(entries, MANIFEST, false));
    var _ :- VerifyCompatibility(e, manifest.compatibility);
    return Ok(Evidence(e.sha256(bytes), |bytes|, e.sha256(manifestEntries[0].data), packageId, manifest.version, files));
  }
}
