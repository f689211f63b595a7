/** Which packages `verifyRegistryPackage` (`src/registry/package-verifier.ts`) accepts, and
    what each refusal means. */
module PackageAcceptance {
  import opened Wrappers
  import opened Bytes
  import opened PackagePaths
  import opened PackageTar
  import opened ArchiveOrder
  import opened PathSafety
  import opened ArchiveAcceptance
  import opened RegistryPackage
  import opened PackageContents
  import Semver

  // ---------- versions and platforms ----------

  predicate IsVersion(text: Bytes) {
    Semver.Parse(text).Ok?
  }

  /** The first version is below the second. */
  ghost predicate Below(a: Bytes, b: Bytes) {
    IsVersion(a) && IsVersion(b) && Semver.Precedes(Semver.Parse(a).value, Semver.Parse(b).value)
  }

  /** The running version is not below the least nor above the greatest, and the platform
      is among those listed. */
  ghost predicate Compatible(e: Services, c: Compatibility) {
    && IsVersion(e.version) && IsVersion(c.minimum) && !Below(e.version, c.minimum)
    && (c.maximum != [] ==> IsVersion(c.maximum) && !Below(c.maximum, e.version))
    && (c.platforms.Some? ==> e.platform in c.platforms.value)
  }

  lemma OrderedIs(a: Bytes, b: Bytes)
    ensures Semver.Ordered(a, b).Ok? <==> IsVersion(a) && IsVersion(b)
    ensures Semver.Ordered(a, b).Ok? ==> (Semver.Ordered(a, b).value < 0 <==> Below(a, b)) && (Semver.Ordered(a, b).value > 0 <==> Below(b, a))
  {
    if IsVersion(a) && IsVersion(b) {
      Semver.ComparesByPrecedence(Semver.Parse(a).value, Semver.Parse(b).value);
    }
  }

  /** A package is compatible exactly then; otherwise a version that is none makes the
      manifest invalid, unless the running version is already known to be too low. */
  lemma CompatibleExactly(e: Services, c: Compatibility)
    ensures VerifyCompatibility(e, c).Ok? <==> Compatible(e, c)
    ensures VerifyCompatibility(e, c) == Err(ManifestInvalid)
            <==> !IsVersion(e.version) || !IsVersion(c.minimum)
                 || (!Below(e.version, c.minimum) && c.maximum != [] && !IsVersion(c.maximum))
    ensures VerifyCompatibility(e, c).Err? ==> VerifyCompatibility(e, c).error in {ManifestInvalid, Incompatible}
  {
    hide Semver.Ordered, IsVersion, Below;
    OrderedIs(e.version, c.minimum);
    OrderedIs(e.version, c.maximum);
  }

  // ---------- the manifest against the entries ----------

  ghost predicate AcceptedPath(u: Unicode, path: Bytes) {
    SafePath(path) && FitsArchive(u.nfc(path))
  }

  ghost predicate Names(u: Unicode, files: seq<ManifestFile>, path: Bytes) {
    exists i :: 0 <= i < |files| && u.nfc(files[i].path) == path
  }

  /** The file is in the archive, with the declared size and digest and no lifecycle script. */
  ghost predicate IsPacked(e: Services, payload: seq<Entry>, f: ManifestFile) {
    exists x | x in payload ::
      && x.path == e.unicode.nfc(f.path) && |x.data| == f.size && e.sha256(x.data) == f.digest
      && e.scriptFree(x.path, x.data)
  }

  ghost predicate RequiredDeclared(e: Services, manifest: Manifest) {
    forall p | p in [manifest.playbookPath, manifest.readmePath, manifest.licensePath] ::
      AcceptedPath(e.unicode, p) && Names(e.unicode, manifest.files, e.unicode.nfc(p))
  }

  ghost predicate GoodPaths(u: Unicode, files: seq<ManifestFile>) {
    && (forall f | f in files :: AcceptedPath(u, f.path))
    && (forall i, j :: 0 <= i < j < |files| ==> u.fold(u.nfc(files[i].path)) != u.fold(u.nfc(files[j].path)))
  }

  /** The declared paths are acceptable and distinct, the required ones are declared, every
      declared file is packed and every packed file declared. */
  ghost predicate Agrees(e: Services, manifest: Manifest, payload: seq<Entry>) {
    var (u, files) := (e.unicode, manifest.files);
    && GoodPaths(u, files) && RequiredDeclared(e, manifest)
    && (forall f | f in files :: IsPacked(e, payload, f))
    && (forall x | x in payload :: Names(u, files, x.path))
  }

  lemma AcceptedExactly(u: Unicode, path: Bytes)
    ensures NormalizePackagePath(u, path) == if AcceptedPath(u, path) then Ok(u.nfc(path)) else Err(PathInvalid)
  {
    hide NormalizePackagePath, SafePath, FitsArchive;
    NormalizedExactly(u, path);
  }

  lemma {:induction false} RequiredExactly(u: Unicode, keys: seq<Bytes>, required: seq<Bytes>)
    ensures var r := RequireDeclared(u, keys, required);
            && (r.Ok? <==> forall p | p in required :: AcceptedPath(u, p) && u.nfc(p) in keys)
            && (r == Err(DeclaredFileMissing) ==> exists p | p in required :: u.nfc(p) !in keys)
            && (r == Err(PathInvalid) ==> exists p | p in required :: !AcceptedPath(u, p))
            && (r.Err? ==> r.error in {DeclaredFileMissing, PathInvalid})
  {
    hide NormalizePackagePath, AcceptedPath;
    if required != [] {
      AcceptedExactly(u, required[0]);
      assert required == [required[0]] + required[1..];
      RequiredExactly(u, keys, required[1..]);
    }
  }

  /** The declared paths as keys. */
  lemma KeysExactly(u: Unicode, files: seq<ManifestFile>)
    requires Lawful(u)
    ensures UniquePaths(u, PathsOfFiles(files)).Ok? <==> GoodPaths(u, files)
    ensures UniquePaths(u, PathsOfFiles(files)).Ok? ==>
              var keys := UniquePaths(u, PathsOfFiles(files)).value;
              && NoDuplicates(keys) && |keys| == |files| && (forall i :: 0 <= i < |files| ==> keys[i] == u.nfc(files[i].path))
              && (forall p :: p in keys <==> Names(u, files, p))
  {
    var paths := PathsOfFiles(files);
    hide NormalizePackagePath, SafePath, FitsArchive, UniquePaths, Lawful;
    UniqueExactly(u, paths);
    forall i | 0 <= i < |files|
      ensures files[i] in files && paths[i] in paths && FoldedPath(u, AsEntries(paths)[i]) == u.fold(u.nfc(files[i].path))
              && (NormalizePackagePath(u, paths[i]).Ok? <==> AcceptedPath(u, files[i].path))
    {
      NormalizedExactly(u, paths[i]);
    }
    if UniquePaths(u, paths).Ok? { UniquePathsAre(u, paths); }
  }

  lemma PackedAtKey(e: Services, files: seq<ManifestFile>, payload: seq<Entry>, keys: seq<Bytes>, i: nat)
    requires |keys| == |files| && i < |files| && NoDuplicates(keys) && NoDuplicates(PathsOf(payload))
    requires keys[i] == e.unicode.nfc(files[i].path) && keys[i] in PathsOf(payload)
    ensures keys[i] in Index(keys, files) && keys[i] in Index(PathsOf(payload), payload)
    ensures FilePasses(e, keys[i], Index(keys, files)[keys[i]], Index(PathsOf(payload), payload)[keys[i]]) <==> IsPacked(e, payload, files[i])
  {
    IndexAt(keys, files, i);
    var j :| 0 <= j < |payload| && PathsOf(payload)[j] == keys[i];
    IndexAt(PathsOf(payload), payload, j);
    forall x | x in payload && x.path == keys[i]
      ensures x == payload[j]
    {
      var k :| 0 <= k < |payload| && payload[k] == x;
      assert PathsOf(payload)[k] == PathsOf(payload)[j];
    }
    assert payload[j] in payload;
  }

  ghost predicate AllPass(e: Services, files: seq<ManifestFile>, payload: seq<Entry>, keys: seq<Bytes>)
    requires |keys| == |files|
  {
    var (declared, observed) := (Index(keys, files), Index(PathsOf(payload), payload));
    forall p <- keys :: p in declared && p in observed && FilePasses(e, p, declared[p], observed[p])
  }

  /** The match, step by step. */
  lemma MatchesWith(e: Services, manifest: Manifest, payload: seq<Entry>, keys: seq<Bytes>)
    requires UniquePaths(e.unicode, PathsOfFiles(manifest.files)) == Ok(keys) && |keys| == |manifest.files|
    ensures MatchFiles(e, manifest, payload).Ok? <==>
              && RequireDeclared(e.unicode, keys, [manifest.playbookPath, manifest.readmePath, manifest.licensePath]).Ok?
              && (forall p <- PathsOf(payload) :: p in keys) && (forall p <- keys :: p in PathsOf(payload))
              && AllPass(e, manifest.files, payload, keys)
  {
    hide UniquePaths, SortedPaths, Index, CheckFiles, RequireDeclared, FilePasses;
    SortedMembers(keys);
    IndexKeys(keys, manifest.files);
    IndexKeys(PathsOf(payload), payload);
    if forall p <- keys :: p in PathsOf(payload) {
      CheckFilesIs(e, SortedPaths(keys), Index(keys, manifest.files), Index(PathsOf(payload), payload));
    }
  }

  /** The manifest matches the payload exactly when the two agree. */
  lemma MatchesExactly(e: Services, manifest: Manifest, payload: seq<Entry>)
    requires Lawful(e.unicode) && NoDuplicates(PathsOf(payload))
    ensures MatchFiles(e, manifest, payload).Ok? <==> Agrees(e, manifest, payload)
  {
    var u, files := e.unicode, manifest.files;
    KeysExactly(u, files);
    if UniquePaths(u, PathsOfFiles(files)).Ok? {
      var keys := UniquePaths(u, PathsOfFiles(files)).value;
      hide UniquePaths, SortedPaths, Index, CheckFiles, RequireDeclared, FilePasses, Lawful, AcceptedPath, IsPacked, MatchFiles, Names,
              NoDuplicates, Agrees;
      MatchesWith(e, manifest, payload, keys);
      AgreesWith(e, manifest, payload, keys);
    } else {
      NoKeysNoMatch(e, manifest, payload);
    }
  }

  lemma AgreesWith(e: Services, manifest: Manifest, payload: seq<Entry>, keys: seq<Bytes>)
    requires UniquePaths(e.unicode, PathsOfFiles(manifest.files)) == Ok(keys) && Lawful(e.unicode) && NoDuplicates(PathsOf(payload))
    requires NoDuplicates(keys) && |keys| == |manifest.files|
    requires forall i :: 0 <= i < |manifest.files| ==> keys[i] == e.unicode.nfc(manifest.files[i].path)
    requires forall p :: p in keys <==> Names(e.unicode, manifest.files, p)
    ensures Agrees(e, manifest, payload) <==>
              && RequireDeclared(e.unicode, keys, [manifest.playbookPath, manifest.readmePath, manifest.licensePath]).Ok?
              && (forall p <- PathsOf(payload) :: p in keys) && (forall p <- keys :: p in PathsOf(payload))
              && AllPass(e, manifest.files, payload, keys)
  {
    var u, files, required := e.unicode, manifest.files, [manifest.playbookPath, manifest.readmePath, manifest.licensePath];
    hide UniquePaths, Index, RequireDeclared, FilePasses, Lawful, AcceptedPath, IsPacked, Names, NoDuplicates, AllPass, GoodPaths;
    KeysExactly(u, files);
    RequiredExactly(u, keys, required);
    SamePaths(e, files, payload, keys);
    assert RequiredDeclared(e, manifest) <==> RequireDeclared(u, keys, required).Ok?;
    if (forall p <- PathsOf(payload) :: p in keys) && (forall p <- keys :: p in PathsOf(payload)) {
      PassExactly(e, files, payload, keys);
    }
  }

  lemma NoKeysNoMatch(e: Services, manifest: Manifest, payload: seq<Entry>)
    requires UniquePaths(e.unicode, PathsOfFiles(manifest.files)).Err?
    ensures MatchFiles(e, manifest, payload) == Err(UniquePaths(e.unicode, PathsOfFiles(manifest.files)).error)
  {
    hide UniquePaths, SortedPaths, Index, CheckFiles, RequireDeclared;
  }

  lemma PassExactly(e: Services, files: seq<ManifestFile>, payload: seq<Entry>, keys: seq<Bytes>)
    requires |keys| == |files| && NoDuplicates(keys) && NoDuplicates(PathsOf(payload))
    requires forall i :: 0 <= i < |files| ==> keys[i] == e.unicode.nfc(files[i].path)
    requires forall p :: p in keys <==> p in PathsOf(payload)
    ensures AllPass(e, files, payload, keys) <==> forall f | f in files :: IsPacked(e, payload, f)
  {
    hide Index, IsPacked, FilePasses;
    forall i | 0 <= i < |files|
      ensures keys[i] in keys && files[i] in files && keys[i] in Index(keys, files) && keys[i] in Index(PathsOf(payload), payload)
              && (FilePasses(e, keys[i], Index(keys, files)[keys[i]], Index(PathsOf(payload), payload)[keys[i]]) <==> IsPacked(e, payload, files[i]))
    {
      PackedAtKey(e, files, payload, keys, i);
    }
  }

  lemma SamePaths(e: Services, files: seq<ManifestFile>, payload: seq<Entry>, keys: seq<Bytes>)
    requires forall p :: p in keys <==> Names(e.unicode, files, p)
    ensures (forall p <- PathsOf(payload) :: p in keys) <==> forall x | x in payload :: Names(e.unicode, files, x.path)
    ensures (forall f | f in files :: IsPacked(e, payload, f)) ==> forall p <- keys :: p in PathsOf(payload)
  {
    forall i | 0 <= i < |payload|
      ensures payload[i] in payload && PathsOf(payload)[i] == payload[i].path && PathsOf(payload)[i] in PathsOf(payload)
    {
    }
    if forall f | f in files :: IsPacked(e, payload, f) {
      forall p | p in keys
        ensures p in PathsOf(payload)
      {
        var i :| 0 <= i < |files| && e.unicode.nfc(files[i].path) == p;
        assert IsPacked(e, payload, files[i]);
        var x :| x in payload && x.path == p;
        MemberOfPaths(payload, p);
      }
    }
  }

  // ---------- the whole check ----------

  ghost predicate OneManifest(entries: seq<Entry>, m: Entry) {
    m in entries && m.path == MANIFEST && forall x | x in entries && x.path == MANIFEST :: x == m
  }

  /** What makes a package acceptable. */
  ghost predicate AcceptablePackage(e: Services, entries: seq<Entry>, m: Entry, expectedId: string, expectedVersion: string) {
    && OneManifest(entries, m) && |m.data| <= 4194304 && e.parse(m.data).Some?
    && var manifest := e.parse(m.data).value;
       && (expectedId == "" || expectedId == manifest.namespace + "/" + manifest.name)
       && (expectedVersion == "" || expectedVersion == manifest.version)
       && Agrees(e, manifest, Filter(entries, MANIFEST, false))
       && Compatible(e, manifest.compatibility)
  }

  /** The steps of the verification. */
  lemma VerifiesWith(e: Services, bytes: Bytes, expectedId: string, expectedVersion: string, entries: seq<Entry>, m: Entry)
    requires ReadArchive(e.unicode, bytes) == Ok(entries) && Filter(entries, MANIFEST, true) == [m]
    ensures VerifyPackage(e, bytes, expectedId, expectedVersion).Ok? <==>
              && ParseManifest(e, m.data).Ok?
              && var manifest := ParseManifest(e, m.data).value;
                 && (expectedId == "" || expectedId == PackageId(manifest)) && (expectedVersion == "" || expectedVersion == manifest.version)
                 && MatchFiles(e, manifest, Filter(entries, MANIFEST, false)).Ok? && VerifyCompatibility(e, manifest.compatibility).Ok?
  {
    hide ReadArchive, MatchFiles, VerifyCompatibility, Filter, ParseManifest, Ascii;
  }

  /** A package is accepted exactly when its archive can be read and its one manifest
      agrees with the other entries, the expectations and the running program. */
  lemma VerifiesExactly(e: Services, bytes: Bytes, expectedId: string, expectedVersion: string)
    requires Lawful(e.unicode)
    ensures VerifyPackage(e, bytes, expectedId, expectedVersion).Ok? <==>
              && ReadArchive(e.unicode, bytes).Ok?
              && exists m :: AcceptablePackage(e, ReadArchive(e.unicode, bytes).value, m, expectedId, expectedVersion)
  {
    hide ReadArchive, MatchFiles, Lawful, Ascii, Agrees, Compatible, VerifyCompatibility, Filter, OneManifest, NoDuplicates;
    if ReadArchive(e.unicode, bytes).Ok? {
      var entries := ReadArchive(e.unicode, bytes).value;
      ReadPathsAreDistinct(e.unicode, bytes);
      FilteredPaths(entries, MANIFEST, false);
      var manifests := Filter(entries, MANIFEST, true);
      forall m
        ensures OneManifest(entries, m) <==> manifests == [m]
        ensures manifests == [m] ==> (VerifyPackage(e, bytes, expectedId, expectedVersion).Ok?
                                      <==> AcceptablePackage(e, entries, m, expectedId, expectedVersion))
      {
        TheManifest(entries, m);
        if manifests == [m] { AcceptableExactly(e, bytes, expectedId, expectedVersion, entries, m); }
      }
      if |manifests| == 1 { assert manifests == [manifests[0]]; }
    }
  }

  lemma AcceptableExactly(e: Services, bytes: Bytes, expectedId: string, expectedVersion: string, entries: seq<Entry>, m: Entry)
    requires Lawful(e.unicode) && ReadArchive(e.unicode, bytes) == Ok(entries) && NoDuplicates(PathsOf(entries))
    requires Filter(entries, MANIFEST, true) == [m] && OneManifest(entries, m)
    ensures VerifyPackage(e, bytes, expectedId, expectedVersion).Ok? <==> AcceptablePackage(e, entries, m, expectedId, expectedVersion)
  {
    hide ReadArchive, MatchFiles, Lawful, Ascii, Agrees, Compatible, VerifyCompatibility, Filter, OneManifest, NoDuplicates, VerifyPackage;
    VerifiesWith(e, bytes, expectedId, expectedVersion, entries, m);
    FilteredPaths(entries, MANIFEST, false);
    if ParseManifest(e, m.data).Ok? {
      var manifest := ParseManifest(e, m.data).value;
      MatchesExactly(e, manifest, Filter(entries, MANIFEST, false));
      CompatibleExactly(e, manifest.compatibility);
    }
  }

  lemma TheManifest(entries: seq<Entry>, m: Entry)
    requires NoDuplicates(PathsOf(entries))
    ensures OneManifest(entries, m) <==> Filter(entries, MANIFEST, true) == [m]
  {
    hide Ascii;
    if OneManifest(entries, m) { FilterOne(entries, m); }
    if Filter(entries, MANIFEST, true) == [m] {
      assert m in Filter(entries, MANIFEST, true);
      forall x | x in entries && x.path == MANIFEST
        ensures x == m
      {
        assert x in Filter(entries, MANIFEST, true);
      }
    }
  }

  // ---------- what an acceptance says ----------

  /** The evidence names each declared file once, in the order of the paths. */
  ghost predicate Lists(e: Services, manifest: Manifest, files: seq<ManifestFile>) {
    && Ascending(PathsOfFiles(files))
    && forall g :: g in files <==> exists i :: 0 <= i < |manifest.files| && g == Verified(e, manifest.files[i])
  }

  function Verified(e: Services, f: ManifestFile): ManifestFile {
    ManifestFile(e.unicode.nfc(f.path), f.mediaType, f.size, f.digest)
  }

  lemma KeysAscend(keys: seq<Bytes>)
    requires NoDuplicates(keys)
    ensures Ascending(SortedPaths(keys)) && forall p :: p in SortedPaths(keys) <==> p in keys
  {
    var u := Unicode(s => true, s => s, s => s);
    assert Named(u, AsEntries(keys)) == AsEntries(keys);
    DistinctIsNoClash(u, AsEntries(keys));
    assert NoClash(u, AsEntries(keys));
    SortedAscends(u, keys);
  }

  lemma MatchedValue(e: Services, manifest: Manifest, payload: seq<Entry>, keys: seq<Bytes>)
    requires UniquePaths(e.unicode, PathsOfFiles(manifest.files)) == Ok(keys) && |keys| == |manifest.files|
    requires MatchFiles(e, manifest, payload).Ok?
    ensures forall p :: p in keys <==> p in Index(keys, manifest.files)
    ensures var (sorted, verified) := (SortedPaths(keys), MatchFiles(e, manifest, payload).value);
            |verified| == |sorted| && forall i :: 0 <= i < |sorted| ==>
              sorted[i] in Index(keys, manifest.files) && verified[i] == Index(keys, manifest.files)[sorted[i]].(path := sorted[i])
  {
    hide UniquePaths, SortedPaths, Index, CheckFiles, RequireDeclared, FilePasses;
    SortedMembers(keys);
    IndexKeys(keys, manifest.files);
    IndexKeys(PathsOf(payload), payload);
    CheckFilesIs(e, SortedPaths(keys), Index(keys, manifest.files), Index(PathsOf(payload), payload));
  }

  lemma MatchedLists(e: Services, manifest: Manifest, payload: seq<Entry>)
    requires Lawful(e.unicode) && NoDuplicates(PathsOf(payload)) && MatchFiles(e, manifest, payload).Ok?
    ensures Lists(e, manifest, MatchFiles(e, manifest, payload).value)
  {
    var u, files := e.unicode, manifest.files;
    if UniquePaths(u, PathsOfFiles(files)).Err? { NoKeysNoMatch(e, manifest, payload); }
    var keys := UniquePaths(u, PathsOfFiles(files)).value;
    KeysExactly(u, files);
    hide UniquePaths, SortedPaths, Index, MatchFiles, Lawful, Ascending, GoodPaths, Names, NoDuplicates;
    KeysAscend(keys);
    MatchedValue(e, manifest, payload, keys);
    ListedFiles(e, files, keys, SortedPaths(keys), MatchFiles(e, manifest, payload).value);
  }

  lemma ListedFiles(e: Services, files: seq<ManifestFile>, keys: seq<Bytes>, sorted: seq<Bytes>, verified: seq<ManifestFile>)
    requires |keys| == |files| && NoDuplicates(keys) && Ascending(sorted) && (forall p :: p in sorted <==> p in keys)
    requires forall i :: 0 <= i < |files| ==> keys[i] == e.unicode.nfc(files[i].path)
    requires forall p :: p in keys <==> p in Index(keys, files)
    requires |verified| == |sorted| && forall i :: 0 <= i < |sorted| ==>
               sorted[i] in Index(keys, files) && verified[i] == Index(keys, files)[sorted[i]].(path := sorted[i])
    ensures Ascending(PathsOfFiles(verified))
    ensures forall g :: g in verified <==> exists i :: 0 <= i < |files| && g == Verified(e, files[i])
  {
    assert PathsOfFiles(verified) == sorted;
    hide Index, Ascending;
    forall i | 0 <= i < |files|
      ensures Index(keys, files)[keys[i]] == files[i] && Verified(e, files[i]) == files[i].(path := keys[i])
    {
      IndexAt(keys, files, i);
    }
    forall g | g in verified
      ensures exists i :: 0 <= i < |files| && g == Verified(e, files[i])
    {
      var k :| 0 <= k < |verified| && verified[k] == g;
      assert sorted[k] in keys;
      var i :| 0 <= i < |keys| && keys[i] == sorted[k];
      assert g == Verified(e, files[i]);
    }
    forall i | 0 <= i < |files|
      ensures Verified(e, files[i]) in verified
    {
      assert keys[i] in sorted;
      var k :| 0 <= k < |sorted| && sorted[k] == keys[i];
      assert verified[k] == Verified(e, files[i]);
    }
  }

  /** The evidence of an accepted package. */
  lemma EvidenceIs(e: Services, bytes: Bytes, expectedId: string, expectedVersion: string, m: Entry)
    requires Lawful(e.unicode) && VerifyPackage(e, bytes, expectedId, expectedVersion).Ok?
    requires ReadArchive(e.unicode, bytes).Ok? && OneManifest(ReadArchive(e.unicode, bytes).value, m)
    ensures e.parse(m.data).Some?
    ensures var evidence, manifest := VerifyPackage(e, bytes, expectedId, expectedVersion).value, e.parse(m.data).value;
            && evidence.artifactDigest == e.sha256(bytes) && evidence.artifactSize == |bytes|
            && evidence.manifestDigest == e.sha256(m.data) && evidence.packageId == manifest.namespace + "/" + manifest.name
            && evidence.version == manifest.version && Lists(e, manifest, evidence.files)
  {
    hide ReadArchive, MatchFiles, Lawful, Ascii, VerifyCompatibility, Filter, NoDuplicates, Lists, OneManifest;
    var entries := ReadArchive(e.unicode, bytes).value;
    ReadPathsAreDistinct(e.unicode, bytes);
    FilteredPaths(entries, MANIFEST, false);
    TheManifest(entries, m);
    MatchedLists(e, e.parse(m.data).value, Filter(entries, MANIFEST, false));
  }

  // ---------- what a refusal says ----------

  /** Some declared file and the entry of its name differ in this. */
  ghost predicate SomeDiffer(e: Services, paths: seq<Bytes>, declared: map<Bytes, ManifestFile>, observed: map<Bytes, Entry>, error: Error) {
    exists p | p in paths ::
      && p in declared && p in observed
      && match error
         case SizeMismatch => |observed[p].data| != declared[p].size
         case DigestMismatch => e.sha256(observed[p].data) != declared[p].digest
         case LifecycleScript => !e.scriptFree(p, observed[p].data)
         case _ => false
  }

  lemma {:induction false} CheckFilesFailWith(e: Services, paths: seq<Bytes>, declared: map<Bytes, ManifestFile>, observed: map<Bytes, Entry>)
    requires forall p <- paths :: p in declared && p in observed
    requires CheckFiles(e, paths, declared, observed).Err?
    ensures SomeDiffer(e, paths, declared, observed, CheckFiles(e, paths, declared, observed).error)
  {
    var (file, x) := (declared[paths[0]], observed[paths[0]]);
    assert paths[0] in paths && forall p :: p in paths[1..] ==> p in paths;
    if |x.data| == file.size && e.sha256(x.data) == file.digest && e.scriptFree(paths[0], x.data) {
      CheckFilesFailWith(e, paths[1..], declared, observed);
    }
  }

  /** A refusal of the match names what is wrong. */
  lemma MatchFailsWith(e: Services, manifest: Manifest, payload: seq<Entry>)
    requires Lawful(e.unicode) && MatchFiles(e, manifest, payload).Err?
    ensures var (u, files, error) := (e.unicode, manifest.files, MatchFiles(e, manifest, payload).error);
            && (error in {PathDuplicate, CaseCollision} ==> !GoodPaths(u, files))
            && (error == PathInvalid ==> !GoodPaths(u, files) || !RequiredDeclared(e, manifest))
            && (error == UndeclaredFile ==> exists x | x in payload :: !Names(u, files, x.path))
            && (error == DeclaredFileMissing ==>
                  !RequiredDeclared(e, manifest) || exists i :: 0 <= i < |files| && u.nfc(files[i].path) !in PathsOf(payload))
            && (error in {SizeMismatch, DigestMismatch, LifecycleScript} ==>
                  UniquePaths(u, PathsOfFiles(files)).Ok? && var keys := UniquePaths(u, PathsOfFiles(files)).value;
                  |keys| == |files| && SomeDiffer(e, keys, Index(keys, files), Index(PathsOf(payload), payload), error))
            && error in {PathInvalid, PathDuplicate, CaseCollision, UndeclaredFile, DeclaredFileMissing, SizeMismatch, DigestMismatch, LifecycleScript}
  {
    var u, files := e.unicode, manifest.files;
    hide UniquePaths, SortedPaths, Index, CheckFiles, RequireDeclared, Lawful, AcceptedPath, GoodPaths, Names, NoDuplicates, RequiredDeclared,
            SomeDiffer;
    KeysExactly(u, files);
    if UniquePaths(u, PathsOfFiles(files)).Err? {
      NoKeysNoMatch(e, manifest, payload);
      UniqueFailsWith(u, PathsOfFiles(files));
    } else {
      var keys := UniquePaths(u, PathsOfFiles(files)).value;
      RequiredFailWith(e, manifest, keys);
      SortedMembers(keys);
      IndexKeys(keys, files);
      IndexKeys(PathsOf(payload), payload);
      LostPaths(u, files, payload, keys);
      if (forall p <- PathsOf(payload) :: p in keys) && (forall p <- keys :: p in PathsOf(payload)) {
        ChecksFailWith(e, keys, Index(keys, files), Index(PathsOf(payload), payload));
      }
    }
  }

  lemma ChecksFailWith(e: Services, keys: seq<Bytes>, declared: map<Bytes, ManifestFile>, observed: map<Bytes, Entry>)
    requires forall p <- keys :: p in declared && p in observed
    requires forall p :: p in SortedPaths(keys) <==> p in keys
    ensures CheckFiles(e, SortedPaths(keys), declared, observed).Err? ==>
              var error := CheckFiles(e, SortedPaths(keys), declared, observed).error;
              SomeDiffer(e, keys, declared, observed, error) && error in {SizeMismatch, DigestMismatch, LifecycleScript}
  {
    hide SortedPaths, CheckFiles;
    if CheckFiles(e, SortedPaths(keys), declared, observed).Err? {
      CheckFilesFailWith(e, SortedPaths(keys), declared, observed);
    }
  }

  lemma UniqueFailsWith(u: Unicode, paths: seq<Bytes>)
    requires UniquePaths(u, paths).Err?
    ensures UniquePaths(u, paths).error in {PathInvalid, PathDuplicate, CaseCollision}
  {
    hide RegisterAll, NormalizePackagePath;
    RegisterFailsWith(u, [], AsEntries(paths));
  }

  lemma RequiredFailWith(e: Services, manifest: Manifest, keys: seq<Bytes>)
    requires forall p :: p in keys <==> Names(e.unicode, manifest.files, p)
    ensures var r := RequireDeclared(e.unicode, keys, [manifest.playbookPath, manifest.readmePath, manifest.licensePath]);
            r.Err? ==> !RequiredDeclared(e, manifest) && r.error in {DeclaredFileMissing, PathInvalid}
  {
    hide RequireDeclared, Names, AcceptedPath;
    RequiredExactly(e.unicode, keys, [manifest.playbookPath, manifest.readmePath, manifest.licensePath]);
  }

  lemma LostPaths(u: Unicode, files: seq<ManifestFile>, payload: seq<Entry>, keys: seq<Bytes>)
    requires |keys| == |files| && (forall i :: 0 <= i < |files| ==> keys[i] == u.nfc(files[i].path))
    requires forall p :: p in keys <==> Names(u, files, p)
    ensures (exists p <- PathsOf(payload) :: p !in keys) ==> exists x | x in payload :: !Names(u, files, x.path)
    ensures (exists p <- keys :: p !in PathsOf(payload)) ==> exists i :: 0 <= i < |files| && u.nfc(files[i].path) !in PathsOf(payload)
  {
    hide Names;
    if p :| p in PathsOf(payload) && p !in keys {
      MemberOfPaths(payload, p);
      var x :| x in payload && x.path == p;
      assert !Names(u, files, x.path);
    }
  }

  /** The refusals of the expectations. */
  lemma ExpectationsFailWith(e: Services, bytes: Bytes, expectedId: string, expectedVersion: string, m: Entry)
    requires Lawful(e.unicode) && ReadArchive(e.unicode, bytes).Ok? && OneManifest(ReadArchive(e.unicode, bytes).value, m)
    requires |m.data| <= 4194304 && e.parse(m.data).Some?
    ensures var (r, manifest) := (VerifyPackage(e, bytes, expectedId, expectedVersion), e.parse(m.data).value);
            && (r == Err(IdMismatch) <==> expectedId != "" && expectedId != manifest.namespace + "/" + manifest.name)
            && (r == Err(VersionMismatch) <==>
                  && (expectedId == "" || expectedId == manifest.namespace + "/" + manifest.name)
                  && expectedVersion != "" && expectedVersion != manifest.version)
            && (r == Err(Incompatible) ==> !Compatible(e, manifest.compatibility))
  {
    hide ReadArchive, MatchFiles, Lawful, Ascii, VerifyCompatibility, Filter, NoDuplicates, OneManifest, Compatible, GoodPaths,
            RequiredDeclared, Names;
    var entries, manifest := ReadArchive(e.unicode, bytes).value, e.parse(m.data).value;
    ReadPathsAreDistinct(e.unicode, bytes);
    TheManifest(entries, m);
    CompatibleExactly(e, manifest.compatibility);
    if MatchFiles(e, manifest, Filter(entries, MANIFEST, false)).Err? {
      MatchFailsWith(e, manifest, Filter(entries, MANIFEST, false));
    }
  }

  /** Archives that cannot be read, and those without exactly one good manifest. */
  lemma ManifestFailsWith(e: Services, bytes: Bytes, expectedId: string, expectedVersion: string)
    requires Lawful(e.unicode)
    ensures ReadArchive(e.unicode, bytes).Err? ==>
              VerifyPackage(e, bytes, expectedId, expectedVersion) == Err(ReadArchive(e.unicode, bytes).error)
    ensures ReadArchive(e.unicode, bytes).Ok?
            && !(exists m :: OneManifest(ReadArchive(e.unicode, bytes).value, m) && |m.data| <= 4194304 && e.parse(m.data).Some?)
            ==> VerifyPackage(e, bytes, expectedId, expectedVersion) == Err(ManifestInvalid)
  {
    hide ReadArchive, MatchFiles, Lawful, Ascii, VerifyCompatibility, Filter, NoDuplicates, OneManifest;
    if ReadArchive(e.unicode, bytes).Ok? {
      var entries := ReadArchive(e.unicode, bytes).value;
      var manifests := Filter(entries, MANIFEST, true);
      ReadPathsAreDistinct(e.unicode, bytes);
      if |manifests| == 1 {
        assert manifests == [manifests[0]];
        TheManifest(entries, manifests[0]);
      }
    }
  }
}
