/** The files of the run artifact store (`src/artifacts/run-artifact-store.ts`): descriptors,
    names as hard links, what the store keeps of them, and what each file operation does. */
module ArtifactFiles {
  import opened Wrappers
  import opened Bytes

  // ---------------------------------------------------------------- descriptors

  datatype Path =
    | Blob(run: string, digest: string)
    | Binding(run: string, step: string, output: string)
    | Temporary(of: Path, owner: nat)

  predicate Published(p: Path) {
    p.Blob? || p.Binding?
  }

  datatype Capability = Capability(kind: string, id: string, immutableReference: Option<string>)

  datatype Repository = Repository(commit: Option<string>, rootDigest: Option<string>)

  datatype Declaration = Declaration(
    name: string,
    kind: string,
    mediaType: Option<string>,
    schema: Option<string>,
    sensitivity: Option<string>,
    retention: Option<string>)

  datatype Descriptor = Descriptor(
    artifactId: string,
    name: string,
    kind: string,
    mediaType: Option<string>,
    declaredSchema: Option<string>,
    sensitivity: string,
    retention: string,
    digest: string,
    size: nat,
    blobPath: Path,
    descriptorPath: Path,
    createdAt: string,
    run: string,
    invocation: string,
    stage: string,
    step: string,
    capability: Capability,
    repository: Option<Repository>)

  datatype Request = Request(
    run: string,
    invocation: string,
    stage: string,
    step: string,
    capability: Capability,
    declaration: Declaration,
    bytes: Bytes,
    repository: Option<Repository>,
    createdAt: string)

  datatype ArtifactError = ArtifactInvalid | ArtifactNotFound | SizeMismatch | DigestMismatch | ArtifactConflict | IoFailure | ProcessDied

  const MAX_DESCRIPTOR_BYTES := 1048576
  const MAX_OUTPUT_ARTIFACT_BYTES := 67108864

  /** SHA-256, the JSON text of a descriptor, the schema check, and the checks of a
      request: of its names and other tokens, and of its repository and payload. */
  datatype Services = Services(
    sha256: Bytes -> string,
    render: Descriptor -> Bytes,
    parse: Bytes -> Option<Descriptor>,
    schemaAccepts: Descriptor -> bool,
    acceptsTokens: Request -> bool,
    acceptsPayload: Request -> bool)
  {
    ghost predicate Lawful() {
      forall d :: schemaAccepts(d) ==> parse(render(d)) == Some(d)
    }

    ghost predicate CollisionFree() {
      forall a, b :: sha256(a) == sha256(b) ==> a == b
    }
  }

  function Candidate(e: Services, q: Request): Descriptor {
    var digest := e.sha256(q.bytes);
    Descriptor(
      digest, q.declaration.name, q.declaration.kind, q.declaration.mediaType, q.declaration.schema,
      if q.declaration.sensitivity.Some? then q.declaration.sensitivity.value else "INTERNAL",
      if q.declaration.retention.Some? then q.declaration.retention.value else "RUN",
      digest, |q.bytes|, Blob(q.run, digest), Binding(q.run, q.step, q.declaration.name),
      q.createdAt, q.run, q.invocation, q.stage, q.step, q.capability, q.repository)
  }

  function CommitOf(r: Option<Repository>): Option<string> {
    if r.Some? then r.value.commit else None
  }

  function RootDigestOf(r: Option<Repository>): Option<string> {
    if r.Some? then r.value.rootDigest else None
  }

  /** `sameBindingIdentity`. */
  predicate SameBindingIdentity(a: Descriptor, b: Descriptor) {
    && a.digest == b.digest && a.size == b.size && a.name == b.name && a.kind == b.kind
    && a.mediaType == b.mediaType && a.declaredSchema == b.declaredSchema
    && a.sensitivity == b.sensitivity && a.retention == b.retention
    && a.run == b.run && a.invocation == b.invocation && a.stage == b.stage && a.step == b.step
    && a.capability == b.capability
    && CommitOf(a.repository) == CommitOf(b.repository) && RootDigestOf(a.repository) == RootDigestOf(b.repository)
  }

  /** `parseDescriptor`. */
  function ParseDescriptor(e: Services, bytes: Bytes, run: string, step: string,
          output: string): (r: Result<Descriptor, ArtifactError>)
    ensures r.Ok? ==> r.value.run == run && r.value.step == step && r.value.name == output
    ensures r.Ok? ==> r.value.blobPath == Blob(run, r.value.digest) && r.value.descriptorPath == Binding(run, step, output)
    ensures r.Ok? ==> e.parse(bytes) == Some(r.value) && e.schemaAccepts(r.value) && r.value.artifactId == r.value.digest
  {
    match e.parse(bytes)
    case None => Err(ArtifactInvalid)
    case Some(d) =>
      if !e.schemaAccepts(d) then Err(ArtifactInvalid)
      else if d.artifactId != d.digest || d.run != run || d.step != step || d.name != output then Err(ArtifactInvalid)
      else if d.descriptorPath != Binding(run, step, output) || d.blobPath != Blob(run, d.digest) then Err(ArtifactInvalid)
      else Ok(d)
  }

  /** The descriptor is one of the artifact that was asked for, in its canonical places. */
  ghost predicate Describes(e: Services, d: Descriptor, q: Request) {
    && d.digest == e.sha256(q.bytes) && d.size == |q.bytes| && d.artifactId == d.digest
    && d.name == q.declaration.name && d.kind == q.declaration.kind
    && d.mediaType == q.declaration.mediaType && d.declaredSchema == q.declaration.schema
    && (match q.declaration.sensitivity case Some(given) => d.sensitivity == given case None => d.sensitivity == "INTERNAL")
    && (match q.declaration.retention case Some(given) => d.retention == given case None => d.retention == "RUN")
    && d.run == q.run && d.invocation == q.invocation && d.stage == q.stage && d.step == q.step && d.capability == q.capability
    && CommitOf(d.repository) == CommitOf(q.repository) && RootDigestOf(d.repository) == RootDigestOf(q.repository)
    && d.blobPath == Blob(q.run, e.sha256(q.bytes)) && d.descriptorPath == Binding(q.run, q.step, q.declaration.name)
  }

  /** What a call writes describes its request. A descriptor that was parsed has the
      identity of the candidate exactly if it describes the request. */
  lemma IdentityExactly(e: Services, d: Descriptor, q: Request, bytes: Bytes)
    ensures Describes(e, Candidate(e, q), q) && Candidate(e, q).createdAt == q.createdAt && Candidate(e, q).repository == q.repository
    ensures ParseDescriptor(e, bytes, q.run, q.step, q.declaration.name) == Ok(d) ==>
              (SameBindingIdentity(d, Candidate(e, q)) <==> Describes(e, d, q))
  {
  }

  // ---------------------------------------------------------------- the file system

  /** Names, and the files they are hard links to. */
  datatype Files = Files(names: map<Path, nat>, data: map<nat, Bytes>)

  ghost predicate Sound(fs: Files) {
    forall p <- fs.names :: fs.names[p] in fs.data
  }

  function Content(fs: Files, p: Path): Bytes
    requires p in fs.names && fs.names[p] in fs.data
  {
    fs.data[fs.names[p]]
  }

  /** The file has no other name: its link count is 1. */
  predicate Isolated(fs: Files, p: Path)
    requires p in fs.names
  {
    forall q <- fs.names.Keys :: fs.names[q] == fs.names[p] ==> q == p
  }

  /** The binding names a descriptor whose blob is there. */
  ghost predicate Resolves(e: Services, fs: Files, run: string, step: string, output: string)
    requires Sound(fs) && Binding(run, step, output) in fs.names
  {
    var d := ParseDescriptor(e, Content(fs, Binding(run, step, output)), run, step, output);
    d.Ok? && BlobIsThere(fs, run, d.value)
  }

  ghost predicate BlobIsThere(fs: Files, run: string, d: Descriptor)
    requires Sound(fs)
  {
    Blob(run, d.digest) in fs.names && |Content(fs, Blob(run, d.digest))| == d.size
  }

  /** Each blob hashes to the digest in its path, and each binding's blob is present. */
  ghost predicate Inv(e: Services, fs: Files) {
    && Sound(fs)
    && (forall run, digest :: Blob(run, digest) in fs.names ==> e.sha256(Content(fs, Blob(run, digest))) == digest)
    && (forall run, step, output :: Binding(run, step, output) in fs.names ==> Resolves(e, fs, run, step, output))
  }

  /** The file at `p` gets no further name. */
  ghost predicate NoNewLinks(a: Files, b: Files, p: Path)
    requires p in a.names
  {
    forall q <- b.names :: b.names[q] == a.names[p] ==> q in a.names && a.names[q] == a.names[p]
  }

  /** What published files there are stay as they are, and get no further links. */
  ghost predicate Evolves(e: Services, a: Files, b: Files) {
    && Sound(a) && Inv(e, b)
    && forall p <- a.names :: Published(p) ==>
                               p in b.names && b.names[p] == a.names[p] && Content(b, p) == Content(a, p)
                               && NoNewLinks(a, b, p)
  }

  /** The temporary files of `owner` stay as they are. */
  ghost predicate TempsKept(owner: nat, a: Files, b: Files) {
    && Sound(a) && Sound(b)
    && forall of :: TempKept(Temporary(of, owner), a, b)
  }

  ghost predicate TempKept(t: Path, a: Files, b: Files)
    requires Sound(a) && Sound(b)
  {
    && (t in a.names <==> t in b.names)
    && (t in a.names ==> b.names[t] == a.names[t] && Content(b, t) == Content(a, t) && NoNewLinks(a, b, t))
  }

  /** What one operation of `owner` may do. */
  ghost predicate Does(e: Services, owner: nat, a: Files, b: Files) {
    Evolves(e, a, b) && forall other :: other != owner ==> TempsKept(other, a, b)
  }

  lemma EvolvesItself(e: Services, a: Files)
    requires Inv(e, a)
    ensures Evolves(e, a, a) && forall owner :: TempsKept(owner, a, a)
  {
  }

  lemma EvolvesOnwards(e: Services, a: Files, b: Files, c: Files)
    requires Evolves(e, a, b) && Evolves(e, b, c)
    ensures Evolves(e, a, c)
  {
    hide Inv;
    assert Inv(e, c);
    forall p <- a.names | Published(p)
      ensures p in c.names && c.names[p] == a.names[p] && Sound(c) && Content(c, p) == Content(a, p) && NoNewLinks(a, c, p)
    {
      InvIsSound(e, c);
      assert p in b.names && b.names[p] == a.names[p];
    }
  }

  lemma InvIsSound(e: Services, fs: Files)
    requires Inv(e, fs)
    ensures Sound(fs)
  {
  }

  lemma TempsKeptOnwards(owner: nat, a: Files, b: Files, c: Files)
    requires TempsKept(owner, a, b) && TempsKept(owner, b, c)
    ensures TempsKept(owner, a, c)
  {
    forall of
      ensures TempKept(Temporary(of, owner), a, c)
    {
      assert TempKept(Temporary(of, owner), a, b) && TempKept(Temporary(of, owner), b, c);
    }
  }

  // ---------------------------------------------------------------- what a call leaves

  /** What a successful call leaves: the binding parses to what it returned. */
  ghost predicate Bound(e: Services, fs: Files, d: Descriptor) {
    && Inv(e, fs) && Binding(d.run, d.step, d.name) in fs.names
    && ParseDescriptor(e, Content(fs, Binding(d.run, d.step, d.name)), d.run, d.step, d.name) == Ok(d)
  }

  lemma BoundStays(e: Services, a: Files, b: Files, d: Descriptor)
    requires Bound(e, a, d) && Evolves(e, a, b)
    ensures Bound(e, b, d)
  {
    var p := Binding(d.run, d.step, d.name);
    assert p in a.names && Published(p);
  }

  lemma EvolvesKeepsInv(e: Services, a: Files, b: Files)
    requires Evolves(e, a, b)
    ensures Inv(e, b)
  {
  }

  /** What may be linked to a published path. */
  ghost predicate Publishable(e: Services, fs: Files, path: Path, bytes: Bytes) {
    match path
    case Blob(_, digest) => e.sha256(bytes) == digest
    case Binding(run, step, output) =>
      var d := ParseDescriptor(e, bytes, run, step, output);
      Sound(fs) && d.Ok? && BlobIsThere(fs, run, d.value)
    case Temporary(_, _) => false
  }

  // ---------------------------------------------------------------- operations

  lemma FreshInode(used: set<nat>)
    ensures exists n: nat :: n !in used
  {
    var above := UpperBound(used);
    assert above !in used;
  }

  lemma UpperBound(used: set<nat>) returns (above: nat)
    ensures forall n <- used :: n < above
  {
    above := 0;
    if used != {} {
      var m :| m in used;
      var rest := UpperBound(used - {m});
      above := if rest <= m then m + 1 else rest;
      assert forall n <- used :: n == m || n in used - {m};
    }
  }

  /** An exclusive open creates an empty file. */
  function Created(fs: Files, t: Path, inode: nat): Files {
    Files(fs.names[t := inode], fs.data[inode := []])
  }

  function Overwritten(fs: Files, t: Path, bytes: Bytes): Files
    requires t in fs.names
  {
    fs.(data := fs.data[fs.names[t] := bytes])
  }

  /** `link`: a second name for the same file. */
  function LinkedTo(fs: Files, t: Path, path: Path): Files
    requires t in fs.names
  {
    fs.(names := fs.names[path := fs.names[t]])
  }

  function Unlinked(fs: Files, t: Path): Files {
    fs.(names := fs.names - {t})
  }

  lemma CreatedDoes(e: Services, fs: Files, t: Path, inode: nat)
    requires Inv(e, fs) && t.Temporary? && t !in fs.names && inode !in fs.data
    ensures Does(e, t.owner, fs, Created(fs, t, inode))
    ensures Isolated(Created(fs, t, inode), t)
  {
    hide ParseDescriptor;
    var next := Created(fs, t, inode);
    forall run, step, output | Binding(run, step, output) in next.names
      ensures Resolves(e, next, run, step, output)
    {
      assert Resolves(e, fs, run, step, output);
    }
  }

  lemma OverwrittenDoes(e: Services, fs: Files, t: Path, bytes: Bytes)
    requires Inv(e, fs) && t.Temporary? && t in fs.names && Isolated(fs, t)
    ensures Does(e, t.owner, fs, Overwritten(fs, t, bytes))
    ensures Isolated(Overwritten(fs, t, bytes), t) && Content(Overwritten(fs, t, bytes), t) == bytes
  {
    hide ParseDescriptor;
    var next := Overwritten(fs, t, bytes);
    forall run, step, output | Binding(run, step, output) in next.names
      ensures Resolves(e, next, run, step, output)
    {
      assert Resolves(e, fs, run, step, output);
    }
  }

  /** Linking a complete blob, or a binding next to its blob, keeps the invariant. */
  lemma LinkedDoes(e: Services, fs: Files, t: Path, path: Path)
    requires Inv(e, fs) && t.Temporary? && t in fs.names && Isolated(fs, t) && path !in fs.names
    requires Publishable(e, fs, path, Content(fs, t))
    ensures Does(e, t.owner, fs, LinkedTo(fs, t, path))
    ensures Content(LinkedTo(fs, t, path), path) == Content(fs, t)
  {
    hide ParseDescriptor;
    var next := LinkedTo(fs, t, path);
    forall run, step, output | Binding(run, step, output) in next.names
      ensures Resolves(e, next, run, step, output)
    {
      if Binding(run, step, output) in fs.names {
        assert Resolves(e, fs, run, step, output);
      }
    }
  }

  lemma UnlinkedDoes(e: Services, fs: Files, t: Path)
    requires Inv(e, fs) && t.Temporary?
    ensures Does(e, t.owner, fs, Unlinked(fs, t))
  {
    hide ParseDescriptor;
    var next := Unlinked(fs, t);
    forall run, step, output | Binding(run, step, output) in next.names
      ensures Resolves(e, next, run, step, output)
    {
      assert Resolves(e, fs, run, step, output);
    }
  }

  // ---------------------------------------------------------------- reading back

  /** The checks made before the file system is touched. */
  predicate Admissible(e: Services, q: Request) {
    && e.acceptsTokens(q) && q.declaration.kind != "directory" && |q.bytes| <= MAX_OUTPUT_ARTIFACT_BYTES && e.acceptsPayload(q)
    && e.schemaAccepts(Candidate(e, q))
  }

  predicate TooLarge(e: Services, q: Request) {
    e.acceptsTokens(q) && q.declaration.kind != "directory" && |q.bytes| > MAX_OUTPUT_ARTIFACT_BYTES
  }

  /** The same artifact is there and can be read: a repeated call succeeds. */
  ghost predicate AlreadyMaterialized(e: Services, fs: Files, q: Request) {
    && Readable(e, fs, q.run, q.step, q.declaration.name)
    && var d := ParseDescriptor(e, Content(fs, Binding(q.run, q.step, q.declaration.name)), q.run, q.step, q.declaration.name);
       Describes(e, d.value, q)
  }

  lemma StaysMaterialized(e: Services, a: Files, b: Files, q: Request)
    requires Evolves(e, a, b) && AlreadyMaterialized(e, a, q)
    ensures AlreadyMaterialized(e, b, q)
    ensures Binding(q.run, q.step, q.declaration.name) in b.names && Isolated(b, Binding(q.run, q.step, q.declaration.name))
  {
    hide Inv, ParseDescriptor, SameBindingIdentity, Candidate, Describes;
    var path := Binding(q.run, q.step, q.declaration.name);
    PublishedStays(e, a, b, path);
    FileStaysReadable(e, a, b, path, MAX_DESCRIPTOR_BYTES);
    var d := ParseDescriptor(e, Content(a, path), q.run, q.step, q.declaration.name).value;
    FileStaysReadable(e, a, b, Blob(q.run, d.digest), MAX_OUTPUT_ARTIFACT_BYTES);
  }

  ghost predicate FileReadable(fs: Files, path: Path, maximum: nat) {
    Sound(fs) && path in fs.names && Isolated(fs, path) && |Content(fs, path)| <= maximum
  }

  ghost predicate BindingReadable(fs: Files, run: string, step: string, output: string) {
    FileReadable(fs, Binding(run, step, output), MAX_DESCRIPTOR_BYTES)
  }

  ghost predicate BlobReadable(fs: Files, run: string, digest: string) {
    FileReadable(fs, Blob(run, digest), MAX_OUTPUT_ARTIFACT_BYTES)
  }

  /** Neither file has a leftover link or is too large. */
  ghost predicate Readable(e: Services, fs: Files, run: string, step: string, output: string) {
    && BindingReadable(fs, run, step, output)
    && var d := ParseDescriptor(e, Content(fs, Binding(run, step, output)), run, step, output);
       d.Ok? && BlobReadable(fs, run, d.value.digest)
  }

  lemma ReadableStays(e: Services, a: Files, b: Files, d: Descriptor)
    requires Evolves(e, a, b) && Bound(e, b, d) && Readable(e, a, d.run, d.step, d.name)
    ensures BlobReadable(b, d.run, d.digest)
  {
    var path := Binding(d.run, d.step, d.name);
    assert path in a.names && Published(path);
    assert Blob(d.run, d.digest) in a.names;
  }

  lemma TemporaryStays(a: Files, b: Files, t: Path)
    requires t.Temporary? && TempsKept(t.owner, a, b) && t in a.names && Isolated(a, t)
    ensures t in b.names && Isolated(b, t) && Content(b, t) == Content(a, t)
  {
    assert TempKept(Temporary(t.of, t.owner), a, b);
  }

  lemma PublishedStays(e: Services, a: Files, b: Files, path: Path)
    requires Evolves(e, a, b) && Published(path) && path in a.names
    ensures path in b.names && b.names[path] == a.names[path] && Content(b, path) == Content(a, path) && NoNewLinks(a, b, path)
  {
  }

  lemma FileStaysReadable(e: Services, a: Files, b: Files, path: Path, maximum: nat)
    requires Evolves(e, a, b) && Published(path) && FileReadable(a, path, maximum)
    ensures FileReadable(b, path, maximum)
  {
    PublishedStays(e, a, b, path);
  }

  /** With no hash collision, whatever is read back later is the bytes of any call that
      succeeded for that run, step and output. */
  lemma ReadsBackTheBytes(e: Services, q: Request, d: Descriptor, bytes: Bytes)
    requires e.CollisionFree() && SameBindingIdentity(d, Candidate(e, q)) && e.sha256(bytes) == d.digest
    ensures bytes == q.bytes
  {
  }
}
