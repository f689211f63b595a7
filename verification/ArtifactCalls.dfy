/** Any number of calls of `materializeRunArtifact` (`src/artifacts/run-artifact-store.ts`),
    step by step: their file operations interleave freely, writes are torn, and each call
    may fail or die between any two of them. */
module ArtifactCalls {
  import opened Wrappers
  import opened Bytes
  import opened ArtifactFiles

  type Call = nat

  datatype Config = Config(e: Services, request: Call -> Request)

  /** A call publishes its blob, then its binding. */
  datatype Part = BlobPart | BindingPart

  /** How far a call has come. `found`: the name was taken when it came to link. */
  datatype Phase =
    | Idle
    | Writing(part: Part, written: nat)
    | Written(part: Part)
    | Linked(part: Part, found: bool)
    | Cleaned(part: Part, found: bool)
    | BlobStored
    | Returned(descriptor: Descriptor)
    | Ended

  datatype State = State(fs: Files, phase: map<Call, Phase>)

  datatype Step =
    | Open(w: Call, part: Part, inode: nat)
    | Write(w: Call, part: Part, upTo: nat)
    | Finish(w: Call, part: Part)
    | Link(w: Call, part: Part)
    | Clean(w: Call, part: Part)
    | CleanFails(w: Call, part: Part)
    | AcceptBlob(w: Call)
    | Return(w: Call, d: Descriptor)
    | ReturnExisting(w: Call, d: Descriptor)
    | Abandon(w: Call, part: Part)
    | End(w: Call)

  function PhaseOf(s: State, w: Call): Phase {
    if w in s.phase then s.phase[w] else Idle
  }

  function At(s: State, w: Call, p: Phase, fs: Files): State {
    State(fs, s.phase[w := p])
  }

  function PathOf(c: Config, w: Call, part: Part): Path {
    var candidate := Candidate(c.e, c.request(w));
    if part.BlobPart? then candidate.blobPath else candidate.descriptorPath
  }

  function BytesOf(c: Config, w: Call, part: Part): Bytes {
    if part.BlobPart? then c.request(w).bytes else c.e.render(Candidate(c.e, c.request(w)))
  }

  function TemporaryOf(c: Config, w: Call, part: Part): Path {
    Temporary(PathOf(c, w, part), w)
  }

  /** Where a call is when it comes to publish this part. */
  function Start(part: Part): Phase {
    if part.BlobPart? then Idle else BlobStored
  }

  /** A singly linked blob of the right size and digest. */
  ghost predicate BlobChecks(c: Config, fs: Files, w: Call) {
    var path := PathOf(c, w, BlobPart);
    && FileReadable(fs, path, MAX_OUTPUT_ARTIFACT_BYTES)
    && |Content(fs, path)| == |c.request(w).bytes| && c.e.sha256(Content(fs, path)) == c.e.sha256(c.request(w).bytes)
  }

  /** A singly linked binding that parses to `d`, with the identity asked for. */
  ghost predicate BindingChecks(c: Config, fs: Files, w: Call, d: Descriptor) {
    var q := c.request(w);
    && BindingReadable(fs, q.run, q.step, q.declaration.name)
    && ParseDescriptor(c.e, Content(fs, PathOf(c, w, BindingPart)), q.run, q.step, q.declaration.name) == Ok(d)
    && SameBindingIdentity(d, Candidate(c.e, q))
  }

  /** What keeps a call from returning though nothing fails: its temporary name is taken,
      or one of its two published names is, by a file that cannot be read or does not fit. */
  ghost predicate Obstructed(c: Config, s: State, w: Call, part: Part) {
    || (PhaseOf(s, w) == Start(part) && TemporaryOf(c, w, part) in s.fs.names)
    || (PathOf(c, w, part) in s.fs.names
        && if part.BlobPart? then !BlobChecks(c, s.fs, w) else forall d :: !BindingChecks(c, s.fs, w, d))
  }

  /** One step of one call. What it does to the files is said by the operation alone. */
  ghost predicate Next(c: Config, s: State, step: Step, s': State) {
    var w, phase := step.w, PhaseOf(s, step.w);
    match step
    case Open(_, part, inode) =>
      && phase == Start(part) && Admissible(c.e, c.request(w))
      && TemporaryOf(c, w, part) !in s.fs.names && inode !in s.fs.data
      && s' == At(s, w, Writing(part, 0), Created(s.fs, TemporaryOf(c, w, part), inode))
    case Write(_, part, upTo) =>
      && phase.Writing? && phase.part == part && phase.written <= upTo <= |BytesOf(c, w, part)|
      && TemporaryOf(c, w, part) in s.fs.names
      && s' == At(s, w, Writing(part, upTo), Overwritten(s.fs, TemporaryOf(c, w, part), BytesOf(c, w, part)[..upTo]))
    case Finish(_, part) =>
      phase == Writing(part, |BytesOf(c, w, part)|) && s' == At(s, w, Written(part), s.fs)
    case Link(_, part) =>
      && phase == Written(part) && TemporaryOf(c, w, part) in s.fs.names
      && (if PathOf(c, w, part) in s.fs.names then s' == At(s, w, Linked(part, true), s.fs)
          else s' == At(s, w, Linked(part, false), LinkedTo(s.fs, TemporaryOf(c, w, part), PathOf(c, w, part))))
    case Clean(_, part) =>
      && phase.Linked? && phase.part == part
      && s' == At(s, w, Cleaned(part, phase.found), Unlinked(s.fs, TemporaryOf(c, w, part)))
    case CleanFails(_, part) =>
      phase.Linked? && phase.part == part && s' == At(s, w, Cleaned(part, phase.found), s.fs)
    case AcceptBlob(_) =>
      && phase.Cleaned? && phase.part.BlobPart? && (phase.found ==> BlobChecks(c, s.fs, w))
      && s' == At(s, w, BlobStored, s.fs)
    case Return(_, d) =>
      && phase.Cleaned? && phase.part.BindingPart?
      && (if phase.found then BindingChecks(c, s.fs, w, d) else d == Candidate(c.e, c.request(w)))
      && s' == At(s, w, Returned(d), s.fs)
    case ReturnExisting(_, d) =>
      && phase.Idle? && BindingChecks(c, s.fs, w, d) && BlobChecks(c, s.fs, w)
      && s' == At(s, w, Returned(d), s.fs)
    case Abandon(_, part) =>
      && (phase == Written(part) || (phase.Writing? && phase.part == part))
      && s' == At(s, w, Ended, Unlinked(s.fs, TemporaryOf(c, w, part)))
    case End(_) =>
      !phase.Returned? && s' == At(s, w, Ended, s.fs)
  }

  // ---------------------------------------------------------------- the invariant

  /** What a call needs to publish this part. */
  ghost predicate ReadyFor(c: Config, fs: Files, w: Call, part: Part)
    requires Sound(fs)
  {
    var q := c.request(w);
    Admissible(c.e, q) && (part.BindingPart? ==> BlobIsThere(fs, q.run, Candidate(c.e, q)))
  }

  /** The call's temporary file is there, alone, with these bytes. */
  ghost predicate Holds(c: Config, fs: Files, w: Call, part: Part, bytes: Bytes)
    requires Sound(fs)
  {
    var t := TemporaryOf(c, w, part);
    t in fs.names && Isolated(fs, t) && Content(fs, t) == bytes
  }

  /** The call has linked its file: it has the published name and no other but the temporary. */
  ghost predicate HasLinked(c: Config, fs: Files, w: Call, part: Part)
    requires Sound(fs)
  {
    var path, t := PathOf(c, w, part), TemporaryOf(c, w, part);
    && path in fs.names && t in fs.names && fs.names[t] == fs.names[path] && Content(fs, path) == BytesOf(c, w, part)
    && forall p <- fs.names :: fs.names[p] == fs.names[path] ==> p == path || p == t
  }

  ghost predicate CallOk(c: Config, fs: Files, w: Call, phase: Phase)
    requires Sound(fs)
  {
    match phase
    case Writing(part, n) =>
      ReadyFor(c, fs, w, part) && n <= |BytesOf(c, w, part)| && Holds(c, fs, w, part, BytesOf(c, w, part)[..n])
    case Written(part) =>
      ReadyFor(c, fs, w, part) && Holds(c, fs, w, part, BytesOf(c, w, part))
    case Linked(part, found) =>
      && ReadyFor(c, fs, w, part) && PathOf(c, w, part) in fs.names
      && (!found ==> HasLinked(c, fs, w, part))
    case Cleaned(part, found) =>
      && ReadyFor(c, fs, w, part) && PathOf(c, w, part) in fs.names
      && (!found ==> Content(fs, PathOf(c, w, part)) == BytesOf(c, w, part))
    case BlobStored =>
      ReadyFor(c, fs, w, BindingPart)
    case Returned(d) =>
      && Bound(c.e, fs, d) && SameBindingIdentity(d, Candidate(c.e, c.request(w)))
    case _ => true
  }

  ghost predicate SystemOk(c: Config, s: State) {
    Inv(c.e, s.fs) && forall w: Call :: CallOk(c, s.fs, w, PhaseOf(s, w))
  }

  /** A candidate that passes the schema check parses back to itself. */
  lemma CandidateParses(e: Services, q: Request)
    requires e.Lawful() && Admissible(e, q)
    ensures ParseDescriptor(e, e.render(Candidate(e, q)), q.run, q.step, q.declaration.name) == Ok(Candidate(e, q))
  {
  }

  lemma ReadyIsPublishable(c: Config, fs: Files, w: Call, part: Part)
    requires c.e.Lawful() && Sound(fs) && ReadyFor(c, fs, w, part)
    ensures Publishable(c.e, fs, PathOf(c, w, part), BytesOf(c, w, part))
  {
    CandidateParses(c.e, c.request(w));
    hide ParseDescriptor, SameBindingIdentity;
  }

  lemma ReadyStays(c: Config, a: Files, b: Files, w: Call, part: Part)
    requires Evolves(c.e, a, b) && ReadyFor(c, a, w, part)
    ensures Sound(b) && ReadyFor(c, b, w, part)
  {
    hide Inv, ParseDescriptor;
    var q := c.request(w);
    InvIsSound(c.e, b);
    if part.BindingPart? {
      PublishedStays(c.e, a, b, Blob(q.run, Candidate(c.e, q).digest));
    }
  }

  /** What others do leaves a call's facts as they are. */
  lemma CallStays(c: Config, a: Files, b: Files, w: Call, phase: Phase)
    requires Evolves(c.e, a, b) && TempsKept(w, a, b) && CallOk(c, a, w, phase)
    ensures Sound(b) && CallOk(c, b, w, phase)
  {
    hide Inv, Evolves, TempsKept, ReadyFor, Bound, Admissible, Candidate, ParseDescriptor, SameBindingIdentity;
    EvolvesIsSound(c.e, a, b);
    match phase
    case Writing(part, n) =>
      ReadyStays(c, a, b, w, part);
      TemporaryStays(a, b, TemporaryOf(c, w, part));
    case Written(part) =>
      ReadyStays(c, a, b, w, part);
      TemporaryStays(a, b, TemporaryOf(c, w, part));
    case Linked(part, found) =>
      ReadyStays(c, a, b, w, part);
      LinkedStays(c, a, b, w, part);
    case Cleaned(part, found) =>
      ReadyStays(c, a, b, w, part);
      PathIsPublished(c, w, part);
      PublishedStays(c.e, a, b, PathOf(c, w, part));
    case BlobStored =>
      ReadyStays(c, a, b, w, BindingPart);
    case Returned(d) =>
      BoundStays(c.e, a, b, d);
    case _ =>
  }

  lemma EvolvesIsSound(e: Services, a: Files, b: Files)
    requires Evolves(e, a, b)
    ensures Sound(a) && Sound(b)
  {
    hide ParseDescriptor;
  }

  lemma PathIsPublished(c: Config, w: Call, part: Part)
    ensures Published(PathOf(c, w, part))
  {
  }

  lemma LinkedStays(c: Config, a: Files, b: Files, w: Call, part: Part)
    requires Evolves(c.e, a, b) && TempsKept(w, a, b) && PathOf(c, w, part) in a.names && Sound(b)
    ensures PathOf(c, w, part) in b.names
    ensures HasLinked(c, a, w, part) ==> HasLinked(c, b, w, part)
  {
    hide Inv, Evolves;
    var path := PathOf(c, w, part);
    PathIsPublished(c, w, part);
    PublishedStays(c.e, a, b, path);
    assert TempKept(Temporary(path, w), a, b);
  }

  // ---------------------------------------------------------------- every step keeps it

  /** The file operations of a step do what the other calls rely on. */
  lemma StepDoes(c: Config, s: State, step: Step, s': State)
    requires c.e.Lawful() && SystemOk(c, s) && Next(c, s, step, s')
    ensures Does(c.e, step.w, s.fs, s'.fs)
  {
    hide Inv, Evolves, TempsKept, Admissible, Candidate, ParseDescriptor, BlobChecks, BindingChecks, Publishable;
    var w := step.w;
    InvIsSound(c.e, s.fs);
    assert CallOk(c, s.fs, w, PhaseOf(s, w));
    match step
    case Open(_, part, inode) => CreatedDoes(c.e, s.fs, TemporaryOf(c, w, part), inode);
    case Write(_, part, upTo) =>
      OverwrittenDoes(c.e, s.fs, TemporaryOf(c, w, part), BytesOf(c, w, part)[..upTo]);
    case Link(_, part) =>
      EvolvesItself(c.e, s.fs);
      if PathOf(c, w, part) !in s.fs.names {
        ReadyIsPublishable(c, s.fs, w, part);
        LinkedDoes(c.e, s.fs, TemporaryOf(c, w, part), PathOf(c, w, part));
      }
    case Clean(_, part) => UnlinkedDoes(c.e, s.fs, TemporaryOf(c, w, part));
    case Abandon(_, part) => UnlinkedDoes(c.e, s.fs, TemporaryOf(c, w, part));
    case _ => EvolvesItself(c.e, s.fs);
  }

  /** The call that steps is where its new phase says: the steps of a publication. */
  lemma PublicationArrives(c: Config, s: State, step: Step, s': State)
    requires Inv(c.e, s.fs) && Sound(s.fs) && Next(c, s, step, s') && CallOk(c, s.fs, step.w, PhaseOf(s, step.w))
    requires Evolves(c.e, s.fs, s'.fs) && Sound(s'.fs)
    requires step.Open? || step.Write? || step.Link? || step.Clean?
    ensures CallOk(c, s'.fs, step.w, PhaseOf(s', step.w))
  {
    hide Inv, Evolves, Candidate, ParseDescriptor, SameBindingIdentity, BlobChecks, BindingChecks;
    var w, part := step.w, step.part;
    ReadyForStep(c, s, step);
    ReadyStays(c, s.fs, s'.fs, w, part);
    hide Admissible, ReadyFor;
    PathIsPublished(c, w, part);
    assert BytesOf(c, w, part)[..0] == [];
  }

  lemma ReadyForStep(c: Config, s: State, step: Step)
    requires Sound(s.fs) && CallOk(c, s.fs, step.w, PhaseOf(s, step.w))
    requires step.Open? || step.Write? || step.Link? || step.Clean?
    requires exists s' :: Next(c, s, step, s')
    ensures ReadyFor(c, s.fs, step.w, step.part)
  {
    hide Candidate, ParseDescriptor, SameBindingIdentity, Bound, BlobChecks, BindingChecks, Created, Overwritten, LinkedTo, Unlinked;
  }

  /** The call that steps is where its new phase says. */
  lemma StepArrives(c: Config, s: State, step: Step, s': State)
    requires c.e.Lawful() && SystemOk(c, s) && Next(c, s, step, s') && Evolves(c.e, s.fs, s'.fs) && Sound(s'.fs)
    ensures CallOk(c, s'.fs, step.w, PhaseOf(s', step.w))
  {
    hide Inv, Evolves, Candidate, ParseDescriptor, SameBindingIdentity, Admissible, ReadyFor;
    var w := step.w;
    InvIsSound(c.e, s.fs);
    assert CallOk(c, s.fs, w, PhaseOf(s, w));
    match step
    case Finish(_, part) => assert BytesOf(c, w, part)[..|BytesOf(c, w, part)|] == BytesOf(c, w, part);
    case AcceptBlob(_) => AcceptedIsThere(c, s.fs, w, PhaseOf(s, w).found);
    case Return(_, d) => ReturnedIsBound(c, s, w, d);
    case ReturnExisting(_, d) => CheckedIsBound(c, s.fs, w, d);
    case CleanFails(_, _) =>
    case Abandon(_, _) =>
    case End(_) =>
    case _ => PublicationArrives(c, s, step, s');
  }

  lemma AcceptedIsThere(c: Config, fs: Files, w: Call, found: bool)
    requires Sound(fs) && CallOk(c, fs, w, Cleaned(BlobPart, found)) && (found ==> BlobChecks(c, fs, w))
    ensures ReadyFor(c, fs, w, BindingPart)
  {
    hide ParseDescriptor, SameBindingIdentity;
  }

  lemma CheckedIsBound(c: Config, fs: Files, w: Call, d: Descriptor)
    requires Inv(c.e, fs) && BindingChecks(c, fs, w, d)
    ensures Bound(c.e, fs, d) && SameBindingIdentity(d, Candidate(c.e, c.request(w)))
  {
    hide Inv, SameBindingIdentity;
  }

  lemma ReturnedIsBound(c: Config, s: State, w: Call, d: Descriptor)
    requires c.e.Lawful() && Inv(c.e, s.fs) && PhaseOf(s, w).Cleaned? && PhaseOf(s, w).part.BindingPart?
    requires Sound(s.fs) && CallOk(c, s.fs, w, PhaseOf(s, w))
    requires if PhaseOf(s, w).found then BindingChecks(c, s.fs, w, d) else d == Candidate(c.e, c.request(w))
    ensures Bound(c.e, s.fs, d) && SameBindingIdentity(d, Candidate(c.e, c.request(w)))
  {
    if PhaseOf(s, w).found {
      CheckedIsBound(c, s.fs, w, d);
    } else {
      CandidateParses(c.e, c.request(w));
    }
    hide Inv, ParseDescriptor;
  }

  /** Every step of any call keeps the invariant and what the other calls rely on. */
  lemma StepKeepsOk(c: Config, s: State, step: Step, s': State)
    requires c.e.Lawful() && SystemOk(c, s) && Next(c, s, step, s')
    ensures SystemOk(c, s') && Does(c.e, step.w, s.fs, s'.fs)
  {
    StepDoes(c, s, step, s');
    hide Inv, Evolves, TempsKept, CallOk;
    EvolvesKeepsInv(c.e, s.fs, s'.fs);
    EvolvesIsSound(c.e, s.fs, s'.fs);
    StepArrives(c, s, step, s');
    OthersPhases(c, s, step, s');
    forall w: Call | w != step.w
      ensures CallOk(c, s'.fs, w, PhaseOf(s', w))
    {
      CallStays(c, s.fs, s'.fs, w, PhaseOf(s, w));
    }
  }

  lemma OthersPhases(c: Config, s: State, step: Step, s': State)
    requires Next(c, s, step, s')
    ensures forall w: Call :: w != step.w ==> PhaseOf(s', w) == PhaseOf(s, w)
  {
    hide Created, Overwritten, LinkedTo, Unlinked, BlobChecks, BindingChecks, Admissible, Candidate;
  }

  // ---------------------------------------------------------------- whole runs

  /** Any interleaving of calls, from a store left by earlier ones. */
  ghost predicate IsRun(c: Config, states: seq<State>, steps: seq<Step>) {
    && |states| == |steps| + 1 && Inv(c.e, states[0].fs) && states[0].phase == map[]
    && forall k :: 0 <= k < |steps| ==> Next(c, states[k], steps[k], states[k + 1])
  }

  lemma {:induction false} RunKeepsOk(c: Config, states: seq<State>, steps: seq<Step>, n: nat)
    requires c.e.Lawful() && IsRun(c, states, steps) && n < |states|
    ensures SystemOk(c, states[n])
  {
    hide Inv, Next, CallOk;
    if n == 0 {
      FreshIsOk(c, states[0]);
    } else {
      RunKeepsOk(c, states, steps, n - 1);
      StepKeepsOk(c, states[n - 1], steps[n - 1], states[n]);
    }
  }

  lemma FreshIsOk(c: Config, s: State)
    requires Inv(c.e, s.fs) && s.phase == map[]
    ensures SystemOk(c, s)
  {
    hide ParseDescriptor;
  }

  lemma RunStep(c: Config, states: seq<State>, steps: seq<Step>, n: nat)
    requires c.e.Lawful() && IsRun(c, states, steps) && n < |steps|
    ensures Does(c.e, steps[n].w, states[n].fs, states[n + 1].fs) && Next(c, states[n], steps[n], states[n + 1])
  {
    hide Inv, Next, Evolves, TempsKept, SystemOk;
    RunKeepsOk(c, states, steps, n);
    StepKeepsOk(c, states[n], steps[n], states[n + 1]);
  }

  /** For any interleaving of calls and any crashes, a published file never changes or
      disappears, blobs hash to their digests, and every binding's blob is there. */
  lemma {:induction false} WrittenOnce(c: Config, states: seq<State>, steps: seq<Step>, i: nat, j: nat)
    requires c.e.Lawful() && IsRun(c, states, steps) && i <= j < |states|
    ensures Evolves(c.e, states[i].fs, states[j].fs)
    decreases j
  {
    hide Evolves, Inv, TempsKept, Next, CallOk, IsRun;
    RunKeepsOk(c, states, steps, i);
    if i == j {
      EvolvesItself(c.e, states[i].fs);
    } else {
      RunLength(c, states, steps);
      WrittenOnce(c, states, steps, i, j - 1);
      RunStep(c, states, steps, j - 1);
      EvolvesOnwards(c.e, states[i].fs, states[j - 1].fs, states[j].fs);
    }
  }

  lemma RunLength(c: Config, states: seq<State>, steps: seq<Step>)
    requires IsRun(c, states, steps)
    ensures |states| == |steps| + 1
  {
  }

  /** What the other calls do between two steps of `owner`: its temporary files and its
      phase stay as they are. */
  lemma {:induction false} OthersAreReliable(c: Config, states: seq<State>, steps: seq<Step>, owner: Call, i: nat, j: nat)
    requires c.e.Lawful() && IsRun(c, states, steps) && i <= j < |states|
    requires forall k :: i <= k < j ==> steps[k].w != owner
    ensures Evolves(c.e, states[i].fs, states[j].fs) && TempsKept(owner, states[i].fs, states[j].fs)
    ensures PhaseOf(states[j], owner) == PhaseOf(states[i], owner)
    decreases j
  {
    hide Evolves, Inv, TempsKept, Next, CallOk, IsRun;
    RunLength(c, states, steps);
    WrittenOnce(c, states, steps, i, j);
    if i == j {
      RunKeepsOk(c, states, steps, i);
      EvolvesItself(c.e, states[i].fs);
    } else {
      OthersAreReliable(c, states, steps, owner, i, j - 1);
      RunStep(c, states, steps, j - 1);
      OthersPhases(c, states[j - 1], steps[j - 1], states[j]);
      TempsKeptOnwards(owner, states[i].fs, states[j - 1].fs, states[j].fs);
    }
  }

  /** Two calls for one run, step and output that have returned, however far apart, have
      returned the same descriptor. */
  lemma TwoSuccessesAgree(c: Config, states: seq<State>, steps: seq<Step>, i: nat, j: nat, v: Call, w: Call)
    requires c.e.Lawful() && IsRun(c, states, steps) && i <= j < |states|
    requires PhaseOf(states[i], v).Returned? && PhaseOf(states[j], w).Returned?
    requires PathOf(c, v, BindingPart) == PathOf(c, w, BindingPart)
    ensures PhaseOf(states[i], v).descriptor == PhaseOf(states[j], w).descriptor
  {
    hide Inv, Evolves, Next, IsRun;
    RunKeepsOk(c, states, steps, i);
    RunKeepsOk(c, states, steps, j);
    WrittenOnce(c, states, steps, i, j);
    var d, d' := PhaseOf(states[i], v).descriptor, PhaseOf(states[j], w).descriptor;
    InvIsSound(c.e, states[i].fs);
    InvIsSound(c.e, states[j].fs);
    assert CallOk(c, states[i].fs, v, PhaseOf(states[i], v)) && CallOk(c, states[j].fs, w, PhaseOf(states[j], w));
    BoundStays(c.e, states[i].fs, states[j].fs, d);
  }

  // ---------------------------------------------------------------- what a death leaves

  /** A call has ended and left its temporary file as a second name of a published one. */
  ghost predicate Leftover(s: State, path: Path) {
    Published(path) && path in s.fs.names && exists w: Call :: LeftBy(s, path, w)
  }

  ghost predicate LeftBy(s: State, path: Path, w: Call)
    requires path in s.fs.names
  {
    PhaseOf(s, w).Ended? && Temporary(path, w) in s.fs.names && s.fs.names[Temporary(path, w)] == s.fs.names[path]
  }

  /** A call that dies right after linking leaves one. */
  lemma DeathAfterLinking(c: Config, s: State, w: Call)
    requires SystemOk(c, s) && PhaseOf(s, w).Linked? && !PhaseOf(s, w).found
    ensures var s' := At(s, w, Ended, s.fs);
            Next(c, s, End(w), s') && Leftover(s', PathOf(c, w, PhaseOf(s, w).part))
  {
    hide Inv, ReadyFor, Bound, SameBindingIdentity, Admissible, Candidate;
    InvIsSound(c.e, s.fs);
    var part := PhaseOf(s, w).part;
    assert CallOk(c, s.fs, w, PhaseOf(s, w));
    PathIsPublished(c, w, part);
    assert LeftBy(At(s, w, Ended, s.fs), PathOf(c, w, part), w);
  }

  lemma EndedStays(c: Config, s: State, step: Step, s': State, w: Call)
    requires Next(c, s, step, s') && PhaseOf(s, w).Ended?
    ensures PhaseOf(s', w).Ended?
    ensures step.w == w ==> s'.fs == s.fs
  {
    hide Created, Overwritten, LinkedTo, Unlinked, BlobChecks, BindingChecks, Admissible, Candidate;
  }

  lemma LeftoverStaysOneStep(c: Config, s: State, step: Step, s': State, path: Path)
    requires c.e.Lawful() && SystemOk(c, s) && Next(c, s, step, s') && Leftover(s, path)
    ensures Leftover(s', path)
  {
    var w: Call :| LeftBy(s, path, w);
    hide Next, Inv, Evolves, TempsKept, SystemOk;
    StepKeepsOk(c, s, step, s');
    EndedStays(c, s, step, s', w);
    PublishedStays(c.e, s.fs, s'.fs, path);
    if step.w != w { TempIsKept(w, s.fs, s'.fs, path); }
    assert LeftBy(s', path, w);
  }

  lemma TempIsKept(owner: Call, a: Files, b: Files, path: Path)
    requires TempsKept(owner, a, b) && Temporary(path, owner) in a.names
    ensures Temporary(path, owner) in b.names && b.names[Temporary(path, owner)] == a.names[Temporary(path, owner)]
  {
    assert TempKept(Temporary(path, owner), a, b);
  }

  /** Nobody ever removes it, so the published file is never singly linked again. */
  lemma {:induction false} LeftoverStays(c: Config, states: seq<State>, steps: seq<Step>, i: nat, j: nat, path: Path)
    requires c.e.Lawful() && IsRun(c, states, steps) && i <= j < |states| && Leftover(states[i], path)
    ensures Leftover(states[j], path) && !Isolated(states[j].fs, path)
    decreases j
  {
    hide Next, Inv, SystemOk, IsRun;
    if i < j {
      RunLength(c, states, steps);
      LeftoverStays(c, states, steps, i, j - 1, path);
      RunKeepsOk(c, states, steps, j - 1);
      RunStep(c, states, steps, j - 1);
      LeftoverStaysOneStep(c, states[j - 1], steps[j - 1], states[j], path);
    }
    var w: Call :| LeftBy(states[j], path, w);
    assert Temporary(path, w) in states[j].fs.names.Keys;
  }

  /** Where a call can be that has started after its blob, or its binding, was left
      behind: it finds the name taken and gets no further. */
  ghost predicate Stuck(part: Part, phase: Phase) {
    match phase
    case Linked(p, found) => p == part ==> found
    case Cleaned(p, found) => p == part ==> found
    case Returned(_) => false
    case _ => true
  }

  ghost predicate NotBeyond(part: Part, phase: Phase) {
    part.BlobPart? ==>
      !phase.BlobStored? && (phase.Writing? || phase.Written? || phase.Linked? || phase.Cleaned? ==> phase.part.BlobPart?)
  }

  lemma StuckStep(c: Config, s: State, step: Step, s': State, w: Call, part: Part)
    requires Next(c, s, step, s') && Leftover(s, PathOf(c, w, part)) && !Isolated(s.fs, PathOf(c, w, part))
    requires Stuck(part, PhaseOf(s, w)) && NotBeyond(part, PhaseOf(s, w))
    ensures Stuck(part, PhaseOf(s', w)) && NotBeyond(part, PhaseOf(s', w))
  {
    hide Created, Overwritten, LinkedTo, Unlinked, Admissible, ParseDescriptor, SameBindingIdentity;
    if step.w != w { OthersPhases(c, s, step, s'); }
  }

  /** So no call that starts then ever returns, whatever the others do. */
  lemma {:induction false} LeftoverBlocksCalls(c: Config, states: seq<State>, steps: seq<Step>, i: nat, j: nat, w: Call, part: Part)
    requires c.e.Lawful() && IsRun(c, states, steps) && i <= j < |states|
    requires Leftover(states[i], PathOf(c, w, part)) && PhaseOf(states[i], w).Idle?
    ensures Stuck(part, PhaseOf(states[j], w)) && NotBeyond(part, PhaseOf(states[j], w)) && !PhaseOf(states[j], w).Returned?
    decreases j
  {
    hide Next, Inv, SystemOk, IsRun, Leftover, PathOf;
    if i < j {
      RunLength(c, states, steps);
      LeftoverBlocksCalls(c, states, steps, i, j - 1, w, part);
      LeftoverStays(c, states, steps, i, j - 1, PathOf(c, w, part));
      RunStep(c, states, steps, j - 1);
      StuckStep(c, states[j - 1], steps[j - 1], states[j], w, part);
    }
  }

  /** Such a state is reached: the first call dies after linking its blob. */
  lemma LeftoverIsReached(c: Config)
    requires c.e.Lawful() && Admissible(c.e, c.request(0))
    ensures exists states: seq<State>, steps: seq<Step> ::
              IsRun(c, states, steps) && states[0].fs == Files(map[], map[]) && Leftover(states[|steps|], PathOf(c, 0, BlobPart))
  {
    hide Next, Admissible, Inv, IsRun, BytesOf, PathOf, LeftBy;
    var path, t, bytes := PathOf(c, 0, BlobPart), TemporaryOf(c, 0, BlobPart), BytesOf(c, 0, BlobPart);
    var s0 := State(Files(map[], map[]), map[]);
    var s1 := At(s0, 0, Writing(BlobPart, 0), Created(s0.fs, t, 0));
    var s2 := At(s1, 0, Writing(BlobPart, |bytes|), Overwritten(s1.fs, t, bytes));
    var s3 := At(s2, 0, Written(BlobPart), s2.fs);
    var s4 := At(s3, 0, Linked(BlobPart, false), LinkedTo(s3.fs, t, path));
    var s5 := At(s4, 0, Ended, s4.fs);
    OpensAndWrites(c, s0, s1, s2);
    PathIsPublished(c, 0, BlobPart);
    FinishesAndLinks(c, s2, s3, s4, s5);
    EmptyStoreIsOk(c.e);
    RunOfFive(c, s0, s1, s2, s3, s4, s5);
    LinkedAndEnded(s5, path, 0);
  }

  lemma OpensAndWrites(c: Config, s0: State, s1: State, s2: State)
    requires Admissible(c.e, c.request(0)) && s0 == State(Files(map[], map[]), map[])
    requires s1 == At(s0, 0, Writing(BlobPart, 0), Created(s0.fs, TemporaryOf(c, 0, BlobPart), 0))
    requires s2 == At(s1, 0, Writing(BlobPart, |BytesOf(c, 0, BlobPart)|), Overwritten(s1.fs, TemporaryOf(c, 0, BlobPart), BytesOf(c, 0, BlobPart)))
    ensures Next(c, s0, Open(0, BlobPart, 0), s1) && Next(c, s1, Write(0, BlobPart, |BytesOf(c, 0, BlobPart)|), s2)
  {
    hide Admissible, PathOf, BytesOf;
    var bytes := BytesOf(c, 0, BlobPart);
    assert bytes[..|bytes|] == bytes;
  }

  lemma FinishesAndLinks(c: Config, s2: State, s3: State, s4: State, s5: State)
    requires PhaseOf(s2, 0) == Writing(BlobPart, |BytesOf(c, 0, BlobPart)|) && s3 == At(s2, 0, Written(BlobPart), s2.fs)
    requires TemporaryOf(c, 0, BlobPart) in s2.fs.names && PathOf(c, 0, BlobPart) !in s2.fs.names
    requires s4 == At(s3, 0, Linked(BlobPart, false), LinkedTo(s3.fs, TemporaryOf(c, 0, BlobPart), PathOf(c, 0, BlobPart)))
    requires s5 == At(s4, 0, Ended, s4.fs)
    ensures Next(c, s2, Finish(0, BlobPart), s3) && Next(c, s3, Link(0, BlobPart), s4) && Next(c, s4, End(0), s5)
  {
    hide PathOf, BytesOf;
  }

  lemma EmptyStoreIsOk(e: Services)
    ensures Inv(e, Files(map[], map[]))
  {
  }

  lemma RunOfFive(c: Config, s0: State, s1: State, s2: State, s3: State, s4: State, s5: State)
    requires Inv(c.e, s0.fs) && s0.phase == map[]
    requires Next(c, s0, Open(0, BlobPart, 0), s1) && Next(c, s1, Write(0, BlobPart, |BytesOf(c, 0, BlobPart)|), s2)
    requires Next(c, s2, Finish(0, BlobPart), s3) && Next(c, s3, Link(0, BlobPart), s4) && Next(c, s4, End(0), s5)
    ensures exists states: seq<State>, steps: seq<Step> ::
              IsRun(c, states, steps) && states[0] == s0 && states[|steps|] == s5
  {
    hide Next, Inv, BytesOf;
    var states := [s0, s1, s2, s3, s4, s5];
    var steps := [Open(0, BlobPart, 0), Write(0, BlobPart, |BytesOf(c, 0, BlobPart)|), Finish(0, BlobPart), Link(0, BlobPart), End(0)];
    assert IsRun(c, states, steps);
  }

  lemma LinkedAndEnded(s: State, path: Path, w: Call)
    requires Published(path) && path in s.fs.names && Temporary(path, w) in s.fs.names
    requires s.fs.names[Temporary(path, w)] == s.fs.names[path] && PhaseOf(s, w).Ended?
    ensures Leftover(s, path)
  {
    assert LeftBy(s, path, w);
  }
}
