/** One call of the run artifact store (`src/artifacts/run-artifact-store.ts`) as the program
    makes it, while any other calls go on between its file operations. What it and they do
    is recorded as a run of `ArtifactCalls`. */
module ArtifactStore {
  import opened Wrappers
  import opened Bytes
  import opened ArtifactFiles
  import opened ArtifactCalls

  datatype Stat = Missing | NotIsolated | Regular(size: nat)

  datatype LinkOutcome = LinkCreated | LinkExists | LinkFailed

  datatype Outcome = Created | Exists | Failed | Died

  class Disk {
    const e: Services
    var files: Files
    /** How often an operation of a call has failed, or its process died. */
    var faults: nat
    ghost const config: Config
    ghost var states: seq<State>
    ghost var steps: seq<Step>

    /** What has happened is a run of calls, and the files are where it has come to. */
    ghost predicate Valid()
      reads this
    {
      && config.e == e && e.Lawful() && IsRun(config, states, steps) && |states| == |steps| + 1
      && files == states[|steps|].fs
    }

    ghost function Now(): State
      reads this
      requires |states| == |steps| + 1
    {
      states[|steps|]
    }

    ghost predicate In(owner: Call, phase: Phase)
      reads this
    {
      Valid() && PhaseOf(Now(), owner) == phase
    }

    /** The run has gone on. */
    twostate predicate GoesOn()
      reads this
    {
      old(states) <= states && old(steps) <= steps && old(faults) <= faults && Evolves(e, old(files), files)
    }

    constructor (e: Services, ghost request: Call -> Request)
      requires e.Lawful()
      ensures Valid() && this.e == e && files == Files(map[], map[]) && config.request == request
    {
      this.e, faults := e, 0;
      files, config := Files(map[], map[]), Config(e, request);
      states, steps := [State(Files(map[], map[]), map[])], [];
    }

    /** Records a step that has just been made. */
    ghost method Take(step: Step, next: State)
      requires config.e == e && e.Lawful() && IsRun(config, states, steps) && ArtifactCalls.Next(config, states[|steps|], step, next)
      requires files == next.fs
      modifies this`states, this`steps
      ensures Valid() && Now() == next && Evolves(e, old(states[|steps|]).fs, files)
      ensures states == old(states) + [next] && steps == old(steps) + [step]
    {
      RunGrows(config, states, steps, step, next);
      hide Evolves, IsRun, ArtifactCalls.Next;
      states, steps := states + [next], steps + [step];
    }

    /** Whatever other calls do between two operations of `owner`; its callers know only
        this contract. */
    method Others(owner: Call)
      requires Valid()
      modifies this`files, this`states, this`steps
      ensures Valid() && GoesOn() && TempsKept(owner, old(files), files)
      ensures PhaseOf(Now(), owner) == old(PhaseOf(Now(), owner))
      ensures forall k :: old(|steps|) <= k < |steps| ==> steps[k].w != owner
    {
      RunKeepsOk(config, states, steps, |steps|);
      EvolvesItself(e, files);
    }

    method CreateExclusive(t: Path, owner: Call, ghost part: Part) returns (ok: bool)
      requires In(owner, Start(part)) && t == TemporaryOf(config, owner, part) && Admissible(e, config.request(owner))
      modifies this`files, this`states, this`steps, this`faults
      ensures Valid() && GoesOn() && In(owner, if ok then Writing(part, 0) else Ended)
      ensures ok || old(faults) < faults || t in old(files).names
    {
      hide IsRun, Evolves, Admissible, Candidate, Inv;
      if t !in files.names {
        ok := *;
        if ok {
          FreshInode(files.data.Keys);
          var inode: nat :| inode !in files.data;
          files := ArtifactFiles.Created(files, t, inode);
          Take(Open(owner, part, inode), At(Now(), owner, Writing(part, 0), files));
          return;
        }
        faults := faults + 1;
      }
      Take(End(owner), At(Now(), owner, Ended, files));
      return false;
    }

    /** A write can stop anywhere. */
    method WriteAll(t: Path, bytes: Bytes, owner: Call, ghost part: Part) returns (ok: bool)
      requires In(owner, Writing(part, 0)) && t == TemporaryOf(config, owner, part) && bytes == BytesOf(config, owner, part)
      modifies this`files, this`states, this`steps, this`faults
      ensures Valid() && GoesOn()
      ensures ok ==> In(owner, Written(part))
      ensures !ok ==> PhaseOf(Now(), owner).Writing? && PhaseOf(Now(), owner).part == part && old(faults) < faults
    {
      RunKeepsOk(config, states, steps, |steps|);
      assert CallOk(config, files, owner, Writing(part, 0));
      hide IsRun, Evolves, Inv, BytesOf, PathOf, ReadyFor;
      var written: nat :| written <= |bytes|;
      files := Overwritten(files, t, bytes[..written]);
      Take(ArtifactCalls.Write(owner, part, written), At(Now(), owner, Writing(part, written), files));
      ghost var before := files;
      ok := written == |bytes|;
      if ok {
        Take(Finish(owner, part), At(Now(), owner, Written(part), files));
        EvolvesOnwards(e, old(files), before, files);
      } else {
        faults := faults + 1;
      }
    }

    /** `link`: fails when the name is taken, or for another reason. */
    method LinkFile(t: Path, path: Path, owner: Call, ghost part: Part) returns (o: LinkOutcome)
      requires In(owner, Written(part)) && t == TemporaryOf(config, owner, part) && path == PathOf(config, owner, part)
      modifies this`files, this`states, this`steps, this`faults
      ensures Valid() && GoesOn()
      ensures o.LinkCreated? ==> In(owner, Linked(part, false))
      ensures o.LinkExists? ==> In(owner, Linked(part, true))
      ensures o.LinkFailed? ==> In(owner, Written(part)) && files == old(files) && old(faults) < faults
    {
      RunKeepsOk(config, states, steps, |steps|);
      assert CallOk(config, files, owner, Written(part));
      EvolvesItself(e, files);
      hide IsRun, Evolves, Inv, BytesOf, PathOf, ReadyFor, TempsKept, HasLinked, BlobChecks, BindingChecks;
      if * {
        faults := faults + 1;
        return LinkFailed;
      }
      if path in files.names {
        Take(ArtifactCalls.Link(owner, part), At(Now(), owner, Linked(part, true), files));
        return LinkExists;
      }
      files := LinkedTo(files, t, path);
      Take(ArtifactCalls.Link(owner, part), At(Now(), owner, Linked(part, false), files));
      return LinkCreated;
    }

    /** `rm` after linking, whose failure is ignored. */
    method RemoveLinked(t: Path, owner: Call, ghost part: Part) returns (ghost removed: bool)
      requires Valid() && PhaseOf(Now(), owner).Linked? && PhaseOf(Now(), owner).part == part && t == TemporaryOf(config, owner, part)
      modifies this`files, this`states, this`steps, this`faults
      ensures Valid() && GoesOn() && In(owner, Cleaned(part, old(PhaseOf(Now(), owner).found)))
      ensures if removed then files == Unlinked(old(files), t) else old(faults) < faults
    {
      hide IsRun, Evolves, PathOf;
      ghost var found := PhaseOf(Now(), owner).found;
      if * {
        faults := faults + 1;
        Take(CleanFails(owner, part), At(Now(), owner, Cleaned(part, found), files));
        return false;
      }
      files := Unlinked(files, t);
      Take(Clean(owner, part), At(Now(), owner, Cleaned(part, found), files));
      removed := true;
    }

    /** `rm` after a failure, whose own failure is ignored. */
    method RemoveUnlinked(t: Path, owner: Call, ghost part: Part)
      requires Valid() && t == TemporaryOf(config, owner, part)
      requires PhaseOf(Now(), owner) == Written(part) || (PhaseOf(Now(), owner).Writing? && PhaseOf(Now(), owner).part == part)
      modifies this`files, this`states, this`steps, this`faults
      ensures Valid() && GoesOn() && In(owner, Ended)
    {
      hide IsRun, Evolves, PathOf;
      if * {
        faults := faults + 1;
        Take(End(owner), At(Now(), owner, Ended, files));
        return;
      }
      files := Unlinked(files, t);
      Take(Abandon(owner, part), At(Now(), owner, Ended, files));
    }

    method Lstat(path: Path) returns (s: Stat)
      requires Valid()
      ensures s.Missing? <==> path !in files.names
      ensures s.NotIsolated? ==> path in files.names && !Isolated(files, path)
      ensures s.Regular? ==> Isolated(files, path) && Sound(files) && s.size == |Content(files, path)|
    {
      RunKeepsOk(config, states, steps, |steps|);
      if path !in files.names { return Missing; }
      if !Isolated(files, path) { return NotIsolated; }
      return Regular(|Content(files, path)|);
    }

    /** `readBoundedRegularFile`. */
    method ReadBounded(path: Path, maximum: nat, owner: Call) returns (r: Result<Bytes, ArtifactError>)
      requires Valid() && Published(path)
      modifies this`files, this`states, this`steps, this`faults
      ensures Valid() && GoesOn() && PhaseOf(Now(), owner) == old(PhaseOf(Now(), owner))
      ensures r.Ok? ==> FileReadable(files, path, maximum) && Content(files, path) == r.value
      ensures FileReadable(old(files), path, maximum) ==> r.Ok?
      ensures r.Ok? || Unreadable(states, old(|steps|), path, maximum)
    {
      hide IsRun, Inv, Evolves, TempsKept, Isolated;
      Others(owner);
      ghost var before := files;
      if FileReadable(old(files), path, maximum) { FileStaysReadable(e, old(files), before, path, maximum); }
      var state := Lstat(path);
      if state.Missing? { return Err(ArtifactNotFound); }
      if state.NotIsolated? { return Err(ArtifactInvalid); }
      if state.size > maximum { return Err(SizeMismatch); }
      Others(owner);
      EvolvesOnwards(e, old(files), before, files);
      PublishedStays(e, before, files, path);
      FileStaysReadable(e, before, files, path, maximum);
      // The opened file is the one found: it has not been replaced, nor linked again.
      r := Ok(Content(files, path));
    }

    /** `readRunArtifactDescriptor`. */
    method ReadDescriptor(run: string, step: string, output: string, owner: Call)
      returns (r: Result<Descriptor, ArtifactError>)
      requires Valid()
      modifies this`files, this`states, this`steps, this`faults
      ensures Valid() && GoesOn() && PhaseOf(Now(), owner) == old(PhaseOf(Now(), owner))
      ensures r.Ok? ==> Bound(e, files, r.value) && r.value.run == run && r.value.step == step && r.value.name == output
                        && BindingReadable(files, run, step, output)
      ensures BindingReadable(old(files), run, step, output) ==> r.Ok?
      ensures r.Ok? || Unreadable(states, old(|steps|), Binding(run, step, output), MAX_DESCRIPTOR_BYTES)
    {
      hide IsRun, Evolves;
      var path := Binding(run, step, output);
      var bytes := ReadBounded(path, MAX_DESCRIPTOR_BYTES, owner);
      if bytes.Err? { return Err(bytes.error); }
      RunKeepsOk(config, states, steps, |steps|);
      assert Resolves(e, files, run, step, output);
      r := ParseDescriptor(e, bytes.value, run, step, output);
    }

    /** `readRunArtifact`: what it returns hashes to the digest of the descriptor. It
        succeeds if both files are readable, and only if they are. */
    method ReadArtifact(run: string, step: string, output: string, owner: Call)
      returns (r: Result<(Descriptor, Bytes), ArtifactError>)
      requires Valid()
      modifies this`files, this`states, this`steps, this`faults
      ensures Valid() && GoesOn() && PhaseOf(Now(), owner) == old(PhaseOf(Now(), owner))
      ensures r.Ok? ==> var (d, bytes) := r.value;
                        && Bound(e, files, d) && d.run == run && d.step == step && d.name == output
                        && e.sha256(bytes) == d.digest && |bytes| == d.size
                        && BlobReadable(files, run, d.digest) && Content(files, Blob(run, d.digest)) == bytes
      ensures r.Ok? ==> Readable(e, files, run, step, output)
      ensures Readable(e, old(files), run, step, output) ==> r.Ok?
      ensures r.Ok? || exists k: nat :: old(|steps|) <= k < |states| && !Readable(e, states[k].fs, run, step, output)
    {
      hide IsRun, Evolves, Inv, ParseDescriptor;
      var descriptor := ReadDescriptor(run, step, output, owner);
      if descriptor.Err? { return Err(descriptor.error); }
      var d := descriptor.value;
      ghost var found := files;
      if Readable(e, old(files), run, step, output) { ReadableStays(e, old(files), files, d); }
      BoundHasBlob(e, files, d);
      var bytes := ReadBounded(d.blobPath, MAX_OUTPUT_ARTIFACT_BYTES, owner);
      EvolvesOnwards(e, old(files), found, files);
      if bytes.Err? { return Err(bytes.error); }
      BoundStays(e, found, files, d);
      BoundHasBlob(e, files, d);
      FileStaysReadable(e, found, files, Binding(run, step, output), MAX_DESCRIPTOR_BYTES);
      if |bytes.value| != d.size { return Err(SizeMismatch); }
      if e.sha256(bytes.value) != d.digest { return Err(DigestMismatch); }
      r := Ok((d, bytes.value));
    }

    /** `publishImmutableFile`: the name appears at once with all its bytes, or not at all.
        `clean`: the temporary file is known to be gone. A call that died after linking
        has left the file under two names. */
    method Publish(path: Path, bytes: Bytes, owner: Call, ghost part: Part) returns (r: Outcome, ghost clean: bool)
      requires In(owner, Start(part)) && Admissible(e, config.request(owner))
      requires path == PathOf(config, owner, part) && bytes == BytesOf(config, owner, part)
      modifies this`files, this`states, this`steps, this`faults
      ensures Valid() && GoesOn()
      ensures r.Created? ==> In(owner, Cleaned(part, false)) && path in files.names && (clean ==> Isolated(files, path))
      ensures r.Exists? ==> In(owner, Cleaned(part, true))
      ensures r.Failed? ==> In(owner, Ended)
      ensures r.Died? ==>
                var phase := PhaseOf(Now(), owner);
                (phase.Writing? || phase.Written? || phase.Linked?) && phase.part == part
                && (phase == Linked(part, false) ==> Sound(files) && HasLinked(config, files, owner, part))
      ensures r.Created? || r.Exists? || old(faults) < faults || WasObstructed(config, states, old(|steps|), owner)
    {
      hide IsRun, Evolves, Inv, TempsKept, Admissible, PathOf, BytesOf, HasLinked, Isolated;
      var t := Temporary(path, owner);
      r := WriteTemporary(t, bytes, owner, part);
      if !r.Created? { return r, false; }
      ghost var before := files;
      Others(owner);
      EvolvesOnwards(e, old(files), before, files);
      before := files;
      r, clean := LinkAndClean(t, path, owner, part);
      EvolvesOnwards(e, old(files), before, files);
    }

    /** The beginning of `publishImmutableFile`: an exclusive temporary file with all the
        bytes. */
    method WriteTemporary(t: Path, bytes: Bytes, owner: Call, ghost part: Part) returns (r: Outcome)
      requires In(owner, Start(part)) && Admissible(e, config.request(owner))
      requires t == TemporaryOf(config, owner, part) && bytes == BytesOf(config, owner, part)
      modifies this`files, this`states, this`steps, this`faults
      ensures Valid() && GoesOn() && !r.Exists?
      ensures r.Created? ==> In(owner, Written(part))
      ensures r.Failed? ==> In(owner, Ended)
      ensures r.Died? ==> var phase := PhaseOf(Now(), owner); (phase.Writing? || phase.Written?) && phase.part == part
      ensures r.Created? || old(faults) < faults || WasObstructed(config, states, old(|steps|), owner)
    {
      hide IsRun, Evolves, Inv, TempsKept, Admissible, PathOf, BytesOf, Isolated, WasObstructed, BlobChecks, BindingChecks;
      Others(owner);
      ghost var before := files;
      ghost var n := |steps|;
      var created := CreateExclusive(t, owner, part);
      EvolvesOnwards(e, old(files), before, files);
      if !created {
        if t in before.names { ObstructedAt(config, states, old(|steps|), n, owner, part); }
        return Failed;
      }
      if * {
        faults := faults + 1;
        return Died;
      }
      before := files;
      Others(owner);
      EvolvesOnwards(e, old(files), before, files);
      before := files;
      var written := WriteAll(t, bytes, owner, part);
      EvolvesOnwards(e, old(files), before, files);
      if * {
        faults := faults + 1;
        return Died;
      }
      if written { return Created; }
      before := files;
      RemoveUnlinked(t, owner, part);
      EvolvesOnwards(e, old(files), before, files);
      return Failed;
    }

    /** The end of `publishImmutableFile`. */
    method LinkAndClean(t: Path, path: Path, owner: Call, ghost part: Part) returns (r: Outcome, ghost clean: bool)
      requires In(owner, Written(part)) && t == TemporaryOf(config, owner, part) && path == PathOf(config, owner, part)
      modifies this`files, this`states, this`steps, this`faults
      ensures Valid() && GoesOn()
      ensures r.Created? ==> In(owner, Cleaned(part, false)) && path in files.names && (clean ==> Isolated(files, path))
      ensures r.Exists? ==> In(owner, Cleaned(part, true))
      ensures r.Failed? ==> In(owner, Ended)
      ensures r.Died? ==> PhaseOf(Now(), owner).Linked? && PhaseOf(Now(), owner).part == part
      ensures r.Died? && !PhaseOf(Now(), owner).found ==> Sound(files) && HasLinked(config, files, owner, part)
      ensures r.Created? || r.Exists? || old(faults) < faults
    {
      hide IsRun, Evolves, Inv, TempsKept, PathOf, BytesOf;
      clean := false;
      ghost var before := files;
      var o := LinkFile(t, path, owner, part);
      if o.LinkFailed? {
        RemoveUnlinked(t, owner, part);
        return Failed, false;
      }
      if * {
        faults := faults + 1;
        LinkedFacts(config, states, steps, owner, part);
        return Died, false;
      }
      before := files;
      Others(owner);
      EvolvesOnwards(e, old(files), before, files);
      LinkedFacts(config, states, steps, owner, part);
      before := files;
      clean := RemoveLinked(t, owner, part);
      EvolvesOnwards(e, old(files), before, files);
      PathIsPublished(config, owner, part);
      PublishedStays(e, before, files, path);
      r := if o.LinkCreated? then Created else Exists;
    }

    /** When the binding is there: the same identity, and a blob that can be read. */
    method ReturnPresent(q: Request, owner: Call) returns (r: Result<Descriptor, ArtifactError>)
      requires In(owner, Idle) && config.request(owner) == q
      modifies this`files, this`states, this`steps, this`faults
      ensures Valid() && GoesOn()
      ensures r.Ok? ==> In(owner, Returned(r.value)) && Readable(e, files, q.run, q.step, q.declaration.name)
      ensures r.Err? ==> In(owner, Idle)
      ensures AlreadyMaterialized(e, old(files), q) ==> r.Ok?
      ensures r.Ok? || (Binding(q.run, q.step, q.declaration.name) in old(files).names ==> WasObstructed(config, states, old(|steps|), owner))
    {
      hide IsRun, Evolves, Inv, ParseDescriptor, SameBindingIdentity, Candidate, Describes, PathOf, WasObstructed, Obstructed, FileReadable, BlobChecks, BindingChecks;
      var found := ReadDescriptor(q.run, q.step, q.declaration.name, owner);
      if found.Err? {
        if Binding(q.run, q.step, q.declaration.name) in old(files).names {
          PathsAre(config, owner);
          UnreadableObstructs(config, states, steps, old(|steps|), old(|steps|), owner, BindingPart);
        }
        return Err(found.error);
      }
      var existing := found.value;
      ghost var before := files;
      if AlreadyMaterialized(e, old(files), q) { StaysMaterialized(e, old(files), files, q); }
      BoundIdentity(e, files, existing, q);
      if !SameBindingIdentity(existing, Candidate(e, q)) {
        ConflictObstructs(config, states, steps, old(|steps|), owner, existing);
        return Err(ArtifactConflict);
      }
      ghost var n := |steps|;
      var loaded := ReadArtifact(q.run, q.step, q.declaration.name, owner);
      EvolvesOnwards(e, old(files), before, files);
      if loaded.Err? {
        UnreadablePairObstructs(config, states, steps, old(|steps|), n, owner, existing);
        return Err(loaded.error);
      }
      BoundStays(e, before, files, existing);
      PresentChecks(config, files, owner, existing, loaded.value.1);
      before := files;
      Take(ReturnExisting(owner, existing), At(Now(), owner, Returned(existing), files));
      EvolvesOnwards(e, old(files), before, files);
      r := Ok(existing);
    }

    /** The blob: published, or already there with the same size and digest. */
    method PublishBlob(q: Request, owner: Call) returns (r: Result<(), ArtifactError>, ghost clean: bool)
      requires In(owner, Idle) && config.request(owner) == q && Admissible(e, q)
      modifies this`files, this`states, this`steps, this`faults
      ensures Valid() && GoesOn()
      ensures r.Ok? ==> In(owner, BlobStored)
      ensures r.Ok? && clean ==> BlobReadable(files, q.run, e.sha256(q.bytes))
      ensures r.Err? ==> !PhaseOf(Now(), owner).Returned?
      ensures r.Ok? || old(faults) < faults || WasObstructed(config, states, old(|steps|), owner)
    {
      hide IsRun, Evolves, Inv, ParseDescriptor, SameBindingIdentity;
      var digest := e.sha256(q.bytes);
      var path := Blob(q.run, digest);
      var outcome;
      outcome, clean := Publish(path, q.bytes, owner, BlobPart);
      ghost var before := files;
      match outcome {
        case Created =>
          CreatedBlobIsReadable(config, states, steps, owner);
          Take(AcceptBlob(owner), At(Now(), owner, BlobStored, files));
          EvolvesOnwards(e, old(files), before, files);
          return Ok(()), clean;
        case Failed => return Err(IoFailure), clean;
        case Died => return Err(ProcessDied), clean;
        case Exists =>
      }
      CleanedFacts(config, states, steps, owner);
      ghost var n := |steps|;
      var existing := ReadBounded(path, MAX_OUTPUT_ARTIFACT_BYTES, owner);
      EvolvesOnwards(e, old(files), before, files);
      if existing.Err? {
        UnreadableObstructs(config, states, steps, old(|steps|), n, owner, BlobPart);
        return Err(existing.error), clean;
      }
      if !BlobChecks(config, files, owner) { ObstructedAt(config, states, old(|steps|), |steps|, owner, BlobPart); }
      if |existing.value| != |q.bytes| { return Err(SizeMismatch), clean; }
      if e.sha256(existing.value) != digest { return Err(DigestMismatch), clean; }
      before := files;
      Take(AcceptBlob(owner), At(Now(), owner, BlobStored, files));
      EvolvesOnwards(e, old(files), before, files);
      return Ok(()), true;
    }

    /** The binding: published, or already there with the same identity. */
    method PublishBinding(q: Request, owner: Call) returns (r: Result<Descriptor, ArtifactError>, ghost clean: bool)
      requires In(owner, BlobStored) && config.request(owner) == q && Admissible(e, q)
      modifies this`files, this`states, this`steps, this`faults
      ensures Valid() && GoesOn()
      ensures r.Ok? ==> In(owner, Returned(r.value))
      ensures r.Err? ==> !PhaseOf(Now(), owner).Returned?
      ensures r.Ok? && clean && |e.render(Candidate(e, q))| <= MAX_DESCRIPTOR_BYTES ==>
                BindingReadable(files, q.run, q.step, q.declaration.name)
      ensures r.Ok? || old(faults) < faults || WasObstructed(config, states, old(|steps|), owner)
    {
      hide IsRun, Evolves, Inv, ParseDescriptor, SameBindingIdentity, Admissible;
      var candidate := Candidate(e, q);
      var outcome;
      outcome, clean := Publish(candidate.descriptorPath, e.render(candidate), owner, BindingPart);
      ghost var before := files;
      match outcome {
        case Created =>
          CreatedBindingIsReadable(config, states, steps, owner);
          Take(Return(owner, candidate), At(Now(), owner, Returned(candidate), files));
          EvolvesOnwards(e, old(files), before, files);
          return Ok(candidate), clean;
        case Failed => return Err(IoFailure), clean;
        case Died => return Err(ProcessDied), clean;
        case Exists =>
      }
      CleanedFacts(config, states, steps, owner);
      ghost var n := |steps|;
      var found := ReadDescriptor(q.run, q.step, q.declaration.name, owner);
      EvolvesOnwards(e, old(files), before, files);
      if found.Err? {
        UnreadableObstructs(config, states, steps, old(|steps|), n, owner, BindingPart);
        return Err(found.error), clean;
      }
      if !SameBindingIdentity(found.value, candidate) {
        ConflictObstructs(config, states, steps, old(|steps|), owner, found.value);
        return Err(ArtifactConflict), clean;
      }
      before := files;
      Take(Return(owner, found.value), At(Now(), owner, Returned(found.value), files));
      EvolvesOnwards(e, old(files), before, files);
      return found, true;
    }

    /** The end of `materializeRunArtifact`: the blob, then the binding. */
    method PublishBoth(q: Request, owner: Call) returns (r: Result<Descriptor, ArtifactError>, ghost clean: bool)
      requires In(owner, Idle) && config.request(owner) == q && Admissible(e, q)
      modifies this`files, this`states, this`steps, this`faults
      ensures Valid() && GoesOn()
      ensures r.Ok? ==> In(owner, Returned(r.value))
      ensures r.Err? ==> !PhaseOf(Now(), owner).Returned?
      ensures r.Ok? && clean && |e.render(Candidate(e, q))| <= MAX_DESCRIPTOR_BYTES ==>
                Readable(e, files, q.run, q.step, q.declaration.name)
      ensures r.Ok? || old(faults) < faults || WasObstructed(config, states, old(|steps|), owner)
    {
      hide IsRun, Evolves, Inv, TempsKept, ParseDescriptor, SameBindingIdentity, Isolated, WasObstructed, FileReadable;
      var stored;
      stored, clean := PublishBlob(q, owner);
      if stored.Err? { return Err(stored.error), false; }
      ghost var before, n, blobClean := files, |steps|, clean;
      r, clean := PublishBinding(q, owner);
      EvolvesOnwards(e, old(files), before, files);
      if WasObstructed(config, states, n, owner) { WasObstructedLater(config, states, states, old(|steps|), n, owner); }
      clean := clean && blobClean;
      if r.Ok? && clean && |e.render(Candidate(e, q))| <= MAX_DESCRIPTOR_BYTES {
        BothAreReadable(config, states, steps, owner, before);
      }
    }

    /** The body of `materializeRunArtifact`. */
    method Attempt(q: Request, owner: Call) returns (r: Result<Descriptor, ArtifactError>, ghost clean: bool)
      requires In(owner, Idle) && config.request(owner) == q
      modifies this`files, this`states, this`steps, this`faults
      ensures Valid() && GoesOn()
      ensures r.Ok? ==> In(owner, Returned(r.value))
      ensures r.Err? ==> !PhaseOf(Now(), owner).Returned?
      ensures r.Ok? && clean && |e.render(Candidate(e, q))| <= MAX_DESCRIPTOR_BYTES ==>
                Readable(e, files, q.run, q.step, q.declaration.name)
      ensures AlreadyMaterialized(e, old(files), q) && Admissible(e, q) ==> r.Ok?
      ensures !Admissible(e, q) ==> r == Err(if TooLarge(e, q) then SizeMismatch else ArtifactInvalid)
      ensures r.Ok? || !Admissible(e, q) || old(faults) < faults || WasObstructed(config, states, old(|steps|), owner)
    {
      hide IsRun, Evolves, Inv, TempsKept, ParseDescriptor, SameBindingIdentity, Isolated, AlreadyMaterialized, WasObstructed, FileReadable, Describes;
      clean := false;
      Others(owner);
      if AlreadyMaterialized(e, old(files), q) { StaysMaterialized(e, old(files), files, q); }
      if !e.acceptsTokens(q) || q.declaration.kind == "directory" { return Err(ArtifactInvalid), false; }
      if |q.bytes| > MAX_OUTPUT_ARTIFACT_BYTES { return Err(SizeMismatch), false; }
      var candidate := Candidate(e, q);
      if !e.acceptsPayload(q) || !e.schemaAccepts(candidate) { return Err(ArtifactInvalid), false; }
      var state := Lstat(candidate.descriptorPath);
      if state.NotIsolated? {
        SharedNameObstructs(config, states, old(|steps|), owner);
        return Err(ArtifactInvalid), false;
      }
      ghost var before, n := files, |steps|;
      if state.Missing? {
        r, clean := PublishBoth(q, owner);
      } else {
        r := ReturnPresent(q, owner);
        clean := true;
      }
      EvolvesOnwards(e, old(files), before, files);
      if WasObstructed(config, states, n, owner) { WasObstructedLater(config, states, states, old(|steps|), n, owner); }
    }

    /** `materializeRunArtifact`: a success leaves a binding that parses to what is
        returned, with the identity asked for, next to a blob with the bytes' digest; it can
        be read unless a temporary link was left behind. A repeated call for a readable
        artifact succeeds, and none succeeds past a leftover of its blob or binding. */
    method Materialize(q: Request, owner: Call) returns (r: Result<Descriptor, ArtifactError>, ghost clean: bool)
      requires In(owner, Idle) && config.request(owner) == q
      modifies this`files, this`states, this`steps, this`faults
      ensures Valid() && GoesOn()
      ensures r.Ok? ==> In(owner, Returned(r.value)) && Bound(e, files, r.value) && Describes(e, r.value, q)
      ensures r.Err? ==> In(owner, Ended)
      ensures r.Ok? && clean && |e.render(Candidate(e, q))| <= MAX_DESCRIPTOR_BYTES ==>
                Readable(e, files, q.run, q.step, q.declaration.name)
      ensures AlreadyMaterialized(e, old(files), q) && Admissible(e, q) ==> r.Ok?
      ensures forall part :: old(Leftover(Now(), PathOf(config, owner, part))) ==> r.Err?
      ensures !Admissible(e, q) ==> r == Err(if TooLarge(e, q) then SizeMismatch else ArtifactInvalid)
      ensures r.Ok? || !Admissible(e, q) || old(faults) < faults || WasObstructed(config, states, old(|steps|), owner)
    {
      hide IsRun, Evolves, Inv, ParseDescriptor, SameBindingIdentity, Candidate, Leftover, PathOf, AlreadyMaterialized;
      ghost var n := |steps|;
      r, clean := Attempt(q, owner);
      if r.Err? {
        ghost var before, earlier := files, states;
        Take(End(owner), At(Now(), owner, Ended, files));
        EvolvesOnwards(e, old(files), before, files);
        if WasObstructed(config, earlier, old(|steps|), owner) {
          WasObstructedLater(config, earlier, states, old(|steps|), old(|steps|), owner);
        }
        return;
      }
      ReturnedFacts(config, states, steps, owner);
      ReturnedDescribes(e, files, r.value, q);
      forall part | Leftover(states[n], PathOf(config, owner, part))
        ensures false
      {
        LeftoverBlocksCalls(config, states, steps, n, |steps|, owner, part);
      }
    }
  }

  /** At some moment since `from` the file could not be read. */
  ghost predicate Unreadable(states: seq<State>, from: nat, path: Path, maximum: nat) {
    exists k: nat :: from <= k < |states| && !FileReadable(states[k].fs, path, maximum)
  }

  /** At some moment since `from` something stood in the call's way. */
  ghost predicate WasObstructed(c: Config, states: seq<State>, from: nat, w: Call) {
    exists k: nat, part: Part :: from <= k < |states| && Obstructed(c, states[k], w, part)
  }

  lemma WasObstructedLater(c: Config, early: seq<State>, late: seq<State>, from: nat, since: nat, w: Call)
    requires early <= late && from <= since && WasObstructed(c, early, since, w)
    ensures WasObstructed(c, late, from, w)
  {
    var k: nat, part: Part :| since <= k < |early| && Obstructed(c, early[k], w, part);
    assert Obstructed(c, late[k], w, part);
  }

  lemma PathsAre(c: Config, w: Call)
    ensures var q := c.request(w);
            PathOf(c, w, BlobPart) == Blob(q.run, c.e.sha256(q.bytes)) && PathOf(c, w, BindingPart) == Binding(q.run, q.step, q.declaration.name)
  {
  }

  lemma BoundIdentity(e: Services, fs: Files, d: Descriptor, q: Request)
    requires Bound(e, fs, d) && d.run == q.run && d.step == q.step && d.name == q.declaration.name
    ensures SameBindingIdentity(d, Candidate(e, q)) <==> Describes(e, d, q)
  {
    hide Inv, ParseDescriptor, SameBindingIdentity, Describes, Candidate;
    InvIsSound(e, fs);
    IdentityExactly(e, d, q, Content(fs, Binding(d.run, d.step, d.name)));
  }

  lemma ReturnedDescribes(e: Services, fs: Files, d: Descriptor, q: Request)
    requires Bound(e, fs, d) && SameBindingIdentity(d, Candidate(e, q))
    ensures Describes(e, d, q)
  {
    hide Inv, ParseDescriptor, Describes;
    BoundIdentity(e, fs, d, q);
  }

  lemma ObstructedAt(c: Config, states: seq<State>, from: nat, k: nat, w: Call, part: Part)
    requires from <= k < |states| && Obstructed(c, states[k], w, part)
    ensures WasObstructed(c, states, from, w)
  {
  }

  lemma SharedNameObstructs(c: Config, states: seq<State>, from: nat, w: Call)
    requires from < |states| && PathOf(c, w, BindingPart) in states[|states| - 1].fs.names
    requires !Isolated(states[|states| - 1].fs, PathOf(c, w, BindingPart))
    ensures WasObstructed(c, states, from, w)
  {
    ObstructedAt(c, states, from, |states| - 1, w, BindingPart);
  }

  /** A published name of the call that stays unreadable stands in its way. */
  lemma UnreadableObstructs(c: Config, states: seq<State>, steps: seq<Step>, from: nat, since: nat, w: Call, part: Part)
    requires c.e.Lawful() && IsRun(c, states, steps) && from <= since < |states| && PathOf(c, w, part) in states[since].fs.names
    requires Unreadable(states, since, PathOf(c, w, part), if part.BlobPart? then MAX_OUTPUT_ARTIFACT_BYTES else MAX_DESCRIPTOR_BYTES)
    ensures WasObstructed(c, states, from, w)
  {
    hide IsRun, Evolves, ParseDescriptor, SameBindingIdentity;
    var maximum := if part.BlobPart? then MAX_OUTPUT_ARTIFACT_BYTES else MAX_DESCRIPTOR_BYTES;
    var k: nat :| since <= k < |states| && !FileReadable(states[k].fs, PathOf(c, w, part), maximum);
    WrittenOnce(c, states, steps, since, k);
    PathIsPublished(c, w, part);
    PublishedStays(c.e, states[since].fs, states[k].fs, PathOf(c, w, part));
    ObstructedAt(c, states, from, k, w, part);
  }

  /** So does a binding with another identity. */
  lemma ConflictObstructs(c: Config, states: seq<State>, steps: seq<Step>, from: nat, w: Call, d: Descriptor)
    requires IsRun(c, states, steps) && from < |states|
    requires var q := c.request(w); d.run == q.run && d.step == q.step && d.name == q.declaration.name
    requires Bound(c.e, states[|steps|].fs, d) && !SameBindingIdentity(d, Candidate(c.e, c.request(w)))
    ensures WasObstructed(c, states, from, w)
  {
    hide IsRun, Inv, ParseDescriptor, SameBindingIdentity;
    RunLength(c, states, steps);
    ObstructedAt(c, states, from, |steps|, w, BindingPart);
  }

  /** And so does either file of an artifact that has the right identity, when it cannot
      be read. */
  lemma UnreadablePairObstructs(c: Config, states: seq<State>, steps: seq<Step>, from: nat, since: nat, w: Call, d: Descriptor)
    requires c.e.Lawful() && IsRun(c, states, steps) && from <= since < |states|
    requires var q := c.request(w); d.run == q.run && d.step == q.step && d.name == q.declaration.name
    requires Bound(c.e, states[since].fs, d) && SameBindingIdentity(d, Candidate(c.e, c.request(w)))
    requires exists k: nat :: since <= k < |states| && !Readable(c.e, states[k].fs, d.run, d.step, d.name)
    ensures WasObstructed(c, states, from, w)
  {
    hide IsRun, Evolves, Inv, ParseDescriptor;
    var k: nat :| since <= k < |states| && !Readable(c.e, states[k].fs, d.run, d.step, d.name);
    WrittenOnce(c, states, steps, since, k);
    BoundStays(c.e, states[since].fs, states[k].fs, d);
    BoundHasBlob(c.e, states[k].fs, d);
    ObstructedAt(c, states, from, k, w, if BindingReadable(states[k].fs, d.run, d.step, d.name) then BlobPart else BindingPart);
  }

  lemma CleanedFacts(c: Config, states: seq<State>, steps: seq<Step>, w: Call)
    requires c.e.Lawful() && IsRun(c, states, steps) && PhaseOf(states[|steps|], w).Cleaned?
    ensures PathOf(c, w, PhaseOf(states[|steps|], w).part) in states[|steps|].fs.names
  {
    hide IsRun, Inv, PathOf;
    RunLength(c, states, steps);
    RunKeepsOk(c, states, steps, |steps|);
    InvIsSound(c.e, states[|steps|].fs);
    assert CallOk(c, states[|steps|].fs, w, PhaseOf(states[|steps|], w));
  }

  lemma RunGrows(c: Config, states: seq<State>, steps: seq<Step>, step: Step, next: State)
    requires c.e.Lawful() && IsRun(c, states, steps) && ArtifactCalls.Next(c, states[|steps|], step, next)
    ensures IsRun(c, states + [next], steps + [step]) && Evolves(c.e, states[|steps|].fs, next.fs)
  {
    hide ArtifactCalls.Next, Inv, Evolves, TempsKept, SystemOk;
    var longer, more := states + [next], steps + [step];
    forall k | 0 <= k < |more|
      ensures ArtifactCalls.Next(c, longer[k], more[k], longer[k + 1])
    {
      if k < |steps| { assert ArtifactCalls.Next(c, states[k], steps[k], states[k + 1]); }
    }
    RunKeepsOk(c, states, steps, |steps|);
    StepKeepsOk(c, states[|steps|], step, next);
  }

  lemma BoundHasBlob(e: Services, fs: Files, d: Descriptor)
    requires Bound(e, fs, d)
    ensures d.blobPath == Blob(d.run, d.digest) && Sound(fs) && BlobIsThere(fs, d.run, d)
    ensures e.sha256(Content(fs, Blob(d.run, d.digest))) == d.digest
  {
    assert Resolves(e, fs, d.run, d.step, d.name);
  }

  lemma LinkedFacts(c: Config, states: seq<State>, steps: seq<Step>, w: Call, part: Part)
    requires c.e.Lawful() && IsRun(c, states, steps)
    requires PhaseOf(states[|steps|], w).Linked? && PhaseOf(states[|steps|], w).part == part
    ensures var fs := states[|steps|].fs;
            && Sound(fs) && PathOf(c, w, part) in fs.names
            && (!PhaseOf(states[|steps|], w).found ==> HasLinked(c, fs, w, part))
  {
    hide IsRun, Inv, HasLinked, PathOf;
    RunLength(c, states, steps);
    RunKeepsOk(c, states, steps, |steps|);
    InvIsSound(c.e, states[|steps|].fs);
    assert CallOk(c, states[|steps|].fs, w, PhaseOf(states[|steps|], w));
  }

  lemma PresentChecks(c: Config, fs: Files, w: Call, d: Descriptor, bytes: Bytes)
    requires Bound(c.e, fs, d) && SameBindingIdentity(d, Candidate(c.e, c.request(w)))
    requires var q := c.request(w); d.run == q.run && d.step == q.step && d.name == q.declaration.name
                                    && Readable(c.e, fs, q.run, q.step, q.declaration.name)
    ensures BindingChecks(c, fs, w, d) && BlobChecks(c, fs, w)
  {
    hide ParseDescriptor;
    BoundHasBlob(c.e, fs, d);
    assert c.e.sha256(Content(fs, Blob(d.run, d.digest))) == d.digest;
  }

  lemma CreatedBlobIsReadable(c: Config, states: seq<State>, steps: seq<Step>, w: Call)
    requires c.e.Lawful() && IsRun(c, states, steps) && PhaseOf(states[|steps|], w) == Cleaned(BlobPart, false)
    ensures var (fs, path) := (states[|steps|].fs, PathOf(c, w, BlobPart));
            path in fs.names && (Isolated(fs, path) ==> FileReadable(fs, path, MAX_OUTPUT_ARTIFACT_BYTES))
  {
    hide IsRun, Inv;
    RunLength(c, states, steps);
    RunKeepsOk(c, states, steps, |steps|);
    InvIsSound(c.e, states[|steps|].fs);
    assert CallOk(c, states[|steps|].fs, w, Cleaned(BlobPart, false));
  }

  lemma CreatedBindingIsReadable(c: Config, states: seq<State>, steps: seq<Step>, w: Call)
    requires c.e.Lawful() && IsRun(c, states, steps) && PhaseOf(states[|steps|], w) == Cleaned(BindingPart, false)
    ensures var (fs, path) := (states[|steps|].fs, PathOf(c, w, BindingPart));
            path in fs.names
            && (Isolated(fs, path) && |BytesOf(c, w, BindingPart)| <= MAX_DESCRIPTOR_BYTES ==> FileReadable(fs, path, MAX_DESCRIPTOR_BYTES))
  {
    hide IsRun, Inv;
    RunLength(c, states, steps);
    RunKeepsOk(c, states, steps, |steps|);
    InvIsSound(c.e, states[|steps|].fs);
    assert CallOk(c, states[|steps|].fs, w, Cleaned(BindingPart, false));
  }

  lemma ReturnedFacts(c: Config, states: seq<State>, steps: seq<Step>, w: Call)
    requires c.e.Lawful() && IsRun(c, states, steps) && PhaseOf(states[|steps|], w).Returned?
    ensures var d := PhaseOf(states[|steps|], w).descriptor;
            Bound(c.e, states[|steps|].fs, d) && SameBindingIdentity(d, Candidate(c.e, c.request(w)))
  {
    hide IsRun, Inv, SameBindingIdentity;
    RunLength(c, states, steps);
    RunKeepsOk(c, states, steps, |steps|);
    InvIsSound(c.e, states[|steps|].fs);
    assert CallOk(c, states[|steps|].fs, w, PhaseOf(states[|steps|], w));
  }

  lemma BothAreReadable(c: Config, states: seq<State>, steps: seq<Step>, w: Call, before: Files)
    requires c.e.Lawful() && IsRun(c, states, steps) && PhaseOf(states[|steps|], w).Returned?
    requires Evolves(c.e, before, states[|steps|].fs)
    requires BlobReadable(before, c.request(w).run, c.e.sha256(c.request(w).bytes))
    requires var q := c.request(w); BindingReadable(states[|steps|].fs, q.run, q.step, q.declaration.name)
    ensures var q := c.request(w); Readable(c.e, states[|steps|].fs, q.run, q.step, q.declaration.name)
  {
    hide IsRun, Inv, Evolves;
    RunLength(c, states, steps);
    ReturnedFacts(c, states, steps, w);
    FileStaysReadable(c.e, before, states[|steps|].fs, Blob(c.request(w).run, c.e.sha256(c.request(w).bytes)), MAX_OUTPUT_ARTIFACT_BYTES);
  }
}
