/** Atomic writes to one path (`src/core/json.ts`) by any number of processes, any of
    which may crash between or inside file operations, while no recovery deals with the
    two names beside the path as long as a writer is at work there. */
module AtomicWrites {
  import opened Wrappers
  import opened Bytes
  import opened AtomicFiles
  import opened AtomicRecovery
  import opened RecoverySteps
  import opened AtomicSystem

  // ---------- the invariant ----------

  /** What the target may hold. */
  ghost predicate Allowed(c: Config, content: Bytes) {
    || (c.target in c.initial && c.initial[c.target] == content)
    || exists w: Writer :: c.content(w) == content
  }

  ghost predicate TemporaryOk(c: Config, s: State) {
    var t := Temporary(c);
    && (s.temporaryBy.Some? <==> t in s.fs)
    && (s.temporaryBy.Some? ==> s.fs[t] <= c.content(s.temporaryBy.value))
    && (forall w: Writer :: HoldsTemporary(PhaseOf(s, w)) ==>
          && s.temporaryBy == Some(w)
          && (PhaseOf(s, w).WritingTemporary? ==> |s.fs[t]| == PhaseOf(s, w).written)
          && (!PhaseOf(s, w).WritingTemporary? ==> s.fs[t] == c.content(w)))
  }

  ghost predicate MetadataOk(c: Config, s: State) {
    var m := MetadataFile(c);
    && (s.metadataBy.Some? <==> m in s.fs)
    && (s.metadataBy.Some? ==> s.fs[m] <= MetadataText(c, s.metadataBy.value))
    && (forall w: Writer :: HoldsMetadata(PhaseOf(s, w)) ==> s.metadataBy == Some(w))
  }

  ghost predicate TargetOk(c: Config, s: State) {
    && (c.target in s.fs ==> Allowed(c, s.fs[c.target]))
    && (c.target in c.initial ==> c.target in s.fs)
  }

  /** A file being written still has the name it was created under. */
  ghost predicate OpenOk(c: Config, s: State) {
    && (forall w: Writer :: PhaseOf(s, w).WritingTemporary? ==> w in s.open && s.open[w] == Temporary(c))
    && (forall w: Writer :: PhaseOf(s, w).WritingMetadata? ==> w in s.open && s.open[w] == MetadataFile(c))
    && (forall w: Writer :: w in s.open ==> PhaseOf(s, w).WritingTemporary? || PhaseOf(s, w).WritingMetadata?)
  }

  /** A file operation that can only move or remove owned files, and brings nothing to
      the target but what it may hold. */
  ghost predicate Harmless(c: Config, fs: Files, op: Op) {
    match op
    case Rename(from, to) =>
      && Owned(from)
      && ((to.Quarantined? && to.of == from) ||
          (IsTemporary(from) && to == from.of && !Owned(to) && (to == c.target && from in fs ==> Allowed(c, fs[from]))))
    case Remove(path) => Owned(path)
  }

  ghost predicate TurnOk(c: Config, fs: Files, turn: Turn) {
    !turn.Between? ==>
      && IsTemporary(turn.temporary) && !Owned(turn.temporary.of)
      && (turn.temporary == Temporary(c) ==>
            && (exists w: Writer :: turn.read == MetadataOf(c, w))
            && (turn.IsVerified? && Temporary(c) in fs ==> c.e.digest(fs[Temporary(c)]) == turn.read.digest))
  }

  ghost predicate RecoveryOk(c: Config, fs: Files, v: Recovery) {
    && (forall t :: t in v.temporaries ==> IsTemporary(t) && !Owned(t.of))
    && (forall m :: m in v.metadata ==> IsMetadata(m))
    && TurnOk(c, fs, v.turn)
    && (forall op :: op in v.ops ==> Harmless(c, fs, op))
  }

  ghost predicate FilesOk(c: Config, s: State) {
    TemporaryOk(c, s) && MetadataOk(c, s) && TargetOk(c, s) && OpenOk(c, s) && WellNamed(s.fs)
  }

  ghost predicate RecoveriesOk(c: Config, s: State) {
    forall r :: r in s.recoveries ==> RecoveryOk(c, s.fs, s.recoveries[r])
  }

  ghost predicate Inv(c: Config, s: State) {
    FilesOk(c, s) && RecoveriesOk(c, s)
  }

  // ---------- steps of writers ----------

  lemma NamesDiffer(c: Config)
    ensures c.target != Temporary(c) && c.target != MetadataFile(c) && Temporary(c) != MetadataFile(c)
  {
    SuffixesDiffer(c.target);
  }

  lemma PhasesOfOthers(c: Config, s: State, step: Step, s': State)
    requires WriterStep(c, s, step, s')
    ensures forall v: Writer :: v != step.w ==> PhaseOf(s', v) == PhaseOf(s, v)
    ensures s'.recoveries == s.recoveries
  {
    hide MetadataText, Apply, Moved;
  }

  /** Writers write where they created their file. */
  lemma WritesInPlace(c: Config, s: State, step: Step, s': State)
    requires OpenOk(c, s) && WriterStep(c, s, step, s')
    ensures step.WriteTemporary? ==> s'.fs == s.fs[Temporary(c) := c.content(step.w)[..step.upTo]]
    ensures step.WriteMetadata? ==> s'.fs == s.fs[MetadataFile(c) := MetadataText(c, step.w)[..step.upTo]]
  {
    hide MetadataText, Apply, Moved;
  }

  lemma OpensWithoutMoves(c: Config, s: State, step: Step, s': State)
    requires WriterStep(c, s, step, s') && !Moves(step)
    ensures forall v: Writer :: v != step.w ==> (v in s'.open <==> v in s.open) && (v in s.open ==> s'.open[v] == s.open[v])
  {
    hide MetadataText, Apply, Moved;
  }

  lemma MovesNothing(fs: Files, open: map<Writer, Path>, op: Op)
    requires forall v: Writer :: v in open ==> open[v] != Source(op) && (op.Rename? ==> open[v] != op.to)
    ensures Moved(fs, open, op) == open
  {
  }

  /** The renames and removals of writers move no file that is open. */
  lemma OpensWithMoves(c: Config, s: State, step: Step, s': State)
    requires TemporaryOk(c, s) && MetadataOk(c, s) && OpenOk(c, s) && WriterStep(c, s, step, s') && Moves(step)
    ensures s'.open == s.open
  {
    NamesDiffer(c);
    hide MetadataText, Apply, Moved;
    if step.RenameToTarget? {
      MovesNothing(s.fs, s.open, Rename(Temporary(c), c.target));
    } else if step.CleanTemporary? {
      MovesNothing(s.fs, s.open, Remove(Temporary(c)));
    } else {
      MovesNothing(s.fs, s.open, Remove(MetadataFile(c)));
    }
  }

  lemma OpensOfOthers(c: Config, s: State, step: Step, s': State)
    requires TemporaryOk(c, s) && MetadataOk(c, s) && OpenOk(c, s) && WriterStep(c, s, step, s')
    ensures forall v: Writer :: v != step.w ==> (v in s'.open <==> v in s.open) && (v in s.open ==> s'.open[v] == s.open[v])
  {
    hide WriterStep, TemporaryOk, MetadataOk, OpenOk;
    if Moves(step) {
      OpensWithMoves(c, s, step, s');
    } else {
      OpensWithoutMoves(c, s, step, s');
    }
  }

  lemma WriterKeepsOpen(c: Config, s: State, step: Step, s': State)
    requires TemporaryOk(c, s) && MetadataOk(c, s) && OpenOk(c, s) && WriterStep(c, s, step, s')
    ensures OpenOk(c, s')
  {
    PhasesOfOthers(c, s, step, s');
    OpensOfOthers(c, s, step, s');
    OwnOpen(c, s, step, s');
    hide TemporaryOk, MetadataOk, WriterStep;
    var w := step.w;
    forall v: Writer
      ensures PhaseOf(s', v).WritingTemporary? ==> v in s'.open && s'.open[v] == Temporary(c)
      ensures PhaseOf(s', v).WritingMetadata? ==> v in s'.open && s'.open[v] == MetadataFile(c)
      ensures v in s'.open ==> PhaseOf(s', v).WritingTemporary? || PhaseOf(s', v).WritingMetadata?
    {
      assert v != w ==> PhaseOf(s', v) == PhaseOf(s, v);
    }
  }

  lemma OwnOpen(c: Config, s: State, step: Step, s': State)
    requires OpenOk(c, s) && WriterStep(c, s, step, s')
    ensures PhaseOf(s', step.w).WritingTemporary? ==> step.w in s'.open && s'.open[step.w] == Temporary(c)
    ensures PhaseOf(s', step.w).WritingMetadata? ==> step.w in s'.open && s'.open[step.w] == MetadataFile(c)
    ensures step.w in s'.open ==> PhaseOf(s', step.w).WritingTemporary? || PhaseOf(s', step.w).WritingMetadata?
  {
    hide MetadataText, Apply;
  }

  /** The steps that write, rename or remove the temporary file. */
  ghost predicate TouchesTemporary(step: Step) {
    step.OpenTemporary? || step.WriteTemporary? || step.RenameToTarget? || step.CleanTemporary?
  }

  lemma TemporaryUntouched(c: Config, s: State, step: Step, s': State)
    requires TemporaryOk(c, s) && OpenOk(c, s)
    requires WriterStep(c, s, step, s') && !TouchesTemporary(step)
    ensures var t := Temporary(c);
            && (t in s'.fs <==> t in s.fs) && (t in s.fs ==> s'.fs[t] == s.fs[t]) && s'.temporaryBy == s.temporaryBy
            && forall v: Writer ::
                 PhaseOf(s', v) == PhaseOf(s, v)
                 || (HoldsTemporary(PhaseOf(s', v)) ==>
                       HoldsTemporary(PhaseOf(s, v)) && !PhaseOf(s', v).WritingTemporary?
                       && (PhaseOf(s, v).WritingTemporary? ==> PhaseOf(s, v).written == |c.content(v)|))
  {
    TemporaryFileUntouched(c, s, step, s');
    PhasesOfOthers(c, s, step, s');
    hide MetadataText, OpenOk, Moved, Apply;
    assert s'.temporaryBy == s.temporaryBy;
    hide TemporaryOk;
  }

  lemma TemporaryFileUntouched(c: Config, s: State, step: Step, s': State)
    requires OpenOk(c, s) && WriterStep(c, s, step, s') && !TouchesTemporary(step)
    ensures Temporary(c) in s'.fs <==> Temporary(c) in s.fs
    ensures Temporary(c) in s.fs ==> s'.fs[Temporary(c)] == s.fs[Temporary(c)]
  {
    StepFiles(c, s, step, s');
    WritesInPlace(c, s, step, s');
    NamesDiffer(c);
    hide WriterStep, OpenOk, MetadataText;
  }

  lemma TemporaryMade(c: Config, s: State, step: Step, s': State)
    requires TemporaryOk(c, s) && OpenOk(c, s) && WriterStep(c, s, step, s') && (step.OpenTemporary? || step.WriteTemporary?)
    ensures TemporaryOk(c, s')
  {
    PhasesOfOthers(c, s, step, s');
    WritesInPlace(c, s, step, s');
    hide MetadataText, OpenOk, Moved, Apply;
    var w := step.w;
    assert s'.temporaryBy == Some(w);
    assert forall v: Writer :: v != w ==> !HoldsTemporary(PhaseOf(s', v));
  }

  lemma TemporaryGone(c: Config, s: State, step: Step, s': State)
    requires TemporaryOk(c, s) && WriterStep(c, s, step, s') && (step.RenameToTarget? || step.CleanTemporary?)
    ensures TemporaryOk(c, s')
  {
    PhasesOfOthers(c, s, step, s');
    NamesDiffer(c);
    hide MetadataText, Moved;
    assert Temporary(c) !in s'.fs;
    assert forall v: Writer :: v != step.w ==> !HoldsTemporary(PhaseOf(s', v));
  }

  lemma WriterKeepsTemporary(c: Config, s: State, step: Step, s': State)
    requires TemporaryOk(c, s) && MetadataOk(c, s) && OpenOk(c, s) && WriterStep(c, s, step, s')
    ensures TemporaryOk(c, s')
  {
    hide MetadataText, WriterStep, MetadataOk, OpenOk;
    if TouchesTemporary(step) {
      if step.OpenTemporary? || step.WriteTemporary? {
        TemporaryMade(c, s, step, s');
      } else {
        TemporaryGone(c, s, step, s');
      }
    } else {
      TemporaryUntouched(c, s, step, s');
      forall v: Writer | HoldsTemporary(PhaseOf(s', v)) && PhaseOf(s', v) != PhaseOf(s, v)
        ensures s'.fs[Temporary(c)] == c.content(v)
      {
        assert c.content(v)[..|c.content(v)|] == c.content(v);
      }
    }
  }

  /** The steps that write or remove the metadata file. */
  ghost predicate TouchesMetadata(step: Step) {
    step.OpenMetadata? || step.WriteMetadata? || step.RemoveMetadata? || step.CleanMetadata?
  }

  lemma MetadataUntouched(c: Config, s: State, step: Step, s': State)
    requires MetadataOk(c, s) && OpenOk(c, s)
    requires WriterStep(c, s, step, s') && !TouchesMetadata(step)
    ensures var m := MetadataFile(c);
            && (m in s'.fs <==> m in s.fs) && (m in s.fs ==> s'.fs[m] == s.fs[m]) && s'.metadataBy == s.metadataBy
            && forall v: Writer :: HoldsMetadata(PhaseOf(s', v)) ==> HoldsMetadata(PhaseOf(s, v))
  {
    MetadataFileUntouched(c, s, step, s');
    PhasesOfOthers(c, s, step, s');
    hide MetadataText, OpenOk, Moved, Apply;
    assert s'.metadataBy == s.metadataBy;
    hide MetadataOk;
  }

  lemma MetadataFileUntouched(c: Config, s: State, step: Step, s': State)
    requires OpenOk(c, s) && WriterStep(c, s, step, s') && !TouchesMetadata(step)
    ensures MetadataFile(c) in s'.fs <==> MetadataFile(c) in s.fs
    ensures MetadataFile(c) in s.fs ==> s'.fs[MetadataFile(c)] == s.fs[MetadataFile(c)]
  {
    StepFiles(c, s, step, s');
    WritesInPlace(c, s, step, s');
    NamesDiffer(c);
    hide WriterStep, OpenOk, MetadataText;
  }

  lemma MetadataTouched(c: Config, s: State, step: Step, s': State)
    requires MetadataOk(c, s) && OpenOk(c, s) && WriterStep(c, s, step, s') && TouchesMetadata(step)
    ensures MetadataOk(c, s')
  {
    PhasesOfOthers(c, s, step, s');
    WritesInPlace(c, s, step, s');
    NamesDiffer(c);
    hide MetadataText, OpenOk, Moved;
    assert HoldsMetadata(PhaseOf(s', step.w)) ==> s'.metadataBy == Some(step.w);
    assert forall v: Writer :: v != step.w ==> !HoldsMetadata(PhaseOf(s', v));
  }

  lemma WriterKeepsMetadata(c: Config, s: State, step: Step, s': State)
    requires TemporaryOk(c, s) && MetadataOk(c, s) && OpenOk(c, s) && WriterStep(c, s, step, s')
    ensures MetadataOk(c, s')
  {
    hide WriterStep, MetadataText, TemporaryOk, OpenOk;
    if TouchesMetadata(step) {
      MetadataTouched(c, s, step, s');
    } else {
      MetadataUntouched(c, s, step, s');
    }
  }

  lemma WriterKeepsTarget(c: Config, s: State, step: Step, s': State)
    requires TemporaryOk(c, s) && OpenOk(c, s) && TargetOk(c, s) && WriterStep(c, s, step, s')
    ensures TargetOk(c, s')
  {
    StepFiles(c, s, step, s');
    WritesInPlace(c, s, step, s');
    NamesDiffer(c);
    if step.RenameToTarget? { RenamesWholeContent(c, s, step, s'); }
    hide WriterStep, TemporaryOk, OpenOk, MetadataText;
  }

  lemma RenamesWholeContent(c: Config, s: State, step: Step, s': State)
    requires TemporaryOk(c, s) && WriterStep(c, s, step, s') && step.RenameToTarget?
    ensures Temporary(c) in s.fs && s.fs[Temporary(c)] == c.content(step.w)
  {
  }

  lemma WriterKeepsNames(c: Config, s: State, step: Step, s': State)
    requires ValidConfig(c) && OpenOk(c, s) && WellNamed(s.fs) && WriterStep(c, s, step, s')
    ensures WellNamed(s'.fs)
  {
    StepFiles(c, s, step, s');
    WritesInPlace(c, s, step, s');
    hide WriterStep, Lawful, MetadataText, OpenOk;
    assert !IsTemporary(MetadataFile(c)) && !IsTemporary(c.target);
  }

  /** A call that has nothing left to do changes no file. */
  lemma IdleStep(c: Config, s: State, step: Step, s': State)
    requires WriterStep(c, s, step, s') && !Live(PhaseOf(s, step.w)) && !Live(PhaseOf(s', step.w))
    ensures s'.fs == s.fs
  {
    hide MetadataText;
  }

  lemma WriterKeepsRecoveries(c: Config, s: State, step: Step, s': State)
    requires Inv(c, s) && WriterStep(c, s, step, s') && Apart(c, s) && Apart(c, s')
    ensures RecoveriesOk(c, s')
  {
    PhasesOfOthers(c, s, step, s');
    hide WriterStep, FilesOk;
    forall r | r in s'.recoveries
      ensures RecoveryOk(c, s'.fs, s'.recoveries[r])
    {
      if Concerns(c, s.recoveries[r]) {
        IdleStep(c, s, step, s');
      } else {
        UnconcernedStaysOk(c, s.fs, s'.fs, s.recoveries[r]);
      }
    }
  }

  lemma UnconcernedStaysOk(c: Config, fs: Files, after: Files, v: Recovery)
    requires RecoveryOk(c, fs, v) && !Concerns(c, v)
    ensures RecoveryOk(c, after, v)
  {
    forall op | op in v.ops
      ensures Harmless(c, after, op)
    {
      assert Harmless(c, fs, op) && Source(op) != Temporary(c);
    }
  }

  // ---------- steps of recoveries ----------

  /** Harmless operations bring nothing to the two names. */
  lemma HarmlessDestination(c: Config, fs: Files, op: Op)
    requires Harmless(c, fs, op) && op.Rename?
    ensures op.to != Temporary(c) && op.to != MetadataFile(c)
    ensures op.to == c.target && !c.target.Quarantined? ==> op.from == Temporary(c)
  {
  }

  /** At the two names a harmless operation only removes, and only when it is about them. */
  lemma HarmlessAtNames(c: Config, fs: Files, op: Op, p: Path)
    requires Harmless(c, fs, op) && p in {Temporary(c), MetadataFile(c)}
    ensures p in Apply(fs, op) ==> p in fs && Apply(fs, op)[p] == fs[p]
    ensures p in fs && p !in Apply(fs, op) ==> Source(op) == p
  {
    if op.Rename? { HarmlessDestination(c, fs, op); }
  }

  lemma HarmlessTarget(c: Config, s: State, op: Op)
    requires ValidConfig(c) && TargetOk(c, s) && Harmless(c, s.fs, op)
    ensures TargetOk(c, Does(c, s, op))
  {
    if op.Rename? { HarmlessDestination(c, s.fs, op); }
    hide Lawful;
  }

  lemma HarmlessNames(c: Config, fs: Files, op: Op)
    requires Harmless(c, fs, op) && WellNamed(fs)
    ensures WellNamed(Apply(fs, op))
  {
  }

  lemma SameNames(c: Config, s: State, s': State)
    requires s'.phase == s.phase && s'.open == s.open && s'.temporaryBy == s.temporaryBy && s'.metadataBy == s.metadataBy
    requires forall p :: p in {Temporary(c), MetadataFile(c)} ==> (p in s'.fs <==> p in s.fs) && (p in s.fs ==> s'.fs[p] == s.fs[p])
    ensures TemporaryOk(c, s) ==> TemporaryOk(c, s')
    ensures MetadataOk(c, s) ==> MetadataOk(c, s')
    ensures OpenOk(c, s) ==> OpenOk(c, s')
  {
    hide MetadataText;
    assert forall w: Writer :: PhaseOf(s', w) == PhaseOf(s, w);
  }

  /** An operation away from the two names leaves the open files alone. */
  lemma HarmlessFarAway(c: Config, s: State, op: Op)
    requires FilesOk(c, s) && Harmless(c, s.fs, op) && Source(op) !in {Temporary(c), MetadataFile(c)}
    ensures TemporaryOk(c, Does(c, s, op)) && MetadataOk(c, Does(c, s, op)) && OpenOk(c, Does(c, s, op))
  {
    HarmlessAtNames(c, s.fs, op, Temporary(c));
    HarmlessAtNames(c, s.fs, op, MetadataFile(c));
    if op.Rename? { HarmlessDestination(c, s.fs, op); }
    hide Harmless, Apply, Moved, MetadataText, TargetOk, WellNamed;
    MovesNothing(s.fs, s.open, op);
    SameNames(c, s, Does(c, s, op));
  }

  /** One at the two names finds no writer at work. */
  lemma HarmlessAtRest(c: Config, s: State, op: Op)
    requires FilesOk(c, s) && Harmless(c, s.fs, op) && forall w: Writer :: !Live(PhaseOf(s, w))
    ensures TemporaryOk(c, Does(c, s, op)) && MetadataOk(c, Does(c, s, op)) && OpenOk(c, Does(c, s, op))
  {
    HarmlessAtNames(c, s.fs, op, Temporary(c));
    HarmlessAtNames(c, s.fs, op, MetadataFile(c));
    var s' := Does(c, s, op);
    hide Harmless, Apply, Moved, MetadataText, TargetOk, WellNamed, HoldsTemporary, HoldsMetadata;
    assert forall w: Writer :: w !in s.open;
    MovesNothing(s.fs, s.open, op);
    AtRest(c, s, s');
  }

  lemma AtRest(c: Config, s: State, s': State)
    requires TemporaryOk(c, s) && MetadataOk(c, s) && OpenOk(c, s)
    requires s'.phase == s.phase && s'.open == s.open && forall w: Writer :: !Live(PhaseOf(s, w))
    requires forall p :: p in {Temporary(c), MetadataFile(c)} && p in s'.fs ==> p in s.fs && s'.fs[p] == s.fs[p]
    requires s'.temporaryBy == if Temporary(c) in s'.fs then s.temporaryBy else None
    requires s'.metadataBy == if MetadataFile(c) in s'.fs then s.metadataBy else None
    ensures TemporaryOk(c, s') && MetadataOk(c, s') && OpenOk(c, s')
  {
    hide MetadataText;
    assert forall w: Writer :: PhaseOf(s', w) == PhaseOf(s, w);
    assert forall w: Writer :: !HoldsTemporary(PhaseOf(s', w)) && !HoldsMetadata(PhaseOf(s', w));
  }

  lemma HarmlessKeepsFiles(c: Config, s: State, op: Op)
    requires ValidConfig(c) && FilesOk(c, s) && Harmless(c, s.fs, op)
    requires Source(op) in {Temporary(c), MetadataFile(c)} ==> forall w: Writer :: !Live(PhaseOf(s, w))
    ensures FilesOk(c, Does(c, s, op))
  {
    hide Harmless, TemporaryOk, MetadataOk, OpenOk, TargetOk, WellNamed, Lawful;
    HarmlessTarget(c, s, op);
    HarmlessNames(c, s.fs, op);
    if Source(op) in {Temporary(c), MetadataFile(c)} {
      HarmlessAtRest(c, s, op);
    } else {
      HarmlessFarAway(c, s, op);
    }
  }

  lemma RecoveryStaysOk(c: Config, fs: Files, after: Files, v: Recovery)
    requires RecoveryOk(c, fs, v)
    requires Temporary(c) in after ==> Temporary(c) in fs && after[Temporary(c)] == fs[Temporary(c)]
    ensures RecoveryOk(c, after, v)
  {
    forall op | op in v.ops
      ensures Harmless(c, after, op)
    {
      assert Harmless(c, fs, op);
      if op.Rename? && !op.to.Quarantined? && op.to == c.target { assert op.from == Temporary(c); }
    }
  }

  lemma MovesBothAreHarmless(c: Config, fs: Files, t: Path, id: nat, op: Op)
    requires IsTemporary(t) && op in MovesBoth(t, id)
    ensures Harmless(c, fs, op)
  {
    assert Owned(Meta(t));
  }

  /** The metadata read is that of the writer who created the file. */
  lemma ReadsMetadataOk(c: Config, s: State, v: Recovery, id: nat)
    requires ValidConfig(c) && MetadataOk(c, s) && RecoveryOk(c, s.fs, v) && v.temporaries != [] && v.turn.Between?
    ensures v.temporaries[0].Tmp? && RecoveryOk(c, s.fs, ReadsMetadata(c.e, s.fs, v, id))
  {
    var t := v.temporaries[0];
    assert t in v.temporaries;
    var after := ReadsMetadata(c.e, s.fs, v, id);
    assert after.temporaries == v.temporaries[1..];
    if after.turn.HasMetadata? {
      if t == Temporary(c) {
        var w := s.metadataBy.value;
        assert after.turn.read == MetadataOf(c, w);
      }
    } else {
      hide Harmless;
      forall op | op in after.ops
        ensures Harmless(c, s.fs, op)
      {
        MovesBothAreHarmless(c, s.fs, t, id, op);
      }
    }
  }

  lemma ReadsTemporaryOk(c: Config, fs: Files, v: Recovery, id: nat)
    requires RecoveryOk(c, fs, v) && v.turn.HasMetadata? && v.turn.temporary in fs
    ensures RecoveryOk(c, fs, ReadsTemporary(c.e, fs, v, id))
  {
    hide Harmless;
    var t, after := v.turn.temporary, ReadsTemporary(c.e, fs, v, id);
    if after.turn.Between? {
      forall op | op in after.ops
        ensures Harmless(c, fs, op)
      {
        MovesBothAreHarmless(c, fs, t, id, op);
      }
    }
  }

  /** A verified temporary file holds the complete content of a writer. */
  lemma VerifiedIsComplete(c: Config, fs: Files, turn: Turn)
    requires Lawful(c.e) && TurnOk(c, fs, turn) && turn.IsVerified? && turn.temporary == Temporary(c) && Temporary(c) in fs
    ensures exists w: Writer :: fs[Temporary(c)] == c.content(w)
  {
    var w: Writer :| turn.read == MetadataOf(c, w);
    assert fs[Temporary(c)] == c.content(w);
  }

  lemma ChecksTargetOk(c: Config, fs: Files, v: Recovery, id: nat)
    requires ValidConfig(c) && RecoveryOk(c, fs, v) && v.turn.IsVerified?
    ensures RecoveryOk(c, fs, ChecksTarget(c.e, fs, v, id))
  {
    var t, after := v.turn.temporary, ChecksTarget(c.e, fs, v, id);
    forall op | op in after.ops
      ensures Harmless(c, fs, op)
    {
      if op in MovesBoth(t, id) {
        MovesBothAreHarmless(c, fs, t, id, op);
      } else {
        assert Owned(Meta(t)) && Owned(t);
        if op == Rename(t, t.of) && t.of == c.target && t in fs {
          VerifiedIsComplete(c, fs, v.turn);
        }
      }
    }
  }

  lemma TakesMetadataOk(c: Config, fs: Files, v: Recovery, id: nat)
    requires RecoveryOk(c, fs, v) && v.metadata != []
    ensures v.metadata[0].Meta? && RecoveryOk(c, fs, TakesMetadata(fs, v, id))
  {
    hide Harmless;
    var m := v.metadata[0];
    assert m in v.metadata;
    var after := TakesMetadata(fs, v, id);
    forall op | op in after.ops
      ensures Harmless(c, fs, op)
    {
      MovesBothAreHarmless(c, fs, m.of, id, op);
    }
  }

  /** A recovery that only looks. */
  lemma LookKeepsRecoveries(c: Config, s: State, step: Step, s': State)
    requires ValidConfig(c) && Inv(c, s) && RecoveryStep(c, s, step, s') && !step.Perform?
    ensures RecoveriesOk(c, s')
  {
    hide Lawful, RecoveryOk, Harmless, TemporaryOk, MetadataOk, TargetOk, OpenOk, MetadataText;
    match step
    case StartRecovery(r, temporaries, metadata) =>
      StartIsOk(c, s.fs, temporaries, metadata);
    case ReadMetadata(r, id) => ReadsMetadataOk(c, s, s.recoveries[r], id);
    case ReadTemporary(r, id) => ReadsTemporaryOk(c, s.fs, s.recoveries[r], id);
    case CheckTarget(r, id) => ChecksTargetOk(c, s.fs, s.recoveries[r], id);
    case TakeMetadata(r, id) => TakesMetadataOk(c, s.fs, s.recoveries[r], id);
    case EndRecovery(_) =>
  }

  lemma StartIsOk(c: Config, fs: Files, temporaries: seq<Path>, metadata: seq<Path>)
    requires WellNamed(fs) && Discovered(fs, temporaries, metadata)
    ensures RecoveryOk(c, fs, Recovery(temporaries, metadata, {}, Between, []))
  {
  }

  lemma PerformKeepsRecoveries(c: Config, s: State, step: Step, s': State)
    requires Inv(c, s) && RecoveryStep(c, s, step, s') && step.Perform?
    ensures RecoveriesOk(c, s')
  {
    var v := s.recoveries[step.r];
    assert v.ops[0] in v.ops && RecoveryOk(c, s.fs, v);
    HarmlessAtNames(c, s.fs, v.ops[0], Temporary(c));
    hide Harmless, Apply, Moved, FilesOk;
    forall r | r in s'.recoveries
      ensures RecoveryOk(c, s'.fs, s'.recoveries[r])
    {
      var old' := s.recoveries[r];
      RecoveryStaysOk(c, s.fs, s'.fs, old');
      if r == step.r {
        assert forall op :: op in s'.recoveries[r].ops ==> op in old'.ops;
      }
    }
  }

  lemma RecoveryKeepsFiles(c: Config, s: State, step: Step, s': State)
    requires ValidConfig(c) && Inv(c, s) && RecoveryStep(c, s, step, s') && Apart(c, s)
    ensures FilesOk(c, s')
  {
    hide Lawful, Harmless, TemporaryOk, MetadataOk, TargetOk, OpenOk, WellNamed, Apply, Moved, Discovered;
    if step.Perform? {
      var v := s.recoveries[step.r];
      var op := v.ops[0];
      assert op in v.ops && RecoveryOk(c, s.fs, v);
      if Source(op) in {Temporary(c), MetadataFile(c)} { assert Concerns(c, v); }
      HarmlessKeepsFiles(c, s, op);
      SameFiles(c, Does(c, s, op), s');
    } else {
      SameFiles(c, s, s');
    }
  }

  lemma SameFiles(c: Config, s: State, s': State)
    requires FilesOk(c, s) && s' == s.(recoveries := s'.recoveries)
    ensures FilesOk(c, s')
  {
    assert forall w: Writer :: PhaseOf(s', w) == PhaseOf(s, w);
  }

  /** Every step, of a writer or of a recovery, between states that keep the two apart
      keeps the invariant. */
  lemma StepKeepsInv(c: Config, s: State, step: Step, s': State)
    requires ValidConfig(c) && Inv(c, s) && Next(c, s, step, s') && Apart(c, s) && Apart(c, s')
    ensures Inv(c, s')
  {
    hide Lawful, TemporaryOk, MetadataOk, TargetOk, OpenOk, WellNamed, RecoveryOk, WriterStep, RecoveryStep, Apart;
    if WriterStep(c, s, step, s') {
      WriterKeepsTemporary(c, s, step, s');
      WriterKeepsMetadata(c, s, step, s');
      WriterKeepsTarget(c, s, step, s');
      WriterKeepsOpen(c, s, step, s');
      WriterKeepsNames(c, s, step, s');
      WriterKeepsRecoveries(c, s, step, s');
    } else {
      RecoveryKeepsFiles(c, s, step, s');
      if step.Perform? {
        PerformKeepsRecoveries(c, s, step, s');
      } else {
        LookKeepsRecoveries(c, s, step, s');
      }
    }
  }

  // ---------- whole runs ----------

  lemma InitInv(c: Config)
    requires ValidConfig(c)
    ensures Inv(c, Init(c))
  {
    hide Lawful;
    assert forall w: Writer :: PhaseOf(Init(c), w) == Idle;
  }

  lemma {:induction false} InvAlways(c: Config, states: seq<State>, steps: seq<Step>, n: nat)
    requires ValidConfig(c) && IsRun(c, states, steps) && n < |states| && NoOverlap(c, states, n)
    ensures Inv(c, states[n])
  {
    InitInv(c);
    hide Next, Inv, ValidConfig, Apart;
    if n > 0 {
      InvAlways(c, states, steps, n - 1);
      assert Next(c, states[n - 1], steps[n - 1], states[n - 1 + 1]);
      StepKeepsInv(c, states[n - 1], steps[n - 1], states[n]);
    }
  }

  /** Crash atomicity: in every run, with any interleaving of writers, crashes and
      recoveries, the target holds its initial content or the complete content of one
      writer, and once it exists it never goes missing, as long as no writer was at work
      while a recovery dealt with its files. */
  lemma CrashAtomicity(c: Config, states: seq<State>, steps: seq<Step>, n: nat)
    requires ValidConfig(c) && IsRun(c, states, steps) && n < |states| && NoOverlap(c, states, n)
    ensures c.target in states[n].fs ==> Allowed(c, states[n].fs[c.target])
    ensures c.target in c.initial ==> c.target in states[n].fs
  {
    hide Next;
    InvAlways(c, states, steps, n);
  }

  ghost predicate Touched(before: Files, after: Files, p: Path) {
    p in before && (p !in after || after[p] != before[p])
  }

  /** In every such run, a writer that renames, removes or rewrites the temporary file or
      the metadata file is the one that created it, and it touches no file but the three. */
  lemma WritersTouchTheirOwnFiles(c: Config, states: seq<State>, steps: seq<Step>, n: nat, p: Path)
    requires ValidConfig(c) && IsRun(c, states, steps) && n < |steps| && NoOverlap(c, states, n)
    requires WriterOf(steps[n]).Some? && Touched(states[n].fs, states[n + 1].fs, p)
    ensures p == Temporary(c) ==> states[n].temporaryBy == WriterOf(steps[n])
    ensures p == MetadataFile(c) ==> states[n].metadataBy == WriterOf(steps[n])
    ensures p in {Temporary(c), MetadataFile(c), c.target}
    ensures p == c.target ==> steps[n].RenameToTarget?
  {
    hide Lawful, Inv, WriterStep, Next;
    InvAlways(c, states, steps, n);
    assert Next(c, states[n], steps[n], states[n + 1]);
    WriterStepIsWriters(c, states[n], steps[n], states[n + 1]);
    StepTouches(c, states[n], steps[n], states[n + 1], p);
  }

  lemma WriterStepIsWriters(c: Config, s: State, step: Step, s': State)
    requires Next(c, s, step, s') && WriterOf(step).Some?
    ensures WriterStep(c, s, step, s')
  {
    hide WriterStep;
  }

  lemma StepTouches(c: Config, s: State, step: Step, s': State, p: Path)
    requires Inv(c, s) && WriterStep(c, s, step, s') && Touched(s.fs, s'.fs, p)
    ensures p == Temporary(c) ==> s.temporaryBy == WriterOf(step)
    ensures p == MetadataFile(c) ==> s.metadataBy == WriterOf(step)
    ensures p in {Temporary(c), MetadataFile(c), c.target}
    ensures p == c.target ==> step.RenameToTarget?
  {
    ThreeAreTouched(c, s, step, s', p);
    TouchersHold(c, s, step, s');
    hide MetadataText, WriterStep, RecoveriesOk, TargetOk, WellNamed, OpenOk;
    if p == Temporary(c) && !TouchesTemporary(step) {
      TemporaryUntouched(c, s, step, s');
    }
    if p == MetadataFile(c) && !TouchesMetadata(step) {
      MetadataUntouched(c, s, step, s');
    }
  }

  lemma ThreeAreTouched(c: Config, s: State, step: Step, s': State, p: Path)
    requires OpenOk(c, s) && WriterStep(c, s, step, s') && Touched(s.fs, s'.fs, p)
    ensures p in {Temporary(c), MetadataFile(c), c.target}
    ensures p == c.target ==> step.RenameToTarget?
  {
    StepFiles(c, s, step, s');
    WritesInPlace(c, s, step, s');
    NamesDiffer(c);
    hide WriterStep, MetadataText, OpenOk;
  }

  lemma TouchersHold(c: Config, s: State, step: Step, s': State)
    requires WriterStep(c, s, step, s')
    ensures WriterOf(step) == Some(step.w)
    ensures TouchesTemporary(step) ==> HoldsTemporary(PhaseOf(s, step.w)) || Temporary(c) !in s.fs
    ensures TouchesMetadata(step) ==> HoldsMetadata(PhaseOf(s, step.w)) || MetadataFile(c) !in s.fs
  {
    hide MetadataText, Moved, Apply;
  }

  // ---------- what a recovery that came to its end has done ----------

  ghost predicate Quiet(s: State) {
    forall w: Writer :: !Live(PhaseOf(s, w))
  }

  predicate Pending(v: Recovery, p: Path) {
    exists op :: op in v.ops && Source(op) == p
  }

  predicate Visits(c: Config, v: Recovery) {
    Temporary(c) in v.temporaries || (!v.turn.Between? && v.turn.temporary == Temporary(c))
  }

  /** A file with one of the two names is still to be dealt with. */
  ghost predicate Covered(c: Config, fs: Files, v: Recovery) {
    var t, m := Temporary(c), MetadataFile(c);
    && (t in fs ==> Visits(c, v) || Pending(v, t))
    && (m in fs ==> Visits(c, v) || (m in v.metadata && m !in v.processed) || Pending(v, m))
    && (!v.turn.Between? ==> v.ops == [])
  }

  lemma BothArePending(v: Recovery, t: Path, id: nat)
    requires t.Tmp? && v.ops in {MovesBoth(t, id), [Rename(t, t.of), Remove(Meta(t))], [Remove(t), Remove(Meta(t))]}
    ensures Pending(v, t) && Pending(v, Meta(t))
  {
    assert v.ops[0] in v.ops && v.ops[1] in v.ops;
  }

  lemma ReadsMetadataCovered(c: Config, fs: Files, v: Recovery, id: nat)
    requires Covered(c, fs, v) && v.temporaries != [] && v.temporaries[0].Tmp? && v.turn.Between? && v.ops == []
    ensures Covered(c, fs, ReadsMetadata(c.e, fs, v, id))
  {
    var after := ReadsMetadata(c.e, fs, v, id);
    assert v.temporaries == [v.temporaries[0]] + after.temporaries;
    if after.turn.Between? { BothArePending(after, v.temporaries[0], id); }
  }

  lemma LooksCovered(c: Config, fs: Files, v: Recovery, id: nat)
    requires Covered(c, fs, v) && !v.turn.Between? && v.turn.temporary.Tmp?
    ensures v.turn.HasMetadata? && v.turn.temporary in fs ==> Covered(c, fs, ReadsTemporary(c.e, fs, v, id))
    ensures v.turn.IsVerified? ==> Covered(c, fs, ChecksTarget(c.e, fs, v, id))
  {
    var t := v.turn.temporary;
    if v.turn.HasMetadata? && t in fs && ReadsTemporary(c.e, fs, v, id).turn.Between? {
      BothArePending(ReadsTemporary(c.e, fs, v, id), t, id);
    }
    if v.turn.IsVerified? { BothArePending(ChecksTarget(c.e, fs, v, id), t, id); }
  }

  lemma TakesMetadataCovered(c: Config, fs: Files, v: Recovery, id: nat)
    requires Covered(c, fs, v) && v.temporaries == [] && v.metadata != [] && IsMetadata(v.metadata[0])
    requires v.turn.Between? && v.ops == []
    ensures Covered(c, fs, TakesMetadata(fs, v, id))
  {
    var after := TakesMetadata(fs, v, id);
    assert v.metadata == [v.metadata[0]] + after.metadata;
    if after.ops != [] { BothArePending(after, v.metadata[0].of, id); }
  }

  lemma LookStaysCovered(c: Config, s: State, step: Step, s': State)
    requires Inv(c, s) && RecoveryStep(c, s, step, s') && !step.Perform? && !step.StartRecovery? && !step.EndRecovery?
    requires Covered(c, s.fs, s.recoveries[step.r])
    ensures Covered(c, s'.fs, s'.recoveries[step.r])
  {
    var v := s.recoveries[step.r];
    assert RecoveryOk(c, s.fs, v);
    hide FilesOk, RecoveriesOk, Harmless, FreshId, Covered, ReadsMetadata, ReadsTemporary, ChecksTarget, TakesMetadata;
    match step
    case ReadMetadata(_, id) => ReadsMetadataCovered(c, s.fs, v, id);
    case ReadTemporary(_, id) => LooksCovered(c, s.fs, v, id);
    case CheckTarget(_, id) => LooksCovered(c, s.fs, v, id);
    case TakeMetadata(_, id) => TakesMetadataCovered(c, s.fs, v, id);
  }

  lemma PerformStaysCovered(c: Config, s: State, step: Step, s': State)
    requires Inv(c, s) && RecoveryStep(c, s, step, s') && step.Perform?
    requires Covered(c, s.fs, s.recoveries[step.r])
    ensures Covered(c, s'.fs, s'.recoveries[step.r])
  {
    var v, v' := s.recoveries[step.r], s'.recoveries[step.r];
    assert RecoveryOk(c, s.fs, v) && v.ops[0] in v.ops;
    assert v.ops == [v.ops[0]] + v'.ops;
    hide FilesOk, RecoveriesOk, RecoveryOk;
    forall p | p in {Temporary(c), MetadataFile(c)}
      ensures p in s'.fs ==> p in s.fs && (Pending(v, p) ==> Pending(v', p))
    {
      HarmlessAtNames(c, s.fs, v.ops[0], p);
      if v.ops[0].Rename? { HarmlessDestination(c, s.fs, v.ops[0]); }
    }
  }

  /** While no writer is at work, whatever anybody does. */
  lemma StepStaysCovered(c: Config, s: State, step: Step, s': State, r: nat)
    requires Inv(c, s) && Next(c, s, step, s') && Quiet(s) && Quiet(s')
    requires r in s.recoveries && r in s'.recoveries && Covered(c, s.fs, s.recoveries[r])
    ensures Covered(c, s'.fs, s'.recoveries[r])
  {
    hide Covered, FilesOk, Harmless, Apply, Discovered;
    if WriterStep(c, s, step, s') {
      PhasesOfOthers(c, s, step, s');
      IdleStep(c, s, step, s');
    } else if step.r == r {
      hide RecoveriesOk;
      if step.Perform? { PerformStaysCovered(c, s, step, s'); } else { LookStaysCovered(c, s, step, s'); }
    } else if step.Perform? {
      var op := s.recoveries[step.r].ops[0];
      assert op in s.recoveries[step.r].ops && RecoveryOk(c, s.fs, s.recoveries[step.r]);
      HarmlessAtNames(c, s.fs, op, Temporary(c));
      HarmlessAtNames(c, s.fs, op, MetadataFile(c));
      FewerFilesAreCovered(c, s.fs, s'.fs, s.recoveries[r]);
    }
  }

  lemma FewerFilesAreCovered(c: Config, fs: Files, after: Files, v: Recovery)
    requires Covered(c, fs, v)
    requires forall p :: p in {Temporary(c), MetadataFile(c)} && p in after ==> p in fs
    ensures Covered(c, after, v)
  {
  }

  /** Recovery `r` is started by step `a` and still runs in state `n`, and no writer has
      been at work since. */
  ghost predicate RunsAlone(states: seq<State>, steps: seq<Step>, a: nat, n: nat, r: nat) {
    && a < n < |states| && a < |steps| && steps[a].StartRecovery? && steps[a].r == r
    && (forall i :: a <= i <= n ==> Quiet(states[i]))
    && (forall i :: a < i <= n ==> r in states[i].recoveries)
  }

  lemma {:induction false} RunStaysCovered(c: Config, states: seq<State>, steps: seq<Step>, a: nat, n: nat, r: nat)
    requires ValidConfig(c) && IsTemporary(Temporary(c)) && IsRun(c, states, steps)
    requires RunsAlone(states, steps, a, n, r) && NoOverlap(c, states, n)
    ensures Covered(c, states[n].fs, states[n].recoveries[r])
    decreases n
  {
    hide Covered, RecoveryStep, WriterStep, ValidConfig, Inv, Quiet, Apart, Init;
    assert Next(c, states[n - 1], steps[n - 1], states[n - 1 + 1]);
    if n == a + 1 {
      StartIsCovered(c, states[a], steps[a], states[n]);
    } else {
      InvAlways(c, states, steps, n - 1);
      RunStaysCovered(c, states, steps, a, n - 1, r);
      StepStaysCovered(c, states[n - 1], steps[n - 1], states[n], r);
    }
  }

  lemma StartIsCovered(c: Config, s: State, step: Step, s': State)
    requires IsTemporary(Temporary(c)) && Next(c, s, step, s') && step.StartRecovery?
    ensures step.r in s'.recoveries && Covered(c, s'.fs, s'.recoveries[step.r])
  {
    assert !WriterStep(c, s, step, s');
    hide WriterStep;
    assert IsMetadata(MetadataFile(c));
  }

  /** A recovery of the target that no writer gets in the way of and that comes to its end
      leaves the way free for the next writer, whatever other recoveries do meanwhile. */
  lemma RecoveryUnblocksWriters(c: Config, states: seq<State>, steps: seq<Step>, a: nat, n: nat, r: nat)
    requires ValidConfig(c) && IsTemporary(Temporary(c)) && IsRun(c, states, steps)
    requires RunsAlone(states, steps, a, n, r) && NoOverlap(c, states, n) && HasEnded(states[n].recoveries[r])
    ensures Temporary(c) !in states[n].fs && MetadataFile(c) !in states[n].fs
  {
    hide ValidConfig, IsRun, NoOverlap;
    RunStaysCovered(c, states, steps, a, n, r);
  }
}
