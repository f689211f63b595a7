/** What nothing in `src/core/json.ts` and `src/core/atomic-file.ts` prevents: a recovery
    beside a writer at work. Exactly when the target survives it. */
module AtomicOverlap {
  import opened Wrappers
  import opened Bytes
  import opened AtomicFiles
  import opened AtomicRecovery
  import opened RecoverySteps
  import opened AtomicSystem
  import opened AtomicWrites
  import RecoveryNames

  ghost predicate Reachable(c: Config, s: State) {
    exists states, steps :: IsRun(c, states, steps) && states[|steps|] == s
  }

  /** In every state of every run, overlaps included, the target holds its initial content
      or the complete content of one writer, and once it exists it never goes missing. */
  ghost predicate AlwaysAtomic(c: Config) {
    forall s :: Reachable(c, s) ==> TargetOk(c, s)
  }

  /** Even a content cut short is one the target may hold. */
  ghost predicate PrefixesAllowed(c: Config) {
    forall w: Writer, k: nat :: k <= |c.content(w)| ==> Allowed(c, c.content(w)[..k])
  }

  // ---------- targets the recovery does not look at ----------

  lemma OutOfSightIsUnconcerned(c: Config, fs: Files, v: Recovery)
    requires !IsTemporary(Temporary(c)) && RecoveryOk(c, fs, v)
    ensures !Concerns(c, v)
  {
    assert !IsMetadata(MetadataFile(c));
    forall op | op in v.ops
      ensures Source(op) !in {Temporary(c), MetadataFile(c)}
    {
      assert Harmless(c, fs, op);
    }
  }

  lemma OutOfSightIsApart(c: Config, s: State)
    requires !IsTemporary(Temporary(c)) && RecoveriesOk(c, s)
    ensures Apart(c, s)
  {
    hide RecoveryOk, Concerns;
    forall r | r in s.recoveries
      ensures !Concerns(c, s.recoveries[r])
    {
      OutOfSightIsUnconcerned(c, s.fs, s.recoveries[r]);
    }
  }

  lemma OutOfSightStep(c: Config, s: State, step: Step, s': State)
    requires ValidConfig(c) && !IsTemporary(Temporary(c)) && Inv(c, s) && Next(c, s, step, s')
    ensures Inv(c, s')
  {
    hide ValidConfig, FilesOk, RecoveriesOk, WriterStep, RecoveryStep, Apart, IsTemporary;
    OutOfSightIsApart(c, s);
    if WriterStep(c, s, step, s') {
      PhasesOfOthers(c, s, step, s');
      SameRecoveriesApart(c, s, s');
    } else {
      if step.Perform? { PerformKeepsRecoveries(c, s, step, s'); } else { LookKeepsRecoveries(c, s, step, s'); }
      OutOfSightIsApart(c, s');
    }
    StepKeepsInv(c, s, step, s');
  }

  lemma SameRecoveriesApart(c: Config, s: State, s': State)
    requires !IsTemporary(Temporary(c)) && RecoveriesOk(c, s) && s'.recoveries == s.recoveries
    ensures Apart(c, s')
  {
    hide RecoveryOk, Concerns;
    forall r | r in s'.recoveries
      ensures !Concerns(c, s'.recoveries[r])
    {
      OutOfSightIsUnconcerned(c, s.fs, s.recoveries[r]);
    }
  }

  lemma {:induction false} OutOfSightAlways(c: Config, states: seq<State>, steps: seq<Step>, n: nat)
    requires ValidConfig(c) && !IsTemporary(Temporary(c)) && IsRun(c, states, steps) && n < |states|
    ensures Inv(c, states[n])
  {
    InitInv(c);
    hide Next, Inv, ValidConfig, IsTemporary;
    if n > 0 {
      OutOfSightAlways(c, states, steps, n - 1);
      assert Next(c, states[n - 1], steps[n - 1], states[n - 1 + 1]);
      OutOfSightStep(c, states[n - 1], steps[n - 1], states[n]);
    }
  }

  // ---------- what holds in every run ----------

  /** Part of one writer's content, from its start. */
  ghost predicate PartOfContent(c: Config, content: Bytes) {
    exists w: Writer :: content <= c.content(w)
  }

  ghost predicate LooseFiles(c: Config, fs: Files) {
    && (Temporary(c) in fs ==> PartOfContent(c, fs[Temporary(c)]))
    && (c.target in fs ==> PartOfContent(c, fs[c.target]) || (c.target in c.initial && fs[c.target] == c.initial[c.target]))
    && (c.target in c.initial ==> c.target in fs)
    && WellNamed(fs)
  }

  /** A file being written may have been moved. */
  ghost predicate LooseOpen(c: Config, s: State) {
    forall w: Writer :: w in s.open ==>
      || (PhaseOf(s, w).WritingTemporary? && (s.open[w] in {Temporary(c), c.target} || s.open[w].Quarantined?))
      || (PhaseOf(s, w).WritingMetadata? && (s.open[w] == MetadataFile(c) || s.open[w].Quarantined?))
  }

  ghost predicate LooseOp(op: Op) {
    match op
    case Rename(from, to) =>
      Owned(from) && ((to.Quarantined? && to.of == from) || (IsTemporary(from) && to == from.of && !Owned(to)))
    case Remove(path) => Owned(path)
  }

  ghost predicate LooseRecovery(v: Recovery) {
    && (forall t :: t in v.temporaries ==> IsTemporary(t) && !Owned(t.of))
    && (forall m :: m in v.metadata ==> IsMetadata(m))
    && (!v.turn.Between? ==> IsTemporary(v.turn.temporary) && !Owned(v.turn.temporary.of))
    && (forall op :: op in v.ops ==> LooseOp(op))
  }

  ghost predicate Loose(c: Config, s: State) {
    LooseFiles(c, s.fs) && LooseOpen(c, s) && forall r :: r in s.recoveries ==> LooseRecovery(s.recoveries[r])
  }

  lemma OpKeepsLooseFiles(c: Config, fs: Files, op: Op)
    requires ValidConfig(c) && LooseFiles(c, fs) && LooseOp(op)
    ensures LooseFiles(c, Apply(fs, op))
  {
    hide PartOfContent, Lawful;
    NamesDiffer(c);
  }

  lemma OpKeepsLooseOpen(c: Config, s: State, op: Op)
    requires ValidConfig(c) && LooseOpen(c, s) && LooseOp(op)
    ensures LooseOpen(c, Does(c, s, op))
  {
    hide Lawful, WellNamed, Apply;
    NamesDiffer(c);
    var s' := Does(c, s, op);
    assert forall w: Writer :: PhaseOf(s', w) == PhaseOf(s, w);
  }

  lemma WriteIsPart(c: Config, w: Writer, k: nat)
    requires k <= |c.content(w)|
    ensures PartOfContent(c, c.content(w)[..k])
  {
    assert c.content(w)[..k] <= c.content(w);
  }

  lemma MoveIs(c: Config, s: State, step: Step, s': State)
    requires WriterStep(c, s, step, s') && Moves(step)
    ensures var after := Does(c, s, MoveOf(c, step));
            && s'.fs == after.fs && s'.open == after.open
            && !(PhaseOf(s, step.w).WritingTemporary? || PhaseOf(s, step.w).WritingMetadata?)
  {
    hide MetadataText, Moved, Apply;
  }

  lemma MoveIsLoose(c: Config, step: Step)
    requires ValidConfig(c) && IsTemporary(Temporary(c)) && Moves(step)
    ensures LooseOp(MoveOf(c, step))
  {
    hide Lawful, WellNamed;
    assert IsMetadata(MetadataFile(c));
  }

  lemma WriteKeepsLooseFiles(c: Config, s: State, step: Step, s': State)
    requires ValidConfig(c) && LooseFiles(c, s.fs) && LooseOpen(c, s) && WriterStep(c, s, step, s') && !Moves(step)
    ensures LooseFiles(c, s'.fs)
  {
    StepFiles(c, s, step, s');
    if step.WriteTemporary? || step.WriteMetadata? { WrittenPlace(c, s, step, s'); }
    hide WriterStep, LooseOpen, Lawful, PartOfContent, MetadataText;
    NamesDiffer(c);
    if step.OpenTemporary? {
      WriteIsPart(c, step.w, 0);
    } else if step.WriteTemporary? {
      WriteIsPart(c, step.w, step.upTo);
    }
  }

  lemma WrittenPlace(c: Config, s: State, step: Step, s': State)
    requires LooseOpen(c, s) && WriterStep(c, s, step, s')
    ensures step.WriteTemporary? ==> step.upTo <= |c.content(step.w)|
    ensures step.WriteTemporary? && step.w in s.open ==> s.open[step.w] in {Temporary(c), c.target} || s.open[step.w].Quarantined?
    ensures step.WriteMetadata? && step.w in s.open ==> s.open[step.w] == MetadataFile(c) || s.open[step.w].Quarantined?
  {
    hide MetadataText, Apply, Moved;
  }

  lemma WriterKeepsLooseFiles(c: Config, s: State, step: Step, s': State)
    requires ValidConfig(c) && IsTemporary(Temporary(c)) && Loose(c, s) && WriterStep(c, s, step, s')
    ensures LooseFiles(c, s'.fs)
  {
    hide ValidConfig, LooseFiles, LooseOpen, LooseRecovery, LooseOp, WriterStep;
    if Moves(step) {
      MoveIs(c, s, step, s');
      MoveIsLoose(c, step);
      OpKeepsLooseFiles(c, s.fs, MoveOf(c, step));
    } else {
      WriteKeepsLooseFiles(c, s, step, s');
    }
  }

  lemma WriteKeepsLooseOpen(c: Config, s: State, step: Step, s': State)
    requires LooseOpen(c, s) && WriterStep(c, s, step, s') && !Moves(step)
    ensures LooseOpen(c, s')
  {
    PhasesOfOthers(c, s, step, s');
    OpensWithoutMoves(c, s, step, s');
    hide Moved, Apply, MetadataText;
  }

  lemma WriterKeepsLooseOpen(c: Config, s: State, step: Step, s': State)
    requires ValidConfig(c) && IsTemporary(Temporary(c)) && LooseOpen(c, s) && WriterStep(c, s, step, s')
    ensures LooseOpen(c, s')
  {
    hide ValidConfig, WriterStep, LooseOp, Moved;
    if Moves(step) {
      PhasesOfOthers(c, s, step, s');
      MoveIs(c, s, step, s');
      MoveIsLoose(c, step);
      OpKeepsLooseOpen(c, s, MoveOf(c, step));
      assert step.w !in s.open;
      MovedKeepsClosed(s.fs, s.open, MoveOf(c, step), step.w);
      assert forall v: Writer :: PhaseOf(Does(c, s, MoveOf(c, step)), v) == PhaseOf(s, v);
    } else {
      WriteKeepsLooseOpen(c, s, step, s');
    }
  }

  lemma MovedKeepsClosed(fs: Files, open: map<Writer, Path>, op: Op, w: Writer)
    requires w !in open
    ensures w !in Moved(fs, open, op)
  {
  }

  lemma MovesBothAreLoose(t: Path, id: nat, op: Op)
    requires IsTemporary(t) && op in MovesBoth(t, id)
    ensures LooseOp(op)
  {
    assert Owned(Meta(t));
  }

  lemma MovingIsLoose(v: Recovery, t: Path, id: nat)
    requires LooseRecovery(v) && IsTemporary(t) && v.turn.Between?
    ensures LooseRecovery(v.(ops := MovesBoth(t, id)))
  {
    hide LooseOp;
    forall op | op in MovesBoth(t, id)
      ensures LooseOp(op)
    {
      MovesBothAreLoose(t, id, op);
    }
  }

  lemma ReadsMetadataLoose(e: Services, fs: Files, v: Recovery, id: nat)
    requires LooseRecovery(v) && v.temporaries != [] && v.turn.Between?
    ensures v.temporaries[0].Tmp? && LooseRecovery(ReadsMetadata(e, fs, v, id))
  {
    hide LooseOp;
    var t := v.temporaries[0];
    assert t in v.temporaries;
    var rest := v.(temporaries := v.temporaries[1..], processed := v.processed + {Meta(t)});
    assert LooseRecovery(rest);
    MovingIsLoose(rest, t, id);
  }

  lemma ReadsTemporaryLoose(e: Services, fs: Files, v: Recovery, id: nat)
    requires LooseRecovery(v) && v.turn.HasMetadata? && v.turn.temporary in fs
    ensures LooseRecovery(ReadsTemporary(e, fs, v, id))
  {
    hide LooseOp;
    MovingIsLoose(v.(turn := Between), v.turn.temporary, id);
  }

  lemma ChecksTargetLoose(e: Services, fs: Files, v: Recovery, id: nat)
    requires LooseRecovery(v) && v.turn.IsVerified?
    ensures LooseRecovery(ChecksTarget(e, fs, v, id))
  {
    hide LooseOp;
    PairsAreLoose(v.turn.temporary);
    MovingIsLoose(v.(turn := Between), v.turn.temporary, id);
  }

  lemma TakesMetadataLoose(fs: Files, v: Recovery, id: nat)
    requires LooseRecovery(v) && v.metadata != [] && v.turn.Between?
    ensures v.metadata[0].Meta? && LooseRecovery(TakesMetadata(fs, v, id))
  {
    hide LooseOp;
    var m := v.metadata[0];
    assert m in v.metadata;
    MovingIsLoose(v.(metadata := v.metadata[1..]), m.of, id);
  }

  lemma PairsAreLoose(t: Path)
    requires IsTemporary(t) && !Owned(t.of)
    ensures LooseOp(Rename(t, t.of)) && LooseOp(Remove(t)) && LooseOp(Remove(Meta(t)))
  {
    assert IsMetadata(Meta(t));
  }

  lemma RecoveryKeepsLoose(c: Config, s: State, step: Step, s': State)
    requires ValidConfig(c) && Loose(c, s) && RecoveryStep(c, s, step, s')
    ensures Loose(c, s')
  {
    hide Lawful, LooseOp, LooseRecovery, LooseFiles, LooseOpen, Moved, Apply, FreshId, ReadsMetadata, ReadsTemporary, ChecksTarget,
            TakesMetadata;
    if step.Perform? {
      var v := s.recoveries[step.r];
      RestIsLoose(v);
      OpKeepsLooseFiles(c, s.fs, v.ops[0]);
      OpKeepsLooseOpen(c, s, v.ops[0]);
      SameLooseOpen(c, Does(c, s, v.ops[0]), s');
    } else {
      SameLooseOpen(c, s, s');
      LookKeepsLoose(c, s, step, s');
    }
  }

  lemma LookKeepsLoose(c: Config, s: State, step: Step, s': State)
    requires LooseFiles(c, s.fs) && RecoveryStep(c, s, step, s') && !step.Perform?
    requires forall r :: r in s.recoveries ==> LooseRecovery(s.recoveries[r])
    ensures forall r :: r in s'.recoveries ==> LooseRecovery(s'.recoveries[r])
  {
    hide LooseRecovery, PartOfContent, FreshId, ReadsMetadata, ReadsTemporary, ChecksTarget, TakesMetadata, Discovered, WellNamed;
    match step
    case StartRecovery(r, temporaries, metadata) => StartIsLoose(s.fs, temporaries, metadata);
    case ReadMetadata(r, id) => ReadsMetadataLoose(c.e, s.fs, s.recoveries[r], id);
    case ReadTemporary(r, id) => ReadsTemporaryLoose(c.e, s.fs, s.recoveries[r], id);
    case CheckTarget(r, id) => ChecksTargetLoose(c.e, s.fs, s.recoveries[r], id);
    case TakeMetadata(r, id) => TakesMetadataLoose(s.fs, s.recoveries[r], id);
    case EndRecovery(_) =>
  }

  lemma SameLooseOpen(c: Config, s: State, s': State)
    requires LooseOpen(c, s) && s'.open == s.open && s'.phase == s.phase
    ensures LooseOpen(c, s')
  {
    assert forall w: Writer :: PhaseOf(s', w) == PhaseOf(s, w);
  }

  lemma RestIsLoose(v: Recovery)
    requires LooseRecovery(v) && v.ops != []
    ensures LooseOp(v.ops[0]) && LooseRecovery(v.(ops := v.ops[1..]))
  {
    hide LooseOp;
    assert v.ops[0] in v.ops && forall op :: op in v.ops[1..] ==> op in v.ops;
  }

  lemma StartIsLoose(fs: Files, temporaries: seq<Path>, metadata: seq<Path>)
    requires WellNamed(fs) && Discovered(fs, temporaries, metadata)
    ensures LooseRecovery(Recovery(temporaries, metadata, {}, Between, []))
  {
  }

  lemma StepKeepsLoose(c: Config, s: State, step: Step, s': State)
    requires ValidConfig(c) && IsTemporary(Temporary(c)) && Loose(c, s) && Next(c, s, step, s')
    ensures Loose(c, s')
  {
    hide WriterStep, RecoveryStep, ValidConfig, LooseFiles, LooseOpen, LooseRecovery;
    if WriterStep(c, s, step, s') {
      PhasesOfOthers(c, s, step, s');
      WriterKeepsLooseFiles(c, s, step, s');
      WriterKeepsLooseOpen(c, s, step, s');
    } else {
      RecoveryKeepsLoose(c, s, step, s');
    }
  }

  lemma {:induction false} LooseAlways(c: Config, states: seq<State>, steps: seq<Step>, n: nat)
    requires ValidConfig(c) && IsTemporary(Temporary(c)) && IsRun(c, states, steps) && n < |states|
    ensures Loose(c, states[n])
  {
    hide Next, Lawful;
    if n > 0 {
      hide Loose, ValidConfig;
      LooseAlways(c, states, steps, n - 1);
      assert Next(c, states[n - 1], steps[n - 1], states[n - 1 + 1]);
      StepKeepsLoose(c, states[n - 1], steps[n - 1], states[n]);
    }
  }

  /** In every run the target holds its initial content or a first part of one writer's
      content, and once it exists it never goes missing. */
  lemma TargetIsPartOfContent(c: Config, s: State)
    requires ValidConfig(c) && IsTemporary(Temporary(c)) && Reachable(c, s)
    ensures c.target in s.fs ==> PartOfContent(c, s.fs[c.target]) || (c.target in c.initial && s.fs[c.target] == c.initial[c.target])
    ensures c.target in c.initial ==> c.target in s.fs
  {
    hide ValidConfig, Next;
    var states, steps :| IsRun(c, states, steps) && states[|steps|] == s;
    LooseAlways(c, states, steps, |steps|);
  }

  // ---------- the run that breaks it ----------

  lemma InitReachable(c: Config)
    ensures Reachable(c, Init(c))
  {
    assert IsRun(c, [Init(c)], []);
  }

  lemma NextReachable(c: Config, s: State, step: Step, s': State)
    requires Reachable(c, s) && Next(c, s, step, s')
    ensures Reachable(c, s')
  {
    hide Next;
    var states, steps :| IsRun(c, states, steps) && states[|steps|] == s;
    var (states', steps') := (states + [s'], steps + [step]);
    forall i | 0 <= i < |steps'|
      ensures Next(c, states'[i], steps'[i], states'[i + 1])
    {
      if i < |steps| { assert Next(c, states[i], steps[i], states[i + 1]); }
    }
    assert IsRun(c, states', steps') && states'[|steps'|] == s';
  }

  /** A writer creates its temporary file and writes the first `k` bytes. */
  lemma WritesPart(c: Config, s: State, w: Writer, k: nat) returns (s': State)
    requires Reachable(c, s) && PhaseOf(s, w).Idle? && Temporary(c) !in s.fs && k <= |c.content(w)|
    ensures Reachable(c, s') && PhaseOf(s', w) == WritingTemporary(k) && s'.temporaryBy == Some(w)
    ensures s'.fs == s.fs[Temporary(c) := c.content(w)[..k]] && s'.recoveries == s.recoveries
    ensures forall v: Writer :: v != w ==> PhaseOf(s', v) == PhaseOf(s, v)
  {
    hide Reachable, RecoveryStep;
    var s1 := At(Creates(s, w, Temporary(c)), w, WritingTemporary(0)).(temporaryBy := Some(w));
    assert Next(c, s, OpenTemporary(w), s1);
    NextReachable(c, s, OpenTemporary(w), s1);
    s' := At(Writes(s1, w, c.content(w)[..k]), w, WritingTemporary(k));
    assert Next(c, s1, WriteTemporary(w, k), s');
    NextReachable(c, s1, WriteTemporary(w, k), s');
    assert s'.fs == s.fs[Temporary(c) := c.content(w)[..k]];
  }

  lemma FinishesWriting(c: Config, s: State, w: Writer) returns (s': State)
    requires Reachable(c, s) && PhaseOf(s, w) == WritingTemporary(|c.content(w)|)
    ensures Reachable(c, s') && PhaseOf(s', w).TemporaryCreated? && s'.fs == s.fs && s'.recoveries == s.recoveries
    ensures forall v: Writer :: v != w ==> PhaseOf(s', v) == PhaseOf(s, v)
  {
    hide Reachable, RecoveryStep;
    s' := At(Closes(s, w), w, TemporaryCreated);
    assert Next(c, s, FinishTemporary(w), s');
    NextReachable(c, s, FinishTemporary(w), s');
  }

  lemma FreshIdExists(fs: Files) returns (id: nat)
    ensures FreshId(fs, id)
  {
    var ids: set<nat> := set p | p in fs.Keys && p.Quarantined? :: p.id;
    id := RecoveryNames.Unused(ids);
    forall p | p in fs && p.Quarantined?
      ensures p.id != id
    {
      assert p.id in ids;
    }
  }

  lemma Walk(c: Config, fs: Files) returns (temporaries: seq<Path>, metadata: seq<Path>)
    requires IsTemporary(Temporary(c)) && Temporary(c) in fs
    ensures Discovered(fs, temporaries, metadata) && temporaries != [] && temporaries[0] == Temporary(c)
  {
    var others := RecoveryNames.Listed(set p | p in fs.Keys && IsTemporary(p) && p != Temporary(c));
    temporaries := [Temporary(c)] + others;
    metadata := RecoveryNames.Listed(set p | p in fs.Keys && IsMetadata(p));
    hide IsTemporary, IsMetadata;
    assert forall i :: 0 < i < |temporaries| ==> temporaries[i] in others;
  }

  /** A recovery finds the file without metadata, moves it to quarantine and stops there. */
  lemma TemporaryIsTaken(c: Config, s: State) returns (s': State)
    requires IsTemporary(Temporary(c)) && Reachable(c, s) && s.recoveries == map[]
    requires Temporary(c) in s.fs && MetadataFile(c) !in s.fs
    ensures Reachable(c, s') && s'.phase == s.phase && s'.recoveries == map[]
    ensures Temporary(c) !in s'.fs && MetadataFile(c) !in s'.fs
  {
    var t := Temporary(c);
    var id := FreshIdExists(s.fs);
    var temporaries, metadata := Walk(c, s.fs);
    hide Reachable, WriterStep, Discovered, FreshId;
    var v := Recovery(temporaries, metadata, {}, Between, []);
    var s1 := Goes(s, 0, v);
    assert Next(c, s, StartRecovery(0, temporaries, metadata), s1);
    NextReachable(c, s, StartRecovery(0, temporaries, metadata), s1);
    var v2 := ReadsMetadata(c.e, s.fs, v, id);
    var s2 := Goes(s1, 0, v2);
    assert Next(c, s1, ReadMetadata(0, id), s2);
    NextReachable(c, s1, ReadMetadata(0, id), s2);
    assert v2.ops[0] == Rename(t, Quarantined(id, t));
    s' := TakenAndStopped(c, s2, id);
  }

  lemma TakenAndStopped(c: Config, s: State, id: nat) returns (s': State)
    requires Reachable(c, s) && s.recoveries.Keys == {0} && MetadataFile(c) !in s.fs
    requires s.recoveries[0].ops != [] && s.recoveries[0].ops[0] == Rename(Temporary(c), Quarantined(id, Temporary(c)))
    ensures Reachable(c, s') && s'.phase == s.phase && s'.recoveries == map[]
    ensures Temporary(c) !in s'.fs && MetadataFile(c) !in s'.fs
  {
    hide Reachable, WriterStep, Moved;
    var v := s.recoveries[0];
    var s1 := Goes(Does(c, s, v.ops[0]), 0, v.(ops := v.ops[1..]));
    assert Next(c, s, Perform(0), s1);
    NextReachable(c, s, Perform(0), s1);
    s' := s1.(recoveries := s1.recoveries - {0});
    assert Next(c, s1, EndRecovery(0), s');
    NextReachable(c, s1, EndRecovery(0), s');
  }

  /** The first writer goes on with its metadata, and nothing tells it that the temporary
      file is another's by now. */
  lemma WritesMetadata(c: Config, s: State, w: Writer) returns (s': State)
    requires Reachable(c, s) && PhaseOf(s, w).TemporaryCreated? && Temporary(c) in s.fs && MetadataFile(c) !in s.fs
    ensures Reachable(c, s') && PhaseOf(s', w).MetadataCreated? && s'.temporaryBy == s.temporaryBy
    ensures Temporary(c) in s'.fs && s'.fs[Temporary(c)] == s.fs[Temporary(c)]
  {
    NamesDiffer(c);
    hide Reachable, RecoveryStep;
    var m, text := MetadataFile(c), MetadataText(c, w);
    var s1 := At(Creates(s, w, m), w, WritingMetadata(0)).(metadataBy := Some(w));
    assert Next(c, s, OpenMetadata(w), s1);
    NextReachable(c, s, OpenMetadata(w), s1);
    var s2 := At(Writes(s1, w, text[..|text|]), w, WritingMetadata(|text|));
    assert Next(c, s1, WriteMetadata(w, |text|), s2);
    NextReachable(c, s1, WriteMetadata(w, |text|), s2);
    s' := At(Closes(s2, w), w, MetadataCreated);
    assert Next(c, s2, FinishMetadata(w), s');
    NextReachable(c, s2, FinishMetadata(w), s');
  }

  /** A recovery between a writer's two files lets it install what another writer has
      written so far, whatever that is. */
  lemma OverlapInstallsAnyPart(c: Config, w: Writer, k: nat) returns (s: State, other: Writer, s': State)
    requires ValidConfig(c) && IsTemporary(Temporary(c)) && k <= |c.content(w)|
    ensures Reachable(c, s) && Next(c, s, RenameToTarget(other), s') && Reachable(c, s')
    ensures other != w && s.temporaryBy == Some(w) && Touched(s.fs, s'.fs, Temporary(c))
    ensures c.target in s'.fs && s'.fs[c.target] == c.content(w)[..k]
  {
    NamesDiffer(c);
    hide Reachable, RecoveryStep, Lawful, WellNamed, Moved;
    other := w + 1;
    InitReachable(c);
    var s1 := WritesPart(c, Init(c), other, |c.content(other)|);
    var s2 := FinishesWriting(c, s1, other);
    var s3 := TemporaryIsTaken(c, s2);
    assert PhaseOf(s3, w) == PhaseOf(s2, w) && PhaseOf(s3, other) == PhaseOf(s2, other);
    var s4 := WritesPart(c, s3, w, k);
    s := WritesMetadata(c, s4, other);
    s' := At(Does(c, s, Rename(Temporary(c), c.target)), other, Renamed);
    assert Next(c, s, RenameToTarget(other), s');
    NextReachable(c, s, RenameToTarget(other), s');
  }

  /** Without a lock, crash atomicity holds for exactly the targets that the recovery does
      not look at, and those where a content cut short is as good as a whole one. */
  lemma AtomicWithoutLock(c: Config)
    requires ValidConfig(c)
    ensures AlwaysAtomic(c) <==> !IsTemporary(Temporary(c)) || PrefixesAllowed(c)
  {
    hide ValidConfig, Reachable, IsTemporary, Next;
    if !IsTemporary(Temporary(c)) {
      forall s | Reachable(c, s)
        ensures TargetOk(c, s)
      {
        OutOfSightIsAtomic(c, s);
      }
    } else if PrefixesAllowed(c) {
      forall s | Reachable(c, s)
        ensures TargetOk(c, s)
      {
        TargetIsPartOfContent(c, s);
        PartsAreAllowed(c, s);
      }
    } else {
      var w: Writer, k: nat :| k <= |c.content(w)| && !Allowed(c, c.content(w)[..k]);
      var s, other, s' := OverlapInstallsAnyPart(c, w, k);
      assert !TargetOk(c, s');
    }
  }

  lemma OutOfSightIsAtomic(c: Config, s: State)
    requires ValidConfig(c) && !IsTemporary(Temporary(c)) && Reachable(c, s)
    ensures TargetOk(c, s)
  {
    hide ValidConfig, Next, IsTemporary;
    var states, steps :| IsRun(c, states, steps) && states[|steps|] == s;
    OutOfSightAlways(c, states, steps, |steps|);
  }

  lemma PartsAreAllowed(c: Config, s: State)
    requires PrefixesAllowed(c)
    requires c.target in s.fs ==> PartOfContent(c, s.fs[c.target]) || (c.target in c.initial && s.fs[c.target] == c.initial[c.target])
    requires c.target in c.initial ==> c.target in s.fs
    ensures TargetOk(c, s)
  {
    if c.target in s.fs && PartOfContent(c, s.fs[c.target]) {
      var content := s.fs[c.target];
      var w: Writer :| content <= c.content(w);
      assert c.content(w)[..|content|] == content;
    }
  }
}
