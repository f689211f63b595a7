/** The processes around one path: any number of calls of `writeTextAtomic`
    (`src/core/json.ts`) and of recoveries (`src/core/atomic-file.ts`), each of which may
    stop between or inside file operations. Nothing keeps them apart. */
module AtomicSystem {
  import opened Wrappers
  import opened Bytes
  import opened AtomicFiles
  import opened AtomicRecovery
  import opened RecoverySteps

  type Writer = nat

  /** The path written, and what each writer wants to put there. */
  datatype Config = Config(
    e: Services,
    target: Path,
    initial: Files,
    content: Writer -> Bytes,
    kind: Writer -> Kind)

  /** How far a call of `writeTextAtomic` has come. `Cleanup` is its catch block, with
      the two flags the code keeps. */
  datatype Phase =
    | Idle
    | WritingTemporary(written: nat)
    | TemporaryCreated
    | WritingMetadata(written: nat)
    | MetadataCreated
    | Renamed
    | Cleanup(temporary: bool, metadata: bool)
    | Done
    | Failed
    | Crashed

  /** The disk, the writers, where the file each writer has open is now, who created the
      files that now have the two names, and the recoveries under way. */
  datatype State = State(
    fs: Files,
    phase: map<Writer, Phase>,
    open: map<Writer, Path>,
    temporaryBy: Option<Writer>,
    metadataBy: Option<Writer>,
    recoveries: map<nat, Recovery>)

  function PhaseOf(s: State, w: Writer): Phase {
    if w in s.phase then s.phase[w] else Idle
  }

  /** The call may still change files. */
  predicate Live(p: Phase) {
    !(p.Idle? || p.Done? || p.Failed? || p.Crashed? || p == Cleanup(false, false))
  }

  /** The temporary file is this writer's, and complete unless it is still writing. */
  predicate HoldsTemporary(p: Phase) {
    || p.WritingTemporary? || p.TemporaryCreated? || p.WritingMetadata? || p.MetadataCreated?
    || (p.Cleanup? && p.temporary)
  }

  predicate HoldsMetadata(p: Phase) {
    p.WritingMetadata? || p.MetadataCreated? || p.Renamed? || (p.Cleanup? && p.metadata)
  }

  function Temporary(c: Config): Path {
    Tmp(c.target)
  }

  function MetadataFile(c: Config): Path {
    Meta(Tmp(c.target))
  }

  function MetadataOf(c: Config, w: Writer): Metadata {
    MetadataFor(c.e, c.target, c.content(w), c.kind(w))
  }

  function MetadataText(c: Config, w: Writer): Bytes {
    c.e.render(MetadataOf(c, w))
  }

  /** The target is no temporary or metadata file and not in quarantine; no writer has
      been at work yet. */
  ghost predicate ValidConfig(c: Config) {
    && Lawful(c.e)
    && !Owned(c.target) && !c.target.Quarantined?
    && WellNamed(c.initial)
    && Temporary(c) !in c.initial && MetadataFile(c) !in c.initial
  }

  // ---------- steps ----------

  datatype Step =
    | OpenTemporary(w: Writer)
    | WriteTemporary(w: Writer, upTo: nat)
    | FinishTemporary(w: Writer)
    | TemporaryFails(w: Writer)
    | OpenMetadata(w: Writer)
    | WriteMetadata(w: Writer, upTo: nat)
    | FinishMetadata(w: Writer)
    | MetadataFails(w: Writer)
    | RenameToTarget(w: Writer)
    | RenameFails(w: Writer)
    | RemoveMetadata(w: Writer)
    | RemoveMetadataFails(w: Writer)
    | CleanTemporary(w: Writer)
    | CleanMetadata(w: Writer)
    | CleanFails(w: Writer)
    | Rethrow(w: Writer)
    | Crash(w: Writer)
    | StartRecovery(r: nat, temporaries: seq<Path>, metadata: seq<Path>)
    | ReadMetadata(r: nat, id: nat)
    | ReadTemporary(r: nat, id: nat)
    | CheckTarget(r: nat, id: nat)
    | TakeMetadata(r: nat, id: nat)
    | Perform(r: nat)
    | EndRecovery(r: nat)

  function At(s: State, w: Writer, p: Phase): State {
    s.(phase := s.phase[w := p])
  }

  /** An open file follows its renames; it is lost when it is removed or replaced. */
  function Moved(fs: Files, open: map<Writer, Path>, op: Op): map<Writer, Path> {
    match op
    case Rename(from, to) =>
      if from !in fs then open
      else map w | w in open && open[w] != to :: if open[w] == from then to else open[w]
    case Remove(path) => map w | w in open && open[w] != path :: open[w]
  }

  /** A rename or a removal, by whomever. */
  function Does(c: Config, s: State, op: Op): State {
    var fs := Apply(s.fs, op);
    s.(fs := fs,
       open := Moved(s.fs, s.open, op),
       temporaryBy := if Temporary(c) in fs then s.temporaryBy else None,
       metadataBy := if MetadataFile(c) in fs then s.metadataBy else None)
  }

  /** Creates a file with the `wx` flag. */
  function Creates(s: State, w: Writer, path: Path): State {
    s.(fs := s.fs[path := []], open := s.open[w := path])
  }

  /** What has been written so far goes wherever the open file is now. */
  function Writes(s: State, w: Writer, content: Bytes): State {
    if w in s.open then s.(fs := s.fs[s.open[w] := content]) else s
  }

  function Closes(s: State, w: Writer): State {
    s.(open := s.open - {w})
  }

  /** One step of one writer. Failures of the system calls are free to happen. */
  ghost predicate WriterStep(c: Config, s: State, step: Step, s': State) {
    var t, m := Temporary(c), MetadataFile(c);
    match step
    case OpenTemporary(w) =>
      && PhaseOf(s, w).Idle? && t !in s.fs
      && s' == At(Creates(s, w, t), w, WritingTemporary(0)).(temporaryBy := Some(w))
    case WriteTemporary(w, upTo) =>
      && PhaseOf(s, w).WritingTemporary? && PhaseOf(s, w).written <= upTo <= |c.content(w)|
      && s' == At(Writes(s, w, c.content(w)[..upTo]), w, WritingTemporary(upTo))
    case FinishTemporary(w) =>
      PhaseOf(s, w) == WritingTemporary(|c.content(w)|) && s' == At(Closes(s, w), w, TemporaryCreated)
    case TemporaryFails(w) =>
      && (PhaseOf(s, w).Idle? || PhaseOf(s, w).WritingTemporary?)
      && s' == At(Closes(s, w), w, Cleanup(false, false))
    case OpenMetadata(w) =>
      && PhaseOf(s, w).TemporaryCreated? && m !in s.fs
      && s' == At(Creates(s, w, m), w, WritingMetadata(0)).(metadataBy := Some(w))
    case WriteMetadata(w, upTo) =>
      && PhaseOf(s, w).WritingMetadata? && PhaseOf(s, w).written <= upTo <= |MetadataText(c, w)|
      && s' == At(Writes(s, w, MetadataText(c, w)[..upTo]), w, WritingMetadata(upTo))
    case FinishMetadata(w) =>
      PhaseOf(s, w) == WritingMetadata(|MetadataText(c, w)|) && s' == At(Closes(s, w), w, MetadataCreated)
    case MetadataFails(w) =>
      && (PhaseOf(s, w).TemporaryCreated? || PhaseOf(s, w).WritingMetadata?)
      && s' == At(Closes(s, w), w, Cleanup(true, false))
    case RenameToTarget(w) =>
      PhaseOf(s, w).MetadataCreated? && t in s.fs && s' == At(Does(c, s, Rename(t, c.target)), w, Renamed)
    case RenameFails(w) =>
      PhaseOf(s, w).MetadataCreated? && s' == At(s, w, Cleanup(true, true))
    case RemoveMetadata(w) =>
      PhaseOf(s, w).Renamed? && m in s.fs && s' == At(Does(c, s, Remove(m)), w, Done)
    case RemoveMetadataFails(w) =>
      PhaseOf(s, w).Renamed? && s' == At(s, w, Cleanup(false, true))
    case CleanTemporary(w) =>
      && PhaseOf(s, w).Cleanup? && PhaseOf(s, w).temporary
      && s' == At(Does(c, s, Remove(t)), w, Cleanup(false, PhaseOf(s, w).metadata))
    case CleanMetadata(w) =>
      && PhaseOf(s, w).Cleanup? && !PhaseOf(s, w).temporary && PhaseOf(s, w).metadata
      && s' == At(Does(c, s, Remove(m)), w, Cleanup(false, false))
    case CleanFails(w) =>
      PhaseOf(s, w).Cleanup? && s' == At(s, w, Failed)
    case Rethrow(w) =>
      PhaseOf(s, w) == Cleanup(false, false) && s' == At(s, w, Failed)
    case Crash(w) =>
      Live(PhaseOf(s, w)) && s' == At(Closes(s, w), w, Crashed)
    case _ => false
  }

  predicate Moves(step: Step) {
    step.RenameToTarget? || step.CleanTemporary? || step.RemoveMetadata? || step.CleanMetadata?
  }

  function MoveOf(c: Config, step: Step): Op
    requires Moves(step)
  {
    if step.RenameToTarget? then Rename(Temporary(c), c.target)
    else if step.CleanTemporary? then Remove(Temporary(c))
    else Remove(MetadataFile(c))
  }

  /** The files after a writer's step. */
  function FilesAfter(c: Config, s: State, step: Step): Files {
    match step
    case OpenTemporary(_) => s.fs[Temporary(c) := []]
    case OpenMetadata(_) => s.fs[MetadataFile(c) := []]
    case WriteTemporary(w, upTo) =>
      if w in s.open && upTo <= |c.content(w)| then s.fs[s.open[w] := c.content(w)[..upTo]] else s.fs
    case WriteMetadata(w, upTo) =>
      if w in s.open && upTo <= |MetadataText(c, w)| then s.fs[s.open[w] := MetadataText(c, w)[..upTo]] else s.fs
    case _ => if Moves(step) then Apply(s.fs, MoveOf(c, step)) else s.fs
  }

  lemma StepFiles(c: Config, s: State, step: Step, s': State)
    requires WriterStep(c, s, step, s')
    ensures s'.fs == FilesAfter(c, s, step)
  {
    hide MetadataText, Apply, Moved;
  }

  function Goes(s: State, r: nat, v: Recovery): State {
    s.(recoveries := s.recoveries[r := v])
  }

  predicate InTurn(s: State, r: nat) {
    r in s.recoveries && s.recoveries[r].turn.Between? && s.recoveries[r].ops == []
  }

  /** One step of one recovery. It ends when it is through, and by an exception or a crash
      at any other point. */
  ghost predicate RecoveryStep(c: Config, s: State, step: Step, s': State) {
    match step
    case StartRecovery(r, temporaries, metadata) =>
      && r !in s.recoveries && Discovered(s.fs, temporaries, metadata)
      && s' == Goes(s, r, Recovery(temporaries, metadata, {}, Between, []))
    case ReadMetadata(r, id) =>
      && InTurn(s, r) && s.recoveries[r].temporaries != [] && s.recoveries[r].temporaries[0].Tmp? && FreshId(s.fs, id)
      && s' == Goes(s, r, ReadsMetadata(c.e, s.fs, s.recoveries[r], id))
    case ReadTemporary(r, id) =>
      && r in s.recoveries && s.recoveries[r].turn.HasMetadata? && s.recoveries[r].turn.temporary in s.fs
      && FreshId(s.fs, id)
      && s' == Goes(s, r, ReadsTemporary(c.e, s.fs, s.recoveries[r], id))
    case CheckTarget(r, id) =>
      && r in s.recoveries && s.recoveries[r].turn.IsVerified? && s.recoveries[r].turn.temporary.Tmp? && FreshId(s.fs, id)
      && s' == Goes(s, r, ChecksTarget(c.e, s.fs, s.recoveries[r], id))
    case TakeMetadata(r, id) =>
      && InTurn(s, r) && s.recoveries[r].temporaries == [] && s.recoveries[r].metadata != []
      && s.recoveries[r].metadata[0].Meta? && FreshId(s.fs, id)
      && s' == Goes(s, r, TakesMetadata(s.fs, s.recoveries[r], id))
    case Perform(r) =>
      && r in s.recoveries && s.recoveries[r].ops != [] && CanDo(s.fs, s.recoveries[r].ops[0])
      && s' == Goes(Does(c, s, s.recoveries[r].ops[0]), r, s.recoveries[r].(ops := s.recoveries[r].ops[1..]))
    case EndRecovery(r) =>
      r in s.recoveries && s' == s.(recoveries := s.recoveries - {r})
    case _ => false
  }

  ghost predicate Next(c: Config, s: State, step: Step, s': State) {
    WriterStep(c, s, step, s') || RecoveryStep(c, s, step, s')
  }

  function Init(c: Config): State {
    State(c.initial, map[], map[], None, None, map[])
  }

  ghost predicate IsRun(c: Config, states: seq<State>, steps: seq<Step>) {
    && |states| == |steps| + 1 && states[0] == Init(c)
    && forall i :: 0 <= i < |steps| ==> Next(c, states[i], steps[i], states[i + 1])
  }

  function WriterOf(step: Step): Option<Writer> {
    match step
    case StartRecovery(_, _, _) => None
    case ReadMetadata(_, _) => None
    case ReadTemporary(_, _) => None
    case CheckTarget(_, _) => None
    case TakeMetadata(_, _) => None
    case Perform(_) => None
    case EndRecovery(_) => None
    case _ => Some(step.w)
  }

  /** The recovery has something to do with the two names beside the target. */
  predicate Concerns(c: Config, v: Recovery) {
    || Temporary(c) in v.temporaries || MetadataFile(c) in v.metadata
    || (!v.turn.Between? && v.turn.temporary == Temporary(c))
    || exists op :: op in v.ops && Source(op) in {Temporary(c), MetadataFile(c)}
  }

  /** No writer is at work while a recovery has something to do with its files. */
  ghost predicate Apart(c: Config, s: State) {
    forall r, w: Writer :: r in s.recoveries && Concerns(c, s.recoveries[r]) ==> !Live(PhaseOf(s, w))
  }

  /** The states up to number `n` keep writers and recoveries apart. */
  ghost predicate NoOverlap(c: Config, states: seq<State>, n: nat)
    requires n < |states|
  {
    forall i :: 0 <= i <= n ==> Apart(c, states[i])
  }
}
