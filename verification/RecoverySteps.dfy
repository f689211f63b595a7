/** `recoverAtomicWrites` (`src/core/atomic-file.ts`) one look and one file operation at a
    time, so that other processes can change the files in between. */
module RecoverySteps {
  import opened Wrappers
  import opened Bytes
  import opened AtomicFiles
  import opened AtomicRecovery

  /** How far one round of the first loop has come: nothing read, the metadata read, or
      the temporary file read too and found to match it. */
  datatype Turn =
    | Between
    | HasMetadata(temporary: Path, read: Metadata)
    | IsVerified(temporary: Path, read: Metadata)

  /** What the walk found and is not yet dealt with, the metadata files passed over, and
      the file operations decided on and not yet done. */
  datatype Recovery = Recovery(
    temporaries: seq<Path>,
    metadata: seq<Path>,
    processed: set<Path>,
    turn: Turn,
    ops: seq<Op>)

  predicate HasEnded(v: Recovery) {
    v.temporaries == [] && v.metadata == [] && v.turn.Between? && v.ops == []
  }

  /** `quarantine` looks for each file when it comes to it; a file that is gone by then
      is passed over. */
  function MovesBoth(t: Path, id: nat): seq<Op> {
    [Rename(t, Quarantined(id, t)), Rename(Meta(t), Quarantined(id, Meta(t)))]
  }

  /** The random name of a quarantine directory has not been used. */
  ghost predicate FreshId(fs: Files, id: nat) {
    forall p :: p in fs && p.Quarantined? ==> p.id != id
  }

  /** Reads the metadata file of the next temporary file. */
  function ReadsMetadata(e: Services, fs: Files, v: Recovery, id: nat): Recovery
    requires v.temporaries != [] && v.temporaries[0].Tmp?
  {
    var t := v.temporaries[0];
    var rest := v.(temporaries := v.temporaries[1..], processed := v.processed + {Meta(t)});
    var read := if Meta(t) in fs then e.parse(fs[Meta(t)]) else None;
    if read.Some? && read.value.targetName == e.basename(t.of) then rest.(turn := HasMetadata(t, read.value))
    else rest.(ops := MovesBoth(t, id))
  }

  /** Reads the temporary file. */
  function ReadsTemporary(e: Services, fs: Files, v: Recovery, id: nat): Recovery
    requires v.turn.HasMetadata? && v.turn.temporary in fs
  {
    var (t, read) := (v.turn.temporary, v.turn.read);
    if |fs[t]| != read.size || e.digest(fs[t]) != read.digest || (read.kind == Json && !e.validJson(fs[t])) then
      v.(turn := Between, ops := MovesBoth(t, id))
    else v.(turn := IsVerified(t, read))
  }

  /** Reads the target, if there is one. */
  function ChecksTarget(e: Services, fs: Files, v: Recovery, id: nat): Recovery
    requires v.turn.IsVerified? && v.turn.temporary.Tmp?
  {
    var (t, read) := (v.turn.temporary, v.turn.read);
    v.(turn := Between,
       ops := if t.of !in fs then [Rename(t, t.of), Remove(Meta(t))]
              else if e.digest(fs[t.of]) == read.digest then [Remove(t), Remove(Meta(t))]
              else MovesBoth(t, id))
  }

  /** One round of the second loop. */
  function TakesMetadata(fs: Files, v: Recovery, id: nat): Recovery
    requires v.metadata != [] && v.metadata[0].Meta?
  {
    var m := v.metadata[0];
    v.(metadata := v.metadata[1..],
       ops := if m in v.processed || m !in fs then [] else MovesBoth(m.of, id))
  }

  /** The file an operation moves or removes. */
  function Source(op: Op): Path {
    match op
    case Rename(from, _) => from
    case Remove(path) => path
  }

  /** The rename to a target throws when its source is gone; the others do not. */
  predicate CanDo(fs: Files, op: Op) {
    op.Rename? && !op.to.Quarantined? ==> op.from in fs
  }

  lemma MovesBothIs(fs: Files, t: Path, id: nat)
    ensures Run(fs, MovesBoth(t, id)) == Run(fs, QuarantineOps(fs, t, Meta(t), id))
  {
    var a, b := Rename(t, Quarantined(id, t)), Rename(Meta(t), Quarantined(id, Meta(t)));
    assert Length(Meta(t)) == Length(t) + 1;
    assert [a, b][1..] == [b] && [a][1..] == [] && [b][1..] == [];
    assert Run(fs, [a, b]) == Run(Apply(fs, a), [b]) == Apply(Apply(fs, a), b);
    assert Run(fs, [a]) == Apply(fs, a);
  }

  /** With nobody else at work the looks of one round end in the operations of the verdict. */
  lemma RoundFollowsVerdict(e: Services, fs: Files, v: Recovery, id: nat)
    requires v.temporaries != [] && v.temporaries[0].Tmp? && v.temporaries[0] in fs && v.turn.Between?
    ensures var t := v.temporaries[0];
            var a := ReadsMetadata(e, fs, v, id);
            var b := if a.turn.HasMetadata? then ReadsTemporary(e, fs, a, id) else a;
            var d := if b.turn.IsVerified? then ChecksTarget(e, fs, b, id) else b;
            && Run(fs, d.ops) == Run(fs, TemporaryOps(e, fs, t, id))
            && d.turn.Between? && d.temporaries == v.temporaries[1..] && d.metadata == v.metadata
            && d.processed == v.processed + {Meta(t)}
  {
    hide Run, Apply;
    MovesBothIs(fs, v.temporaries[0], id);
  }
}
