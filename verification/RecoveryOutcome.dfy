/** What becomes of each file that `recoverAtomicWrites` (`src/core/atomic-file.ts`) finds,
    said by the files before and after it alone. */
module RecoveryOutcome {
  import opened Wrappers
  import opened Bytes
  import opened AtomicFiles
  import opened AtomicRecovery

  // ---------- the conditions ----------

  /** The metadata file is there, readable, and about this target. */
  ghost predicate Described(e: Services, fs: Files, t: Path)
    requires t.Tmp?
  {
    Meta(t) in fs && e.parse(fs[Meta(t)]).Some? && e.parse(fs[Meta(t)]).value.targetName == e.basename(t.of)
  }

  /** It also gives the size and the digest of the temporary file. */
  ghost predicate Matched(e: Services, fs: Files, t: Path)
    requires t.Tmp?
  {
    && t in fs && Described(e, fs, t)
    && var read := e.parse(fs[Meta(t)]).value;
       read.size == |fs[t]| && read.digest == e.digest(fs[t])
  }

  /** And where it says JSON, the temporary file holds JSON. */
  ghost predicate Vouched(e: Services, fs: Files, t: Path)
    requires t.Tmp?
  {
    Matched(e, fs, t) && (e.parse(fs[Meta(t)]).value.kind == Json ==> e.validJson(fs[t]))
  }

  // ---------- the outcomes ----------

  ghost predicate CopyAt(before: Files, after: Files, p: Path, id: nat) {
    Quarantined(id, p) in after && Quarantined(id, p) !in before
  }

  /** Nothing has gone to quarantine under this name. */
  ghost predicate NoCopy(before: Files, after: Files, p: Path) {
    forall id :: !CopyAt(before, after, p, id)
  }

  /** The file has gone to quarantine as it was. */
  ghost predicate Copied(before: Files, after: Files, p: Path) {
    p in before && exists id :: CopyAt(before, after, p, id) && after[Quarantined(id, p)] == before[p]
  }

  /** Installed at a free target; dropped when the target already holds it; otherwise in
      quarantine, with its metadata, and the target as it was. */
  ghost predicate Outcome(e: Services, fs: Files, after: Files, t: Path)
    requires t.Tmp? && t in fs
  {
    var target := t.of;
    if Vouched(e, fs, t) && target !in fs then
      target in after && after[target] == fs[t] && NoCopy(fs, after, t) && NoCopy(fs, after, Meta(t))
    else if Vouched(e, fs, t) && fs[target] == fs[t] then
      SameFile(fs, after, target) && NoCopy(fs, after, t) && NoCopy(fs, after, Meta(t))
    else
      SameFile(fs, after, target) && Copied(fs, after, t) && (Meta(t) in fs ==> Copied(fs, after, Meta(t)))
  }

  // ---------- one round ----------

  /** The paths the round of `t` is about. */
  predicate Near(t: Path, p: Path)
    requires t.Tmp?
  {
    p in {t, Meta(t), t.of} || Far(t, p)
  }

  /** Those that count after it. */
  predicate Far(t: Path, p: Path)
    requires t.Tmp?
  {
    p == t.of || (p.Quarantined? && p.of in {t, Meta(t)})
  }

  ghost predicate SameNear(a: Files, b: Files, t: Path)
    requires t.Tmp?
  {
    forall p :: Near(t, p) ==> SameFile(a, b, p)
  }

  ghost predicate SameFar(a: Files, b: Files, t: Path)
    requires t.Tmp?
  {
    forall p :: Far(t, p) ==> SameFile(a, b, p)
  }

  lemma NamesDiffer(t: Path)
    requires t.Tmp?
    ensures t != Meta(t) && t != t.of && t.of != Meta(t)
  {
    SuffixesDiffer(t.of);
  }

  predicate Touches(op: Op, p: Path) {
    match op
    case Rename(from, to) => p == from || p == to
    case Remove(path) => p == path
  }

  lemma {:induction false} Untouched(fs: Files, ops: seq<Op>, p: Path)
    requires forall op :: op in ops ==> !Touches(op, p)
    ensures SameFile(fs, Run(fs, ops), p)
    decreases |ops|
  {
    if ops != [] {
      assert ops[0] in ops;
      Untouched(Apply(fs, ops[0]), ops[1..], p);
    }
  }

  lemma MovesBoth(fs: Files, t: Path, id: nat)
    requires t.Tmp?
    ensures var after := Run(fs, QuarantineOps(fs, t, Meta(t), id));
            && SameFile(fs, after, t.of)
            && (t in fs ==> Quarantined(id, t) in after && after[Quarantined(id, t)] == fs[t])
            && (Meta(t) in fs ==> Quarantined(id, Meta(t)) in after && after[Quarantined(id, Meta(t))] == fs[Meta(t)])
  {
    var a, b := Rename(t, Quarantined(id, t)), Rename(Meta(t), Quarantined(id, Meta(t)));
    NamesDiffer(t);
    assert Length(Quarantined(id, t)) == Length(t) + 1 == Length(t.of) + 2;
    assert Length(Quarantined(id, Meta(t))) == Length(t.of) + 3;
    assert [a, b][1..] == [b] && [a][1..] == [] && [b][1..] == [];
    assert Run(fs, [a, b]) == Run(Apply(fs, a), [b]) == Apply(Apply(fs, a), b);
    assert Run(fs, [a]) == Apply(fs, a) && Run(fs, [b]) == Apply(fs, b) && Run(fs, []) == fs;
  }

  /** The verdict's operations have the outcome. */
  lemma RoundOutcome(e: Services, fs: Files, t: Path, id: nat)
    requires Lawful(e) && IsTemporary(t) && t in fs && FreshIds(fs, [id], 1)
    ensures Outcome(e, fs, Run(fs, TemporaryOps(e, fs, t, id)), t)
  {
    NamesDiffer(t);
    TargetIsNotQuarantined(t);
    var after := Run(fs, TemporaryOps(e, fs, t, id));
    assert [id][0] == id;
    match ActionFor(Judge(e, fs, t))
    case Quarantine =>
      MovesBoth(fs, t, id);
      assert CopyAt(fs, after, t, id);
      if Meta(t) in fs { assert CopyAt(fs, after, Meta(t), id); }
    case Recovered => TwoOps(e, fs, Rename(t, t.of), Remove(Meta(t)));
    case DiscardedDuplicate => TwoOps(e, fs, Remove(t), Remove(Meta(t)));
  }

  /** Nobody else's round can bring the metadata that `t` lacks. */
  predicate Independent(fs: Files, temporaries: seq<Path>, t: Path)
    requires t.Tmp?
  {
    !Owned(t.of) && (Meta(t) in fs || Tmp(Meta(t)) !in temporaries)
  }

  /** What the operations of one round touch. */
  lemma RoundTouches(e: Services, fs: Files, t: Path, id: nat, op: Op, p: Path)
    requires t.Tmp? && t in fs && op in TemporaryOps(e, fs, t, id) && Touches(op, p)
    ensures p in {t, Meta(t), Quarantined(id, t), Quarantined(id, Meta(t))} || (p == t.of && t.of !in fs)
  {
    VerifiedIsFree(e, fs, t);
    hide Judge;
  }

  /** Every first part of another round leaves these paths alone. */
  lemma OtherRound(e: Services, fs: Files, other: Path, id: nat, t: Path, k: nat)
    requires IsTemporary(other) && other in fs && IsTemporary(t) && other != t && !Owned(t.of)
    requires k <= |TemporaryOps(e, fs, other, id)|
    ensures var after := Run(fs, TemporaryOps(e, fs, other, id)[..k]);
            && SameFar(fs, after, t) && (t in fs && (Meta(t) in fs || other != Tmp(Meta(t))) ==> SameNear(fs, after, t))
            && (!Owned(other.of) ==> SameFile(fs, after, t))
  {
    var ops := TemporaryOps(e, fs, other, id);
    hide TemporaryOps;
    TargetIsNotQuarantined(other);
    TargetIsNotQuarantined(t);
    assert IsMetadata(Meta(other)) && other == Tmp(other.of) && t == Tmp(t.of);
    forall p | Far(t, p) || (p == t && !Owned(other.of)) || (Near(t, p) && t in fs && (Meta(t) in fs || other != Tmp(Meta(t))))
      ensures SameFile(fs, Run(fs, ops[..k]), p)
    {
      forall op | op in ops[..k]
        ensures !Touches(op, p)
      {
        assert op in ops;
        if Touches(op, p) { RoundTouches(e, fs, other, id, op, p); }
      }
      Untouched(fs, ops[..k], p);
    }
  }

  lemma VerifiedIsFree(e: Services, fs: Files, t: Path)
    requires t.Tmp? && t in fs
    ensures ActionFor(Judge(e, fs, t)) == Recovered ==> t.of !in fs
  {
  }

  // ---------- the two loops ----------

  ghost predicate Listed(fs: Files, temporaries: seq<Path>) {
    && (forall p :: p in temporaries ==> IsTemporary(p) && p in fs)
    && (forall i, j :: 0 <= i < j < |temporaries| ==> temporaries[i] != temporaries[j])
  }

  lemma RoundLeaves(e: Services, fs: Files, t: Path, id: nat, p: Path)
    requires t.Tmp? && t in fs && p !in {t, Meta(t), Quarantined(id, t), Quarantined(id, Meta(t))}
    requires p == t.of ==> t.of in fs
    ensures SameFile(fs, Run(fs, TemporaryOps(e, fs, t, id)), p)
  {
    var ops := TemporaryOps(e, fs, t, id);
    hide TemporaryOps;
    forall op | op in ops
      ensures !Touches(op, p)
    {
      if Touches(op, p) { RoundTouches(e, fs, t, id, op, p); }
    }
    Untouched(fs, ops, p);
  }

  /** The rest of the list is still there, and its random ids are still fresh. */
  lemma RoundStaysListed(e: Services, fs: Files, temporaries: seq<Path>, ids: seq<nat>, n: nat)
    requires temporaries != [] && Listed(fs, temporaries) && FreshIds(fs, ids, n) && n > 0
    ensures temporaries[0].Tmp? && temporaries[0] in fs
    ensures var after := Run(fs, TemporaryOps(e, fs, temporaries[0], ids[0]));
            Listed(after, temporaries[1..]) && FreshIds(after, ids[1..], n - 1)
  {
    var t, rest := temporaries[0], temporaries[1..];
    assert t in temporaries && temporaries == [t] + rest;
    TargetIsNotQuarantined(t);
    var after := Run(fs, TemporaryOps(e, fs, t, ids[0]));
    hide TemporaryOps;
    forall p | p in rest
      ensures IsTemporary(p) && p in after
    {
      assert p in temporaries && p != t;
      RoundLeaves(e, fs, t, ids[0], p);
    }
    forall i, p | 0 <= i < |ids[1..]| && p in after && p.Quarantined?
      ensures p.id != ids[1..][i]
    {
      assert ids[1..][i] == ids[i + 1];
      if p.id == ids[i + 1] { RoundLeaves(e, fs, t, ids[0], p); }
    }
  }

  lemma OutcomeBefore(e: Services, fs: Files, middle: Files, after: Files, t: Path)
    requires t.Tmp? && t in middle && SameNear(fs, middle, t) && Outcome(e, middle, after, t)
    ensures t in fs && Outcome(e, fs, after, t)
  {
    assert Near(t, t) && Near(t, Meta(t)) && Near(t, t.of);
    assert SameFile(fs, middle, t) && SameFile(fs, middle, Meta(t)) && SameFile(fs, middle, t.of);
    forall id, p | p in {t, Meta(t)}
      ensures CopyAt(fs, after, p, id) <==> CopyAt(middle, after, p, id)
    {
      assert Near(t, Quarantined(id, p));
    }
  }

  lemma OutcomeAfter(e: Services, fs: Files, middle: Files, after: Files, t: Path)
    requires t.Tmp? && t in fs && SameFar(middle, after, t) && Outcome(e, fs, middle, t)
    ensures Outcome(e, fs, after, t)
  {
    assert Far(t, t.of) && SameFile(middle, after, t.of);
    forall id, p | p in {t, Meta(t)}
      ensures SameFile(middle, after, Quarantined(id, p))
      ensures CopyAt(fs, after, p, id) <==> CopyAt(fs, middle, p, id)
    {
      assert Far(t, Quarantined(id, p));
    }
  }

  /** Rounds of others, after its own. */
  lemma {:induction false} RestOfFirstLoop(e: Services, fs: Files, temporaries: seq<Path>, ids: seq<nat>, t: Path)
    requires IsTemporary(t) && !Owned(t.of) && t !in temporaries && Listed(fs, temporaries)
    requires FreshIds(fs, ids, |temporaries|)
    ensures SameFar(fs, Run(fs, TemporariesTrace(e, fs, temporaries, ids)), t)
    decreases |temporaries|
  {
    if temporaries != [] {
      var other := temporaries[0];
      assert other in temporaries;
      var ops := TemporaryOps(e, fs, other, ids[0]);
      OtherRound(e, fs, other, ids[0], t, |ops|);
      assert ops[..|ops|] == ops;
      RoundStaysListed(e, fs, temporaries, ids, |temporaries|);
      hide TemporaryOps, Listed, FreshIds;
      RestOfFirstLoop(e, Run(fs, ops), temporaries[1..], ids[1..], t);
      RunJoin(fs, ops, TemporariesTrace(e, Run(fs, ops), temporaries[1..], ids[1..]));
    }
  }

  lemma {:induction false} FirstLoopOutcome(e: Services, fs: Files, temporaries: seq<Path>, ids: seq<nat>, t: Path)
    requires Lawful(e) && t in temporaries && Listed(fs, temporaries) && FreshIds(fs, ids, |temporaries|)
    requires t.Tmp? && Independent(fs, temporaries, t)
    ensures t in fs && Outcome(e, fs, Run(fs, TemporariesTrace(e, fs, temporaries, ids)), t)
    decreases |temporaries|
  {
    var head, rest := temporaries[0], temporaries[1..];
    assert head in temporaries && temporaries == [head] + rest;
    var ops := TemporaryOps(e, fs, head, ids[0]);
    var middle := Run(fs, ops);
    var after := Run(fs, TemporariesTrace(e, fs, temporaries, ids));
    RoundStaysListed(e, fs, temporaries, ids, |temporaries|);
    RunJoin(fs, ops, TemporariesTrace(e, middle, rest, ids[1..]));
    if head == t {
      assert [ids[0]][0] == ids[0];
      assert FreshIds(fs, [ids[0]], 1);
      RoundOutcome(e, fs, t, ids[0]);
      hide TemporaryOps, FreshIds, Outcome;
      assert t !in rest;
      RestOfFirstLoop(e, middle, rest, ids[1..], t);
      OutcomeAfter(e, fs, middle, after, t);
    } else {
      OtherRound(e, fs, head, ids[0], t, |ops|);
      assert ops[..|ops|] == ops;
      hide TemporaryOps, FreshIds, Outcome, Lawful;
      assert SameNear(fs, middle, t);
      assert Near(t, Meta(t)) && SameFile(fs, middle, Meta(t));
      FirstLoopOutcome(e, middle, rest, ids[1..], t);
      OutcomeBefore(e, fs, middle, after, t);
    }
  }

  lemma {:induction false} SecondLoopIsFar(fs: Files, metadata: seq<Path>, processed: set<Path>, ids: seq<nat>, t: Path)
    requires IsTemporary(t) && !Owned(t.of) && Meta(t) in processed && forall m :: m in metadata ==> IsMetadata(m)
    ensures SameFar(fs, Run(fs, MetadataTrace(fs, metadata, processed, ids)), t)
    decreases |metadata|
  {
    if metadata != [] {
      var m := metadata[0];
      assert m in metadata && m == Meta(m.of) && Owned(m) && Owned(m.of);
      var ops := if m in processed || m !in fs || !m.Meta? then [] else QuarantineOps(fs, m.of, m, NextId(ids));
      TargetIsNotQuarantined(t);
      forall p | Far(t, p)
        ensures SameFile(fs, Run(fs, ops), p)
      {
        Untouched(fs, ops, p);
      }
      hide QuarantineOps;
      SecondLoopIsFar(Run(fs, ops), metadata[1..], processed, RestIds(ids), t);
      RunJoin(fs, ops, MetadataTrace(Run(fs, ops), metadata[1..], processed, RestIds(ids)));
    }
  }

  /** A completed recovery deals with a temporary file by what was found at its start:
      it is installed exactly when its metadata vouch for it and its target is free,
      dropped exactly when the target already holds it, and otherwise quarantined. */
  lemma FoundFileOutcome(e: Services, fs: Files, temporaries: seq<Path>, metadata: seq<Path>, ids: seq<nat>, t: Path)
    requires Lawful(e) && Discovered(fs, temporaries, metadata) && FreshIds(fs, ids, |temporaries| + |metadata|)
    requires t in fs && IsTemporary(t) && Independent(fs, temporaries, t)
    ensures Outcome(e, fs, Run(fs, Trace(e, fs, temporaries, metadata, ids)), t)
  {
    var first, processed := TemporariesTrace(e, fs, temporaries, ids), Processed(temporaries);
    var middle := Run(fs, first);
    FirstLoopOutcome(e, fs, temporaries, ids, t);
    ProcessedHas(temporaries, Meta(t));
    SecondLoopIsFar(middle, metadata, processed, ids[|temporaries|..], t);
    var second := MetadataTrace(middle, metadata, processed, ids[|temporaries|..]);
    hide Outcome, Processed, TemporariesTrace, MetadataTrace, Discovered, FreshIds, Lawful;
    RunJoin(fs, first, second);
    OutcomeAfter(e, fs, middle, Run(fs, first + second), t);
  }

  // ---------- the records ----------

  /** When each reason is given. */
  ghost predicate ReasonFits(e: Services, fs: Files, t: Path, reason: Reason)
    requires t.Tmp? && t in fs
  {
    && (reason == MissingMetadata <==> Meta(t) !in fs)
    && (reason == InvalidMetadata <==> Meta(t) in fs && !Described(e, fs, t))
    && (reason == MetadataMismatch <==> Described(e, fs, t) && !Matched(e, fs, t))
    && (reason == InvalidJson <==> Matched(e, fs, t) && !Vouched(e, fs, t))
    && (reason == VerifiedTemporary <==> Vouched(e, fs, t) && t.of !in fs)
    && (reason == IdenticalDuplicate <==> Vouched(e, fs, t) && t.of in fs && fs[t.of] == fs[t])
    && (reason == TargetConflict <==> Vouched(e, fs, t) && t.of in fs && fs[t.of] != fs[t])
  }

  /** The record of a found file gives the reason and the action that fit it. */
  ghost predicate RecordFits(e: Services, fs: Files, t: Path, r: Record)
    requires t.Tmp? && t in fs
  {
    && r.temporary == t && r.target == t.of && ReasonFits(e, fs, t, r.reason)
    && (r.action == Recovered <==> Vouched(e, fs, t) && t.of !in fs)
    && (r.action == DiscardedDuplicate <==> Vouched(e, fs, t) && t.of in fs && fs[t.of] == fs[t])
  }

  lemma VerdictFits(e: Services, fs: Files, t: Path)
    requires Lawful(e) && t.Tmp? && t in fs
    ensures RecordFits(e, fs, t, Record(ActionFor(Judge(e, fs, t)), Judge(e, fs, t), t.of, t))
  {
  }

  /** It is what was found at the start that the record is about. */
  lemma RecordFitsBefore(e: Services, fs: Files, middle: Files, t: Path, r: Record)
    requires t.Tmp? && t in middle && SameNear(fs, middle, t) && RecordFits(e, middle, t, r)
    ensures t in fs && RecordFits(e, fs, t, r)
  {
    assert Near(t, t) && Near(t, Meta(t)) && Near(t, t.of);
    assert SameFile(fs, middle, t) && SameFile(fs, middle, Meta(t)) && SameFile(fs, middle, t.of);
  }

  // ---------- files next to no temporary file ----------

  ghost function OrphanOps(fs: Files, m: Path, processed: set<Path>, id: nat): seq<Op> {
    if m in processed || m !in fs || !m.Meta? then [] else QuarantineOps(fs, m.of, m, id)
  }

  lemma OtherOrphan(fs: Files, other: Path, processed: set<Path>, id: nat, m: Path, p: Path)
    requires IsMetadata(m) && IsMetadata(other) && other != m && (p == m || (p.Quarantined? && p.of == m))
    ensures SameFile(fs, Run(fs, OrphanOps(fs, other, processed, id)), p)
  {
    assert other == Meta(other.of) && m == Meta(m.of);
    Untouched(fs, OrphanOps(fs, other, processed, id), p);
  }

  lemma CopiedBefore(fs: Files, middle: Files, after: Files, m: Path)
    requires SameFile(fs, middle, m) && (forall id :: SameFile(fs, middle, Quarantined(id, m))) && Copied(middle, after, m)
    ensures Copied(fs, after, m)
  {
    var id :| CopyAt(middle, after, m, id) && after[Quarantined(id, m)] == middle[m];
    assert CopyAt(fs, after, m, id);
  }

  /** A metadata file found alone goes to quarantine as it was. */
  lemma {:induction false} OrphanGoes(fs: Files, metadata: seq<Path>, processed: set<Path>, ids: seq<nat>, m: Path)
    requires m in metadata && m in fs && m !in processed && (forall p :: p in metadata ==> IsMetadata(p))
    requires FreshIds(fs, ids, |metadata|)
    ensures Copied(fs, Run(fs, MetadataTrace(fs, metadata, processed, ids)), m)
    decreases |metadata|
  {
    var head, rest := metadata[0], metadata[1..];
    assert head in metadata && metadata == [head] + rest && head == Meta(head.of) && m == Meta(m.of);
    var ops := OrphanOps(fs, head, processed, ids[0]);
    var middle := Run(fs, ops);
    var after := Run(fs, MetadataTrace(fs, metadata, processed, ids));
    RunJoin(fs, ops, MetadataTrace(middle, rest, processed, ids[1..]));
    if head == m {
      OrphanIsMoved(fs, m, ids);
      assert ids[0] !in ids[1..] by { assert forall i :: 0 < i < |ids| ==> ids[i] != ids[0]; }
      hide QuarantineOps, MetadataTrace;
      CopyStays(middle, rest, processed, ids[1..], m, ids[0]);
      assert CopyAt(fs, after, m, ids[0]);
    } else {
      forall p | p == m || (p.Quarantined? && p.of == m)
        ensures SameFile(fs, middle, p)
      {
        OtherOrphan(fs, head, processed, ids[0], m, p);
      }
      OrphanIdsStayFresh(fs, head, ids, |metadata|);
      assert FreshIds(middle, ids[1..], |rest|);
      hide QuarantineOps, OrphanOps, FreshIds, MetadataTrace, Copied;
      OrphanGoes(middle, rest, processed, ids[1..], m);
      CopiedBefore(fs, middle, after, m);
    }
  }

  lemma OrphanIsMoved(fs: Files, m: Path, ids: seq<nat>)
    requires IsMetadata(m) && m in fs && ids != [] && FreshIds(fs, ids, 1)
    ensures var middle := Run(fs, QuarantineOps(fs, m.of, m, ids[0]));
            Quarantined(ids[0], m) !in fs && Quarantined(ids[0], m) in middle && middle[Quarantined(ids[0], m)] == fs[m]
  {
    assert m == Meta(m.of);
    MovesBoth(fs, m.of, ids[0]);
  }

  lemma OrphanIdsStayFresh(fs: Files, m: Path, ids: seq<nat>, n: nat)
    requires m.Meta? && FreshIds(fs, ids, n) && n > 0
    ensures FreshIds(Run(fs, QuarantineOps(fs, m.of, m, ids[0])), ids[1..], n - 1)
  {
    var after := Run(fs, QuarantineOps(fs, m.of, m, ids[0]));
    forall i, p | 0 <= i < |ids[1..]| && p in after && p.Quarantined?
      ensures p.id != ids[1..][i]
    {
      assert ids[1..][i] == ids[i + 1];
      if p.id == ids[i + 1] { Untouched(fs, QuarantineOps(fs, m.of, m, ids[0]), p); }
    }
  }

  /** Nothing is taken out of quarantine. */
  lemma {:induction false} CopyStays(fs: Files, metadata: seq<Path>, processed: set<Path>, ids: seq<nat>, m: Path, id: nat)
    requires Quarantined(id, m) in fs && id !in ids && |ids| >= |metadata| && forall p :: p in metadata ==> IsMetadata(p)
    ensures SameFile(fs, Run(fs, MetadataTrace(fs, metadata, processed, ids)), Quarantined(id, m))
    decreases |metadata|
  {
    if metadata != [] {
      var head := metadata[0];
      assert head in metadata && ids[0] in ids && IsTemporary(head.of);
      var ops := if head in processed || head !in fs || !head.Meta? then [] else QuarantineOps(fs, head.of, head, ids[0]);
      Untouched(fs, ops, Quarantined(id, m));
      hide QuarantineOps;
      CopyStays(Run(fs, ops), metadata[1..], processed, ids[1..], m, id);
      RunJoin(fs, ops, MetadataTrace(Run(fs, ops), metadata[1..], processed, ids[1..]));
    }
  }

  lemma {:induction false} FirstLoopKeepsOrphan(e: Services, fs: Files, temporaries: seq<Path>, ids: seq<nat>, n: nat, m: Path)
    requires Listed(fs, temporaries) && FreshIds(fs, ids, n) && n >= |temporaries|
    requires IsMetadata(m) && m.of !in temporaries && Tmp(m) !in temporaries
    ensures var after := Run(fs, TemporariesTrace(e, fs, temporaries, ids));
            && SameFile(fs, after, m) && (forall id :: SameFile(fs, after, Quarantined(id, m)))
            && FreshIds(after, ids[|temporaries|..], n - |temporaries|)
    decreases |temporaries|
  {
    if temporaries == [] {
      assert ids[0..] == ids;
    } else {
      var t, rest := temporaries[0], temporaries[1..];
      assert t in temporaries && temporaries == [t] + rest;
      TargetIsNotQuarantined(t);
      var middle := Run(fs, TemporaryOps(e, fs, t, ids[0]));
      RoundStaysListed(e, fs, temporaries, ids, n);
      hide TemporaryOps, Listed, FreshIds;
      forall p | p == m || (p.Quarantined? && p.of == m)
        ensures SameFile(fs, middle, p)
      {
        assert t == Tmp(t.of) && m == Meta(m.of);
        RoundLeaves(e, fs, t, ids[0], p);
      }
      FirstLoopKeepsOrphan(e, middle, rest, ids[1..], n - 1, m);
      RunJoin(fs, TemporaryOps(e, fs, t, ids[0]), TemporariesTrace(e, middle, rest, ids[1..]));
      assert ids[1..][|rest|..] == ids[|temporaries|..];
    }
  }

  /** A completed recovery quarantines every metadata file found without its temporary
      file. */
  lemma FoundOrphanOutcome(e: Services, fs: Files, temporaries: seq<Path>, metadata: seq<Path>, ids: seq<nat>, m: Path)
    requires Discovered(fs, temporaries, metadata) && FreshIds(fs, ids, |temporaries| + |metadata|)
    requires m in fs && IsMetadata(m) && m.of !in fs && Tmp(m) !in fs
    ensures Copied(fs, Run(fs, Trace(e, fs, temporaries, metadata, ids)), m)
  {
    var first, processed := TemporariesTrace(e, fs, temporaries, ids), Processed(temporaries);
    var middle := Run(fs, first);
    FirstLoopKeepsOrphan(e, fs, temporaries, ids, |temporaries| + |metadata|, m);
    ProcessedHas(temporaries, m);
    OrphanGoes(middle, metadata, processed, ids[|temporaries|..], m);
    var second := MetadataTrace(middle, metadata, processed, ids[|temporaries|..]);
    hide Processed, TemporariesTrace, MetadataTrace, Discovered, FreshIds, Copied;
    RunJoin(fs, first, second);
    CopiedBefore(fs, middle, Run(fs, first + second), m);
  }

  // ---------- recoveries cut short ----------

  /** The temporary file is as it was found, and its target free. */
  ghost predicate Waiting(start: Files, fs: Files, t: Path)
    requires t.Tmp? && t in start
  {
    SameFile(start, fs, t) && SameFile(start, fs, Meta(t)) && t.of !in fs && NoCopy(start, fs, t)
  }

  /** It is installed. */
  ghost predicate Installed(start: Files, fs: Files, t: Path)
    requires t.Tmp? && t in start
  {
    t !in fs && t.of in fs && fs[t.of] == start[t] && NoCopy(start, fs, t)
  }

  ghost predicate OnTheWay(start: Files, fs: Files, t: Path)
    requires t.Tmp? && t in start
  {
    Waiting(start, fs, t) || Installed(start, fs, t)
  }

  /** Operations elsewhere. */
  lemma WayIsKept(start: Files, fs: Files, after: Files, t: Path)
    requires t.Tmp? && t in start && OnTheWay(start, fs, t)
    requires SameFile(fs, after, t) && SameFile(fs, after, t.of) && forall id :: SameFile(fs, after, Quarantined(id, t))
    requires t in fs ==> SameFile(fs, after, Meta(t))
    ensures OnTheWay(start, after, t) && (Installed(start, fs, t) ==> Installed(start, after, t))
  {
    assert forall id :: CopyAt(start, after, t, id) <==> CopyAt(start, fs, t, id);
  }

  lemma RunPrefix(fs: Files, a: seq<Op>, b: seq<Op>, k: nat)
    requires k <= |a| + |b|
    ensures Run(fs, (a + b)[..k]) == if k <= |a| then Run(fs, a[..k]) else Run(Run(fs, a), b[..k - |a|])
  {
    if k <= |a| {
      assert (a + b)[..k] == a[..k];
    } else {
      assert (a + b)[..k] == a + b[..k - |a|];
      RunJoin(fs, a, b[..k - |a|]);
    }
  }

  /** Its own round, cut short or not. */
  lemma OwnRound(e: Services, start: Files, fs: Files, t: Path, id: nat, k: nat)
    requires Lawful(e) && IsTemporary(t) && t in start && Vouched(e, start, t) && OnTheWay(start, fs, t) && t in fs
    requires k <= |TemporaryOps(e, fs, t, id)|
    ensures OnTheWay(start, Run(fs, TemporaryOps(e, fs, t, id)[..k]), t)
    ensures k == |TemporaryOps(e, fs, t, id)| ==> Installed(start, Run(fs, TemporaryOps(e, fs, t, id)[..k]), t)
  {
    NamesDiffer(t);
    TargetIsNotQuarantined(t);
    assert Judge(e, fs, t) == VerifiedTemporary;
    hide Judge;
    var a, b := Rename(t, t.of), Remove(Meta(t));
    var ops := TemporaryOps(e, fs, t, id);
    assert ops == [a, b] && ops[..0] == [] && ops[..1] == [a] && ops[..2] == [a, b];
    OneOp(e, fs, a);
    TwoOps(e, fs, a, b);
    var after := Run(fs, ops[..k]);
    assert forall i, p :: p == Quarantined(i, t) ==> SameFile(fs, after, p);
    assert forall i :: CopyAt(start, after, t, i) <==> CopyAt(start, fs, t, i);
  }

  lemma OtherRoundOnTheWay(e: Services, start: Files, fs: Files, other: Path, id: nat, t: Path, k: nat)
    requires IsTemporary(other) && other in fs && IsTemporary(t) && other != t && !Owned(t.of) && !Owned(other.of)
    requires t in start && Meta(t) in start && OnTheWay(start, fs, t) && k <= |TemporaryOps(e, fs, other, id)|
    ensures var after := Run(fs, TemporaryOps(e, fs, other, id)[..k]);
            OnTheWay(start, after, t) && SameFile(fs, after, t) && (Installed(start, fs, t) ==> Installed(start, after, t))
  {
    var after := Run(fs, TemporaryOps(e, fs, other, id)[..k]);
    OtherRound(e, fs, other, id, t, k);
    hide TemporaryOps;
    assert Far(t, t.of) && Near(t, Meta(t)) && forall i :: Far(t, Quarantined(i, t));
    WayIsKept(start, fs, after, t);
  }

  /** The first round of the list, cut short or not. */
  lemma HeadOnTheWay(e: Services, start: Files, fs: Files, temporaries: seq<Path>, id: nat, t: Path, k: nat)
    requires Lawful(e) && IsTemporary(t) && t in start && Vouched(e, start, t) && OnTheWay(start, fs, t)
    requires temporaries != [] && Listed(fs, temporaries) && (t in fs <==> t in temporaries)
    requires temporaries[0].Tmp? && temporaries[0] in fs && !Owned(t.of) && !Owned(temporaries[0].of) && k <= |TemporaryOps(e, fs, temporaries[0], id)|
    ensures var after := Run(fs, TemporaryOps(e, fs, temporaries[0], id)[..k]);
            && OnTheWay(start, after, t)
            && (k == |TemporaryOps(e, fs, temporaries[0], id)| ==> (t in after <==> t in temporaries[1..]))
  {
    var head := temporaries[0];
    assert head in temporaries && temporaries == [head] + temporaries[1..];
    hide TemporaryOps, Lawful;
    if head == t {
      OwnRound(e, start, fs, t, id, k);
    } else {
      OtherRoundOnTheWay(e, start, fs, head, id, t, k);
    }
  }

  /** A first part of the loop ends in its first round or goes on behind it. */
  lemma FirstPart(e: Services, fs: Files, temporaries: seq<Path>, ids: seq<nat>, k: nat)
    requires temporaries != [] && ids != [] && temporaries[0].Tmp? && temporaries[0] in fs
    requires k <= |TemporariesTrace(e, fs, temporaries, ids)|
    ensures var ops := TemporaryOps(e, fs, temporaries[0], ids[0]);
            var tail := TemporariesTrace(e, Run(fs, ops), temporaries[1..], ids[1..]);
            && |TemporariesTrace(e, fs, temporaries, ids)| == |ops| + |tail| && Run(fs, ops[..|ops|]) == Run(fs, ops)
            && Run(fs, TemporariesTrace(e, fs, temporaries, ids)[..k])
               == (if k <= |ops| then Run(fs, ops[..k]) else Run(Run(fs, ops), tail[..k - |ops|]))
            && Run(Run(fs, ops), tail[..0]) == Run(fs, ops)
  {
    var ops := TemporaryOps(e, fs, temporaries[0], ids[0]);
    hide TemporaryOps;
    var tail := TemporariesTrace(e, Run(fs, ops), temporaries[1..], ids[1..]);
    assert TemporariesTrace(e, fs, temporaries, ids) == ops + tail;
    assert ops[..|ops|] == ops && tail[..0] == [];
    hide TemporariesTrace;
    RunPrefix(fs, ops, tail, k);
  }

  /** The first loop, cut short or not. */
  lemma {:induction false} FirstLoopOnTheWay(e: Services, start: Files, fs: Files, temporaries: seq<Path>, ids: seq<nat>,
          t: Path, k: nat)
    requires Lawful(e) && IsTemporary(t) && t in start && Vouched(e, start, t) && OnTheWay(start, fs, t)
    requires Listed(fs, temporaries) && FreshIds(fs, ids, |temporaries|) && (t in fs <==> t in temporaries)
    requires !Owned(t.of) && (forall p :: p in temporaries ==> p.Tmp? && !Owned(p.of))
    requires k <= |TemporariesTrace(e, fs, temporaries, ids)|
    ensures var after := Run(fs, TemporariesTrace(e, fs, temporaries, ids)[..k]);
            OnTheWay(start, after, t) && (k == |TemporariesTrace(e, fs, temporaries, ids)| ==> Installed(start, after, t))
    decreases |temporaries|
  {
    if temporaries == [] {
      assert TemporariesTrace(e, fs, temporaries, ids)[..k] == [];
    } else {
      RoundStaysListed(e, fs, temporaries, ids, |temporaries|);
      assert ids != [];
      hide TemporaryOps, FreshIds, Lawful, Vouched, Listed, TemporariesTrace, OnTheWay, IsTemporary, Owned, Installed, Run;
      FirstPart(e, fs, temporaries, ids, k);
      assert temporaries[0] in temporaries && forall p :: p in temporaries[1..] ==> p in temporaries;
      var ops := TemporaryOps(e, fs, temporaries[0], ids[0]);
      HeadOnTheWay(e, start, fs, temporaries, ids[0], t, if k <= |ops| then k else |ops|);
      if k >= |ops| {
        FirstLoopOnTheWay(e, start, Run(fs, ops), temporaries[1..], ids[1..], t, k - |ops|);
      }
    }
  }

  /** The second loop, cut short or not. */
  lemma {:induction false} SecondLoopOnTheWay(start: Files, fs: Files, metadata: seq<Path>, processed: set<Path>, ids: seq<nat>,
          t: Path, k: nat)
    requires IsTemporary(t) && t in start && Installed(start, fs, t) && !Owned(t.of)
    requires (forall m :: m in metadata ==> IsMetadata(m)) && k <= |MetadataTrace(fs, metadata, processed, ids)|
    ensures Installed(start, Run(fs, MetadataTrace(fs, metadata, processed, ids)[..k]), t)
    decreases |metadata|
  {
    var trace := MetadataTrace(fs, metadata, processed, ids);
    if metadata == [] {
      assert trace[..k] == [];
    } else {
      var m := metadata[0];
      assert m in metadata && m == Meta(m.of) && IsTemporary(m.of);
      var ops := if m in processed || m !in fs || !m.Meta? then [] else QuarantineOps(fs, m.of, m, NextId(ids));
      var tail := MetadataTrace(Run(fs, ops), metadata[1..], processed, RestIds(ids));
      assert trace == ops + tail && ops[..|ops|] == ops;
      RunPrefix(fs, ops, tail, k);
      OrphanOnTheWay(start, fs, ops, m, NextId(ids), t, if k <= |ops| then k else |ops|);
      OrphanOnTheWay(start, fs, ops, m, NextId(ids), t, |ops|);
      hide QuarantineOps, MetadataTrace;
      if k > |ops| {
        SecondLoopOnTheWay(start, Run(fs, ops), metadata[1..], processed, RestIds(ids), t, k - |ops|);
      }
    }
  }

  lemma OrphanOnTheWay(start: Files, fs: Files, ops: seq<Op>, m: Path, id: nat, t: Path, k: nat)
    requires IsTemporary(t) && t in start && Installed(start, fs, t) && !Owned(t.of) && IsMetadata(m)
    requires ops in {[], QuarantineOps(fs, m.of, m, id)} && k <= |ops|
    ensures Installed(start, Run(fs, ops[..k]), t)
  {
    TargetIsNotQuarantined(t);
    assert IsTemporary(m.of) && m == Meta(m.of);
    var after := Run(fs, ops[..k]);
    forall p | p in {t, t.of} || (p.Quarantined? && p.of == t)
      ensures SameFile(fs, after, p)
    {
      forall op | op in ops[..k]
        ensures !Touches(op, p)
      {
        assert op in ops;
      }
      Untouched(fs, ops[..k], p);
    }
    WayIsKept(start, fs, after, t);
  }

  lemma JoinedPart(fs: Files, a: seq<Op>, b: seq<Op>, k: nat)
    requires k <= |a| + |b|
    ensures k <= |a| ==> Run(fs, (a + b)[..k]) == Run(fs, a[..k])
    ensures k >= |a| ==> Run(fs, (a + b)[..k]) == Run(Run(fs, a), b[..k - |a|])
    ensures Run(fs, a[..|a|]) == Run(fs, a)
  {
    RunPrefix(fs, a, b, k);
    assert a[..|a|] == a && b[..0] == [];
  }

  /** One recovery, cut short or not. */
  lemma AttemptOnTheWay(e: Services, start: Files, fs: Files, a: Attempt, t: Path)
    requires Lawful(e) && WellNamed(fs) && ValidAttempt(e, fs, a)
    requires IsTemporary(t) && t in start && !Owned(t.of) && Vouched(e, start, t) && OnTheWay(start, fs, t)
    ensures OnTheWay(start, AfterAttempt(e, fs, a), t)
    ensures Completed(e, fs, a) ==> Installed(start, AfterAttempt(e, fs, a), t)
  {
    FoundAtStart(fs, a.temporaries, a.metadata);
    assert t in fs <==> t in a.temporaries;
    var k, n := a.performed, |a.temporaries|;
    assert FreshIds(fs, a.ids, n);
    hide Discovered, WellNamed, Lawful, Vouched, Waiting, Processed, TemporariesTrace, MetadataTrace, Listed, Installed, Run,
            IsTemporary, IsMetadata, FreshIds;
    var first := TemporariesTrace(e, fs, a.temporaries, a.ids);
    var second := MetadataTrace(Run(fs, first), a.metadata, Processed(a.temporaries), a.ids[n..]);
    JoinedPart(fs, first, second, k);
    if k < |first| {
      FirstLoopOnTheWay(e, start, fs, a.temporaries, a.ids, t, k);
    } else {
      FirstLoopOnTheWay(e, start, fs, a.temporaries, a.ids, t, |first|);
      SecondLoopOnTheWay(start, Run(fs, first), a.metadata, Processed(a.temporaries), a.ids[n..], t, k - |first|);
    }
  }

  lemma FoundAtStart(fs: Files, temporaries: seq<Path>, metadata: seq<Path>)
    requires WellNamed(fs) && Discovered(fs, temporaries, metadata)
    ensures Listed(fs, temporaries)
    ensures forall p :: p in temporaries ==> p.Tmp? && !Owned(p.of) && Independent(fs, temporaries, p)
    ensures forall m :: m in metadata ==> IsMetadata(m)
  {
    forall p | p in temporaries
      ensures p.Tmp? && Tmp(Meta(p)) !in temporaries
    {
      assert IsMetadata(Meta(p));
    }
  }

  lemma {:induction false} AttemptsOnTheWay(e: Services, start: Files, fs: Files, attempts: seq<Attempt>, t: Path)
    requires Lawful(e) && WellNamed(start) && Preserves(start, fs) && ValidAttempts(e, fs, attempts)
    requires IsTemporary(t) && t in start && Vouched(e, start, t) && OnTheWay(start, fs, t)
    ensures Preserves(start, AfterAttempts(e, fs, attempts)) && OnTheWay(start, AfterAttempts(e, fs, attempts), t)
    decreases |attempts|
  {
    assert WellNamed(fs) && !Owned(t.of);
    hide Preserves, ValidAttempt, AfterAttempt, WellNamed, Lawful, OnTheWay, Vouched;
    if attempts != [] {
      PreservedByAttempt(e, start, fs, attempts[0]);
      AttemptOnTheWay(e, start, fs, attempts[0], t);
      AttemptsOnTheWay(e, start, AfterAttempt(e, fs, attempts[0]), attempts[1..], t);
    }
  }

  /** However often it is cut short, once a recovery completes a vouched file whose target
      was free is installed, and no copy of it went to quarantine. */
  lemma InstalledDespiteCrashes(e: Services, start: Files, attempts: seq<Attempt>, last: Attempt, t: Path)
    requires Lawful(e) && WellNamed(start) && ValidAttempts(e, start, attempts)
    requires ValidAttempt(e, AfterAttempts(e, start, attempts), last) && Completed(e, AfterAttempts(e, start, attempts), last)
    requires t in start && IsTemporary(t) && Vouched(e, start, t) && t.of !in start
    ensures var fs := AfterAttempt(e, AfterAttempts(e, start, attempts), last);
            t !in fs && t.of in fs && fs[t.of] == start[t] && NoCopy(start, fs, t)
  {
    var fs := AfterAttempts(e, start, attempts);
    assert Preserves(start, start) && Waiting(start, start, t);
    hide Trace, Run;
    AttemptsOnTheWay(e, start, start, attempts, t);
    assert WellNamed(fs) && !Owned(t.of);
    hide *;
    AttemptOnTheWay(e, start, fs, last, t);
  }

  /** What an interrupted write has left when both its files are complete. */
  lemma LeftIsVouched(e: Services, fs: Files, target: Path, content: Bytes, kind: Kind)
    requires Lawful(e) && (kind == Json ==> e.validJson(content))
    requires Tmp(target) in fs && Meta(Tmp(target)) in fs
    requires fs[Tmp(target)] == content && fs[Meta(Tmp(target))] == e.render(MetadataFor(e, target, content, kind))
    ensures Vouched(e, fs, Tmp(target))
  {
  }
}
