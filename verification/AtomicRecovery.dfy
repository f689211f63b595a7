/** `recoverAtomicWrites` (`src/core/atomic-file.ts`) as the list of file operations it
    performs; a crash keeps some prefix of that list. */
module AtomicRecovery {
  import opened Wrappers
  import opened Bytes
  import opened AtomicFiles

  datatype Reason =
    | VerifiedTemporary
    | InvalidJson
    | MissingMetadata
    | InvalidMetadata
    | MetadataMismatch
    | TargetConflict
    | IdenticalDuplicate
    | OrphanMetadata

  datatype Action = Recovered | Quarantine | DiscardedDuplicate

  datatype Record = Record(action: Action, reason: Reason, target: Path, temporary: Path)

  // ---------- one temporary file ----------

  function Judge(e: Services, fs: Files, t: Path): Reason
    requires t.Tmp? && t in fs
  {
    var target, m := t.of, Meta(t);
    if m !in fs then MissingMetadata
    else
      match e.parse(fs[m])
      case None => InvalidMetadata
      case Some(metadata) =>
        if metadata.targetName != e.basename(target) then InvalidMetadata
        else if |fs[t]| != metadata.size || e.digest(fs[t]) != metadata.digest then MetadataMismatch
        else if metadata.kind == Json && !e.validJson(fs[t]) then InvalidJson
        else if target !in fs then VerifiedTemporary
        else if e.digest(fs[target]) == metadata.digest then IdenticalDuplicate
        else TargetConflict
  }

  function ActionFor(reason: Reason): Action {
    match reason
    case VerifiedTemporary => Recovered
    case IdenticalDuplicate => DiscardedDuplicate
    case _ => Quarantine
  }

  /** `quarantine`: moves whichever of the two files exist. */
  function QuarantineOps(fs: Files, t: Path, m: Path, id: nat): seq<Op> {
    (if t in fs then [Rename(t, Quarantined(id, t))] else [])
    + (if m in fs then [Rename(m, Quarantined(id, m))] else [])
  }

  function TemporaryOps(e: Services, fs: Files, t: Path, id: nat): seq<Op>
    requires t.Tmp? && t in fs
  {
    var m := Meta(t);
    match ActionFor(Judge(e, fs, t))
    case Recovered => [Rename(t, t.of), Remove(m)]
    case DiscardedDuplicate => [Remove(t), Remove(m)]
    case Quarantine => QuarantineOps(fs, t, m, id)
  }

  // ---------- the whole recovery ----------

  function NextId(ids: seq<nat>): nat {
    if ids == [] then 0 else ids[0]
  }

  function RestIds(ids: seq<nat>): seq<nat> {
    if ids == [] then [] else ids[1..]
  }

  /** The loop over the temporary files. */
  function TemporariesTrace(e: Services, fs: Files, temporaries: seq<Path>, ids: seq<nat>): seq<Op>
    decreases |temporaries|
  {
    if temporaries == [] then []
    else
      var t := temporaries[0];
      var ops := if t.Tmp? && t in fs then TemporaryOps(e, fs, t, NextId(ids)) else [];
      ops + TemporariesTrace(e, Run(fs, ops), temporaries[1..], RestIds(ids))
  }

  /** The loop over the metadata files; those next to a processed temporary file, and
      those gone by now, are passed over. */
  function MetadataTrace(fs: Files, metadata: seq<Path>, processed: set<Path>, ids: seq<nat>): seq<Op>
    decreases |metadata|
  {
    if metadata == [] then []
    else
      var m := metadata[0];
      var ops := if m in processed || m !in fs || !m.Meta? then [] else QuarantineOps(fs, m.of, m, NextId(ids));
      ops + MetadataTrace(Run(fs, ops), metadata[1..], processed, RestIds(ids))
  }

  function Processed(temporaries: seq<Path>): set<Path> {
    set t | t in temporaries :: Meta(t)
  }

  /** What the walk found, in any order. */
  ghost predicate Discovered(fs: Files, temporaries: seq<Path>, metadata: seq<Path>) {
    && (forall p :: p in temporaries <==> p in fs && IsTemporary(p))
    && (forall p :: p in metadata <==> p in fs && IsMetadata(p))
    && (forall i, j :: 0 <= i < j < |temporaries| ==> temporaries[i] != temporaries[j])
  }

  /** Random recovery ids: never used before, one for every file found. */
  ghost predicate FreshIds(fs: Files, ids: seq<nat>, n: nat) {
    && |ids| >= n
    && (forall i, p :: 0 <= i < |ids| && p in fs && p.Quarantined? ==> p.id != ids[i])
    && (forall i, j :: 0 <= i < j < |ids| ==> ids[i] != ids[j])
  }

  function Trace(e: Services, fs: Files, temporaries: seq<Path>, metadata: seq<Path>, ids: seq<nat>): seq<Op>
    requires |ids| >= |temporaries|
  {
    var first := TemporariesTrace(e, fs, temporaries, ids);
    first + MetadataTrace(Run(fs, first), metadata, Processed(temporaries), ids[|temporaries|..])
  }

  /** Names of targets do not themselves look like temporary or metadata files. */
  ghost predicate WellNamed(fs: Files) {
    forall p :: p in fs && IsTemporary(p) ==> !Owned(p.of)
  }

  // ---------- what each operation is allowed to do ----------

  /** An operation that destroys nothing: it installs a verified file at a free target,
      moves an owned file to a new place in quarantine, drops a metadata file, or drops
      a temporary file whose content already is at its target. */
  ghost predicate Justified(e: Services, fs: Files, op: Op) {
    match op
    case Rename(from, to) =>
      && from in fs && Owned(from) && to !in fs
      && ((to.Quarantined? && to.of == from) ||
          (IsTemporary(from) && to == from.of && !Owned(to) && Judge(e, fs, from) == VerifiedTemporary))
    case Remove(path) =>
      || IsMetadata(path)
      || (IsTemporary(path) && path in fs && !Owned(path.of) && path.of in fs && fs[path.of] == fs[path])
  }

  ghost predicate AllJustified(e: Services, fs: Files, ops: seq<Op>)
    decreases |ops|
  {
    ops != [] ==> Justified(e, fs, ops[0]) && AllJustified(e, Apply(fs, ops[0]), ops[1..])
  }

  lemma {:induction false} JustifiedJoin(e: Services, fs: Files, a: seq<Op>, b: seq<Op>)
    requires AllJustified(e, fs, a) && AllJustified(e, Run(fs, a), b)
    ensures AllJustified(e, fs, a + b)
    decreases |a|
  {
    hide Justified;
    if a == [] {
      assert a + b == b;
    } else {
      assert (a + b)[1..] == a[1..] + b;
      JustifiedJoin(e, Apply(fs, a[0]), a[1..], b);
    }
  }

  lemma {:induction false} JustifiedPrefix(e: Services, fs: Files, ops: seq<Op>, k: nat)
    requires k <= |ops| && AllJustified(e, fs, ops)
    ensures AllJustified(e, fs, ops[..k])
    decreases k
  {
    hide Justified;
    if k > 0 {
      JustifiedPrefix(e, Apply(fs, ops[0]), ops[1..], k - 1);
      assert ops[..k][1..] == ops[1..][..k - 1];
    }
  }

  // ---------- one group of operations ----------

  /** What a group of operations leaves: the owned files but the two it dealt with,
      every other file as it was, and new files only at the target or under `id`. */
  ghost predicate Settles(fs: Files, after: Files, t: Path, id: nat)
    requires t.Tmp?
  {
    && (forall p :: p in after && Owned(p) <==> p in fs && Owned(p) && p != t && p != Meta(t))
    && (forall p :: p in after && Owned(p) ==> after[p] == fs[p])
    && (forall p :: p in after && p !in fs ==> p == t.of || (p.Quarantined? && p.id == id))
  }

  lemma QuarantineSettles(e: Services, fs: Files, t: Path, id: nat)
    requires IsTemporary(t)
    requires forall p :: p in fs && p.Quarantined? ==> p.id != id
    ensures AllJustified(e, fs, QuarantineOps(fs, t, Meta(t), id))
    ensures Settles(fs, Run(fs, QuarantineOps(fs, t, Meta(t), id)), t, id)
  {
    var m, ops := Meta(t), QuarantineOps(fs, t, Meta(t), id);
    assert IsMetadata(m);
    var a, b := Rename(t, Quarantined(id, t)), Rename(m, Quarantined(id, m));
    hide Judge;
    if t in fs && m in fs {
      assert ops == [a, b];
      TwoOps(e, fs, a, b);
    } else if t in fs {
      assert ops == [a];
      OneOp(e, fs, a);
    } else if m in fs {
      assert ops == [b];
      OneOp(e, fs, b);
    }
  }

  lemma OneOp(e: Services, fs: Files, a: Op)
    ensures Run(fs, [a]) == Apply(fs, a)
    ensures AllJustified(e, fs, [a]) <==> Justified(e, fs, a)
  {
    hide Justified, Apply;
  }

  lemma TwoOps(e: Services, fs: Files, a: Op, b: Op)
    ensures Run(fs, [a, b]) == Apply(Apply(fs, a), b)
    ensures AllJustified(e, fs, [a, b]) <==> Justified(e, fs, a) && Justified(e, Apply(fs, a), b)
  {
    hide Justified, Apply;
    assert [a, b][1..] == [b];
    OneOp(e, Apply(fs, a), b);
  }

  lemma TemporarySettles(e: Services, fs: Files, t: Path, id: nat)
    requires Lawful(e) && IsTemporary(t) && t in fs && !Owned(t.of)
    requires forall p :: p in fs && p.Quarantined? ==> p.id != id
    ensures AllJustified(e, fs, TemporaryOps(e, fs, t, id))
    ensures Settles(fs, Run(fs, TemporaryOps(e, fs, t, id)), t, id)
  {
    var m := Meta(t);
    assert IsMetadata(m) && m != t.of;
    match ActionFor(Judge(e, fs, t))
    case Quarantine =>
      QuarantineSettles(e, fs, t, id);
    case Recovered =>
      TwoOps(e, fs, Rename(t, t.of), Remove(m));
    case DiscardedDuplicate =>
      assert fs[t.of] == fs[t];
      TwoOps(e, fs, Remove(t), Remove(m));
  }

  // ---------- the loops ----------

  lemma TargetIsNotQuarantined(t: Path)
    requires IsTemporary(t)
    ensures !t.of.Quarantined?
  {
    assert AreaOf(t) == AreaOf(t.of);
  }

  lemma ProcessedHas(temporaries: seq<Path>, m: Path)
    requires m.Meta?
    ensures m in Processed(temporaries) <==> m.of in temporaries
  {
    if m.of in temporaries { assert Meta(m.of) == m; }
  }

  lemma SettledIds(fs: Files, after: Files, t: Path, ids: seq<nat>, n: nat)
    requires t.Tmp? && !t.of.Quarantined? && ids != [] && n > 0
    requires FreshIds(fs, ids, n) && Settles(fs, after, t, ids[0])
    ensures FreshIds(after, ids[1..], n - 1)
  {
    forall i, p | 0 <= i < |ids[1..]| && p in after && p.Quarantined?
      ensures p.id != ids[1..][i]
    {
      assert ids[1..][i] == ids[i + 1];
      if p in fs { assert p.id != ids[i + 1]; }
    }
  }

  /** The first loop deals with every temporary file and the metadata next to it. */
  lemma {:induction false} TemporariesSettle(e: Services, fs: Files, temporaries: seq<Path>, ids: seq<nat>)
    requires Lawful(e) && WellNamed(fs) && FreshIds(fs, ids, |temporaries|)
    requires forall p :: p in temporaries <==> p in fs && IsTemporary(p)
    requires forall i, j :: 0 <= i < j < |temporaries| ==> temporaries[i] != temporaries[j]
    ensures AllJustified(e, fs, TemporariesTrace(e, fs, temporaries, ids))
    ensures var after := Run(fs, TemporariesTrace(e, fs, temporaries, ids));
            && (forall p :: p in after ==> !IsTemporary(p))
            && (forall p :: p in after && IsMetadata(p) ==> p in fs && p.of !in temporaries)
            && FreshIds(after, ids[|temporaries|..], |ids| - |temporaries|)
    decreases |temporaries|
  {
    if temporaries == [] {
      assert ids[0..] == ids;
    } else {
      var t, rest := temporaries[0], temporaries[1..];
      assert t in temporaries;
      var ops := TemporaryOps(e, fs, t, ids[0]);
      var middle := Run(fs, ops);
      TemporarySettles(e, fs, t, ids[0]);
      TargetIsNotQuarantined(t);
      SettledIds(fs, middle, t, ids, |temporaries|);
      hide TemporaryOps, Justified, Lawful;
      assert temporaries == [t] + rest;
      forall p
        ensures p in rest <==> p in middle && IsTemporary(p)
      {
        if p in rest {
          var i :| 0 <= i < |rest| && rest[i] == p;
          assert temporaries[i + 1] == p != temporaries[0];
        }
      }
      TemporariesSettle(e, middle, rest, ids[1..]);
      var tail := TemporariesTrace(e, middle, rest, ids[1..]);
      JustifiedJoin(e, fs, ops, tail);
      RunJoin(fs, ops, tail);
      assert ids[1..][|rest|..] == ids[|temporaries|..];
    }
  }

  /** The second loop deals with the metadata files that are left. */
  lemma {:induction false} MetadataSettles(e: Services, fs: Files, metadata: seq<Path>, processed: set<Path>,
          ids: seq<nat>)
    requires FreshIds(fs, ids, |metadata|)
    requires forall p :: p in fs ==> !IsTemporary(p)
    requires forall p :: p in fs && IsMetadata(p) ==> p in metadata && p !in processed
    requires forall p :: p in metadata ==> IsMetadata(p)
    ensures AllJustified(e, fs, MetadataTrace(fs, metadata, processed, ids))
    ensures forall p :: p in Run(fs, MetadataTrace(fs, metadata, processed, ids)) ==> !Owned(p)
    decreases |metadata|
  {
    if metadata != [] {
      var m, rest := metadata[0], metadata[1..];
      assert metadata == [m] + rest;
      assert m in metadata;
      var t := m.of;
      assert IsTemporary(t);
      var ops := if m in processed || m !in fs || !m.Meta? then [] else QuarantineOps(fs, t, m, ids[0]);
      var middle := Run(fs, ops);
      if ops != [] {
        QuarantineSettles(e, fs, t, ids[0]);
        TargetIsNotQuarantined(t);
        SettledIds(fs, middle, t, ids, |metadata|);
      } else {
        assert FreshIds(middle, ids[1..], |rest|);
      }
      hide QuarantineOps, Justified;
      MetadataSettles(e, middle, rest, processed, ids[1..]);
      var tail := MetadataTrace(middle, rest, processed, ids[1..]);
      JustifiedJoin(e, fs, ops, tail);
      RunJoin(fs, ops, tail);
    }
  }

  /** A completed recovery performs justified operations only and leaves no owned file. */
  lemma RecoverySettles(e: Services, fs: Files, temporaries: seq<Path>, metadata: seq<Path>, ids: seq<nat>)
    requires Lawful(e) && WellNamed(fs) && Discovered(fs, temporaries, metadata)
    requires FreshIds(fs, ids, |temporaries| + |metadata|)
    ensures AllJustified(e, fs, Trace(e, fs, temporaries, metadata, ids))
    ensures forall p :: p in Run(fs, Trace(e, fs, temporaries, metadata, ids)) ==> !Owned(p)
  {
    var first := TemporariesTrace(e, fs, temporaries, ids);
    var middle := Run(fs, first);
    TemporariesSettle(e, fs, temporaries, ids);
    hide TemporariesTrace, MetadataTrace, Justified, Lawful, Processed;
    var processed := Processed(temporaries);
    forall p | p in middle && IsMetadata(p)
      ensures p in metadata && p !in processed
    {
      ProcessedHas(temporaries, p);
    }
    MetadataSettles(e, middle, metadata, processed, ids[|temporaries|..]);
    var second := MetadataTrace(middle, metadata, processed, ids[|temporaries|..]);
    JustifiedJoin(e, fs, first, second);
    RunJoin(fs, first, second);
  }

  // ---------- recoveries cut short ----------

  /** One recovery: what the walk found, its random ids, and how many of its file
      operations took place before it ended or crashed. */
  datatype Attempt = Attempt(temporaries: seq<Path>, metadata: seq<Path>, ids: seq<nat>, performed: nat)

  ghost predicate ValidAttempt(e: Services, fs: Files, a: Attempt) {
    && Discovered(fs, a.temporaries, a.metadata)
    && FreshIds(fs, a.ids, |a.temporaries| + |a.metadata|)
    && a.performed <= |Trace(e, fs, a.temporaries, a.metadata, a.ids)|
  }

  predicate Completed(e: Services, fs: Files, a: Attempt)
    requires |a.ids| >= |a.temporaries|
  {
    a.performed == |Trace(e, fs, a.temporaries, a.metadata, a.ids)|
  }

  ghost function AfterAttempt(e: Services, fs: Files, a: Attempt): Files
    requires ValidAttempt(e, fs, a)
  {
    Run(fs, Trace(e, fs, a.temporaries, a.metadata, a.ids)[..a.performed])
  }

  /** The content is at the temporary file, at its target, or in quarantine. */
  ghost predicate Safe(fs: Files, t: Path, content: Bytes)
    requires t.Tmp?
  {
    || (t in fs && fs[t] == content)
    || (t.of in fs && fs[t.of] == content)
    || exists id :: Quarantined(id, t) in fs && fs[Quarantined(id, t)] == content
  }

  /** Everything `start` held is still there: owned content somewhere safe, any other
      file untouched, and a file that is new outside quarantine is a recovered target. */
  ghost predicate Preserves(start: Files, fs: Files) {
    && (forall t :: t in start && IsTemporary(t) ==> Safe(fs, t, start[t]))
    && (forall p :: p in start && !Owned(p) ==> p in fs && fs[p] == start[p])
    && (forall p :: p in fs && Owned(p) ==> p in start && fs[p] == start[p])
    && (forall p :: p in fs && p !in start && !p.Quarantined? ==> IsTemporary(Tmp(p)) && Tmp(p) in start && fs[p] == start[Tmp(p)])
  }

  lemma PreservedByOp(e: Services, start: Files, fs: Files, op: Op)
    requires WellNamed(start) && Preserves(start, fs) && Justified(e, fs, op)
    ensures Preserves(start, Apply(fs, op))
  {
    var after := Apply(fs, op);
    hide Judge;
    forall t | t in start && IsTemporary(t)
      ensures Safe(after, t, start[t])
    {
      SafeAfterOp(e, fs, op, t, start[t]);
    }
  }

  lemma SafeAfterOp(e: Services, fs: Files, op: Op, t: Path, content: Bytes)
    requires IsTemporary(t) && !Owned(t.of) && Safe(fs, t, content) && Justified(e, fs, op)
    ensures Safe(Apply(fs, op), t, content)
  {
    var after := Apply(fs, op);
    hide Judge;
    if t in fs && fs[t] == content {
      if op.Rename? && op.from == t && op.to.Quarantined? && op.to.of == t {
        assert op.to == Quarantined(op.to.id, t);
        assert Quarantined(op.to.id, t) in after;
      }
    } else if t.of in fs && fs[t.of] == content {
      UnownedStays(e, fs, op, t.of);
    } else {
      var id :| Quarantined(id, t) in fs && fs[Quarantined(id, t)] == content;
      UnownedStays(e, fs, op, Quarantined(id, t));
    }
  }

  lemma UnownedStays(e: Services, fs: Files, op: Op, p: Path)
    requires Justified(e, fs, op) && p in fs && !Owned(p)
    ensures p in Apply(fs, op) && Apply(fs, op)[p] == fs[p]
  {
    hide Judge;
  }

  lemma {:induction false} PreservedByOps(e: Services, start: Files, fs: Files, ops: seq<Op>)
    requires WellNamed(start) && Preserves(start, fs) && AllJustified(e, fs, ops)
    ensures Preserves(start, Run(fs, ops))
    decreases |ops|
  {
    hide Preserves, Justified;
    if ops != [] {
      PreservedByOp(e, start, fs, ops[0]);
      PreservedByOps(e, start, Apply(fs, ops[0]), ops[1..]);
    }
  }

  lemma PreservedByAttempt(e: Services, start: Files, fs: Files, a: Attempt)
    requires Lawful(e) && WellNamed(start) && Preserves(start, fs) && ValidAttempt(e, fs, a)
    ensures Preserves(start, AfterAttempt(e, fs, a))
    ensures Completed(e, fs, a) ==> forall p :: p in AfterAttempt(e, fs, a) ==> !Owned(p)
  {
    var ops := Trace(e, fs, a.temporaries, a.metadata, a.ids);
    assert WellNamed(fs);
    RecoverySettles(e, fs, a.temporaries, a.metadata, a.ids);
    JustifiedPrefix(e, fs, ops, a.performed);
    PreservedByOps(e, start, fs, ops[..a.performed]);
    hide Trace, Run, Preserves;
    if Completed(e, fs, a) {
      assert ops[..a.performed] == ops;
    }
  }

  /** Recoveries one after the other, each cut short or not. */
  ghost predicate ValidAttempts(e: Services, fs: Files, attempts: seq<Attempt>)
    decreases |attempts|
  {
    attempts != [] ==> ValidAttempt(e, fs, attempts[0]) && ValidAttempts(e, AfterAttempt(e, fs, attempts[0]), attempts[1..])
  }

  ghost function AfterAttempts(e: Services, fs: Files, attempts: seq<Attempt>): Files
    requires ValidAttempts(e, fs, attempts)
    decreases |attempts|
  {
    if attempts == [] then fs else AfterAttempts(e, AfterAttempt(e, fs, attempts[0]), attempts[1..])
  }

  lemma {:induction false} PreservedByAttempts(e: Services, start: Files, fs: Files, attempts: seq<Attempt>)
    requires Lawful(e) && WellNamed(start) && Preserves(start, fs) && ValidAttempts(e, fs, attempts)
    ensures Preserves(start, AfterAttempts(e, fs, attempts))
    decreases |attempts|
  {
    hide Preserves, ValidAttempt, AfterAttempt, WellNamed, Lawful;
    if attempts != [] {
      PreservedByAttempt(e, start, fs, attempts[0]);
      PreservedByAttempts(e, start, AfterAttempt(e, fs, attempts[0]), attempts[1..]);
    }
  }

  /** After any recoveries cut short, one completed recovery leaves no temporary and no
      metadata file, every temporary content found at the start is at its target or in
      quarantine, and no other file has changed. */
  lemma RecoveryConverges(e: Services, start: Files, attempts: seq<Attempt>, last: Attempt)
    requires Lawful(e) && WellNamed(start) && ValidAttempts(e, start, attempts)
    requires ValidAttempt(e, AfterAttempts(e, start, attempts), last)
    requires Completed(e, AfterAttempts(e, start, attempts), last)
    ensures var fs := AfterAttempt(e, AfterAttempts(e, start, attempts), last);
            && (forall p :: p in fs ==> !Owned(p))
            && (forall t :: t in start && IsTemporary(t) ==>
                  || (t.of in fs && fs[t.of] == start[t])
                  || exists id :: Quarantined(id, t) in fs && fs[Quarantined(id, t)] == start[t])
            && (forall p :: p in start && !Owned(p) ==> p in fs && fs[p] == start[p])
            && (forall p :: p in fs && p !in start && !p.Quarantined? ==> Tmp(p) in start && fs[p] == start[Tmp(p)])
  {
    assert Preserves(start, start);
    PreservedByAttempts(e, start, start, attempts);
    PreservedByAttempt(e, start, AfterAttempts(e, start, attempts), last);
    hide AfterAttempts, AfterAttempt, ValidAttempts, ValidAttempt, Lawful, Completed;
  }

  /** With no owned file left there is nothing to do. */
  lemma RecoveryIsIdempotent(e: Services, fs: Files, temporaries: seq<Path>, metadata: seq<Path>, ids: seq<nat>)
    requires (forall p :: p in fs ==> !Owned(p)) && Discovered(fs, temporaries, metadata)
    ensures temporaries == [] && Trace(e, fs, temporaries, metadata, ids) == []
  {
    NoMembers(temporaries);
    NoMembers(metadata);
  }

  /** Why the names matter: a target that itself ends in `.tmp` is only found by the
      next recovery, so a completed recovery can leave a temporary file behind. */
  lemma TargetsNamedTmpAreLeftBehind(e: Services, content: Bytes)
    requires e.parse(e.render(MetadataFor(e, Tmp(Plain(Dokion, "a")), content, Text)))
             == Some(MetadataFor(e, Tmp(Plain(Dokion, "a")), content, Text))
    ensures var target := Tmp(Plain(Dokion, "a"));
            var t := Tmp(target);
            var fs: Files := map[t := content, Meta(t) := e.render(MetadataFor(e, target, content, Text))];
            && Discovered(fs, [t], [Meta(t)])
            && FreshIds(fs, [0, 1], 2)
            && Run(fs, Trace(e, fs, [t], [Meta(t)], [0, 1])) == map[target := content]
            && IsTemporary(target)
  {
    var target := Tmp(Plain(Dokion, "a"));
    var t := Tmp(target);
    var m := Meta(t);
    var fs: Files := map[t := content, m := e.render(MetadataFor(e, target, content, Text))];
    assert Judge(e, fs, t) == VerifiedTemporary;
    var a, b := Rename(t, target), Remove(m);
    TwoOps(e, fs, a, b);
    assert TemporariesTrace(e, fs, [t], [0, 1]) == [a, b] + TemporariesTrace(e, Run(fs, [a, b]), [], [1]) == [a, b];
    var after := Run(fs, [a, b]);
    assert after == map[target := content];
    ProcessedHas([t], m);
    assert [m][1..] == [] && [0, 1][1..] == [1] && [1][1..] == [];
    assert MetadataTrace(after, [m], Processed([t]), [1]) == [] + MetadataTrace(after, [], Processed([t]), []) == [];
    assert [0, 1][|[t]|..] == [1];
    assert Trace(e, fs, [t], [m], [0, 1]) == [a, b];
  }
}
