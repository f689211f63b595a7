/** `recoverAtomicWrites` as the process that runs it: loops over the files found, one
    file operation at a time, with a crash possible before every operation. */
module RecoveryProcess {
  import opened Wrappers
  import opened Bytes
  import opened AtomicFiles
  import opened AtomicRecovery
  import opened RecoveryOutcome
  import RecoveryNames

  /** The operations performed are the first ones of `ops`: all of them while the process
      lives, as many as its budget allows when it dies. */
  ghost predicate Performed(before: Files, budget: nat, ops: seq<Op>, alive: bool, after: Files, left: nat) {
    && (alive <==> |ops| <= budget)
    && after == Run(before, if alive then ops else ops[..budget])
    && left == if alive then budget - |ops| else 0
  }

  lemma PerformedJoin(before: Files, budget: nat, a: seq<Op>, middle: Files, between: nat, b: seq<Op>, alive: bool,
          after: Files, left: nat)
    requires Performed(before, budget, a, true, middle, between) && Performed(middle, between, b, alive, after, left)
    ensures Performed(before, budget, a + b, alive, after, left)
  {
    RunJoin(before, a, if alive then b else b[..between]);
    if !alive {
      assert (a + b)[..budget] == a + b[..between];
    }
  }

  lemma PerformedCut(before: Files, budget: nat, a: seq<Op>, b: seq<Op>, after: Files, left: nat)
    requires Performed(before, budget, a, false, after, left)
    ensures Performed(before, budget, a + b, false, after, left)
  {
    assert (a + b)[..budget] == a[..budget];
  }

  function TemporariesRecords(e: Services, fs: Files, temporaries: seq<Path>, ids: seq<nat>): seq<Record>
    decreases |temporaries|
  {
    if temporaries == [] then []
    else
      var t := temporaries[0];
      if t.Tmp? && t in fs then
        var reason := Judge(e, fs, t);
        [Record(ActionFor(reason), reason, t.of, t)]
        + TemporariesRecords(e, Run(fs, TemporaryOps(e, fs, t, NextId(ids))), temporaries[1..], RestIds(ids))
      else TemporariesRecords(e, fs, temporaries[1..], RestIds(ids))
  }

  function MetadataRecords(fs: Files, metadata: seq<Path>, processed: set<Path>, ids: seq<nat>): seq<Record>
    decreases |metadata|
  {
    if metadata == [] then []
    else
      var m := metadata[0];
      if m in processed || m !in fs || !m.Meta? then MetadataRecords(fs, metadata[1..], processed, RestIds(ids))
      else
        [Record(Quarantine, OrphanMetadata, if m.of.Tmp? then m.of.of else m.of, m.of)]
        + MetadataRecords(Run(fs, QuarantineOps(fs, m.of, m, NextId(ids))), metadata[1..], processed, RestIds(ids))
  }

  // ---------- what the records say ----------

  /** Every temporary file found gets its record, by what was found at the start. */
  lemma {:induction false} TemporariesRecordsFit(e: Services, fs: Files, temporaries: seq<Path>, ids: seq<nat>)
    requires Lawful(e) && Listed(fs, temporaries) && FreshIds(fs, ids, |temporaries|)
    requires forall t :: t in temporaries ==> t.Tmp? && Independent(fs, temporaries, t)
    ensures var records := TemporariesRecords(e, fs, temporaries, ids);
            |records| == |temporaries| && forall i :: 0 <= i < |temporaries| ==>
              temporaries[i].Tmp? && temporaries[i] in fs && RecordFits(e, fs, temporaries[i], records[i])
    decreases |temporaries|
  {
    if temporaries != [] {
      var t, rest := temporaries[0], temporaries[1..];
      assert t in temporaries && temporaries == [t] + rest;
      var ops := TemporaryOps(e, fs, t, ids[0]);
      var middle := Run(fs, ops);
      VerdictFits(e, fs, t);
      RoundStaysListed(e, fs, temporaries, ids, |temporaries|);
      assert ops[..|ops|] == ops;
      forall p | p in rest
        ensures p.Tmp? && p in fs && SameNear(fs, middle, p) && Independent(middle, rest, p)
      {
        assert p in temporaries && p != t;
        OtherRound(e, fs, t, ids[0], p, |ops|);
        assert Near(p, Meta(p)) && SameFile(fs, middle, Meta(p));
      }
      hide TemporaryOps, Judge, FreshIds, Lawful, RecordFits, SameNear, Independent, Listed;
      TemporariesRecordsFit(e, middle, rest, ids[1..]);
      var later := TemporariesRecords(e, middle, rest, ids[1..]);
      forall i | 0 <= i < |rest|
        ensures rest[i].Tmp? && rest[i] in fs && RecordFits(e, fs, rest[i], later[i])
      {
        assert rest[i] in rest;
        RecordFitsBefore(e, fs, middle, rest[i], later[i]);
      }
    }
  }

  /** Exactly one record for each metadata file found alone. */
  ghost predicate OrphanRecords(alone: set<Path>, records: seq<Record>) {
    && (forall r :: r in records ==>
          r.action == Quarantine && r.reason == OrphanMetadata && r.temporary.Tmp? && r.target == r.temporary.of && Meta(r.temporary) in alone)
    && (forall m :: m in alone ==> exists r :: r in records && Meta(r.temporary) == m)
    && (forall i, j :: 0 <= i < j < |records| ==> records[i].temporary != records[j].temporary)
  }

  function Alone(fs: Files, metadata: seq<Path>, processed: set<Path>): set<Path> {
    set m | m in metadata && m in fs && m !in processed
  }

  lemma {:induction false} MetadataRecordsFit(fs: Files, metadata: seq<Path>, processed: set<Path>, ids: seq<nat>)
    requires forall m :: m in metadata ==> IsMetadata(m)
    ensures OrphanRecords(Alone(fs, metadata, processed), MetadataRecords(fs, metadata, processed, ids))
    decreases |metadata|
  {
    var records := MetadataRecords(fs, metadata, processed, ids);
    if metadata != [] {
      var m, rest := metadata[0], metadata[1..];
      assert m in metadata && metadata == [m] + rest && m == Meta(m.of);
      var alone := Alone(fs, metadata, processed);
      if m in processed || m !in fs {
        MetadataRecordsFit(fs, rest, processed, RestIds(ids));
        assert alone == Alone(fs, rest, processed);
      } else {
        var middle := Run(fs, QuarantineOps(fs, m.of, m, NextId(ids)));
        var later := MetadataRecords(middle, rest, processed, RestIds(ids));
        MetadataRecordsFit(middle, rest, processed, RestIds(ids));
        forall p | IsMetadata(p)
          ensures p in middle <==> p in fs && p != m
        {
          OneIsTaken(fs, m, NextId(ids), p);
        }
        var r := Record(Quarantine, OrphanMetadata, m.of.of, m.of);
        assert records == [r] + later;
        hide QuarantineOps, MetadataRecords, OrphanRecords;
        assert Alone(middle, rest, processed) == alone - {m};
        OneMoreRecord(alone, Alone(middle, rest, processed), m, r, later);
      }
    }
  }

  lemma OneIsTaken(fs: Files, m: Path, id: nat, p: Path)
    requires IsMetadata(m) && IsMetadata(p)
    ensures p in Run(fs, QuarantineOps(fs, m.of, m, id)) <==> p in fs && p != m
  {
    assert m == Meta(m.of);
    RecoveryNames.QuarantineTakesPair(fs, m.of, id);
  }

  lemma OneMoreRecord(alone: set<Path>, others: set<Path>, m: Path, r: Record, records: seq<Record>)
    requires m.Meta? && m.of.Tmp? && r == Record(Quarantine, OrphanMetadata, m.of.of, m.of)
    requires m in alone && others == alone - {m} && OrphanRecords(others, records)
    ensures OrphanRecords(alone, [r] + records)
  {
    var all := [r] + records;
    assert r in all && forall x :: x in records ==> x in all;
    assert Meta(r.temporary) == m;
    forall p | p in alone
      ensures exists x :: x in all && Meta(x.temporary) == p
    {
      if p == m {
        assert r in all;
      } else {
        assert p in others;
        var x :| x in records && Meta(x.temporary) == p;
        assert x in all;
      }
    }
    forall i, j | 0 <= i < j < |all|
      ensures all[i].temporary != all[j].temporary
    {
      assert all[j] == records[j - 1] && records[j - 1] in records;
      if i > 0 { assert all[i] == records[i - 1]; }
    }
  }

  ghost predicate FirstFit(e: Services, fs: Files, temporaries: seq<Path>, records: seq<Record>) {
    |records| == |temporaries| && forall i :: 0 <= i < |temporaries| ==>
      temporaries[i].Tmp? && temporaries[i] in fs && RecordFits(e, fs, temporaries[i], records[i])
  }

  /** What the records returned say about the files found: one for each temporary file, in
      order, then one for each metadata file found alone. */
  ghost predicate RecordsFit(e: Services, fs: Files, temporaries: seq<Path>, records: seq<Record>) {
    && |records| >= |temporaries| && FirstFit(e, fs, temporaries, records[..|temporaries|])
    && OrphanRecords((set m | m in fs.Keys && IsMetadata(m) && m.of !in fs), records[|temporaries|..])
  }

  /** The files and the number of operations until the process is killed. */
  class Disk {
    var files: Files
    var budget: nat

    constructor (files: Files, budget: nat)
      ensures this.files == files && this.budget == budget
    {
      this.files, this.budget := files, budget;
    }

    method Perform(op: Op) returns (alive: bool)
      modifies this
      ensures Performed(old(files), old(budget), [op], alive, files, budget)
    {
      if budget == 0 { return false; }
      files := Apply(files, op);
      budget := budget - 1;
      return true;
    }

    /** `quarantine`. */
    method MoveToQuarantine(t: Path, id: nat) returns (alive: bool)
      modifies this
      ensures Performed(old(files), old(budget), QuarantineOps(old(files), t, Meta(t), id), alive, files, budget)
    {
      var m := Meta(t);
      ghost var before, full := files, budget;
      var a := Rename(t, Quarantined(id, t));
      var b := Rename(m, Quarantined(id, m));
      assert [a] + [] == [a] && [] + [b] == [b];
      if t in files && m in files {
        assert [a] + [b] == [a, b];
        alive := PerformBoth(a, b);
      } else if t in files {
        alive := Perform(a);
      } else if m in files {
        alive := Perform(b);
      } else {
        alive := true;
      }
    }

    /** One round of the first loop. */
    method RecoverTemporary(e: Services, t: Path, id: nat) returns (alive: bool, record: Record)
      requires t.Tmp? && t in files
      modifies this
      ensures Performed(old(files), old(budget), TemporaryOps(e, old(files), t, id), alive, files, budget)
      ensures record == var reason := Judge(e, old(files), t); Record(ActionFor(reason), reason, t.of, t)
      ensures Lawful(e) ==> RecordFits(e, old(files), t, record)
      ensures alive && Lawful(e) && IsTemporary(t) && FreshIds(old(files), [id], 1) ==> Outcome(e, old(files), files, t)
    {
      var m := Meta(t);
      var reason := Judge(e, files, t);
      record := Record(ActionFor(reason), reason, t.of, t);
      if Lawful(e) {
        VerdictFits(e, files, t);
        if IsTemporary(t) && FreshIds(files, [id], 1) { RoundOutcome(e, files, t, id); }
      }
      hide Judge, RecordFits, Outcome, Lawful, FreshIds;
      if ActionFor(reason) == Quarantine {
        alive := MoveToQuarantine(t, id);
      } else {
        var first := if ActionFor(reason) == Recovered then Rename(t, t.of) else Remove(t);
        alive := PerformBoth(first, Remove(m));
      }
    }

    method PerformBoth(a: Op, b: Op) returns (alive: bool)
      modifies this
      ensures Performed(old(files), old(budget), [a, b], alive, files, budget)
    {
      ghost var before, full := files, budget;
      assert [a] + [b] == [a, b];
      alive := Perform(a);
      if !alive {
        PerformedCut(before, full, [a], [b], files, budget);
        return;
      }
      ghost var middle, between := files, budget;
      alive := Perform(b);
      PerformedJoin(before, full, [a], middle, between, [b], alive, files, budget);
    }

    /** One round of the first loop, within the operations performed so far. */
    method TemporaryRound(e: Services, temporaries: seq<Path>, ids: seq<nat>, ghost before: Files, ghost full: nat,
            ghost done: seq<Op>)
      returns (alive: bool, round: seq<Record>, ghost more: seq<Op>)
      requires temporaries != [] && ids != [] && Performed(before, full, done, true, files, budget)
      modifies this
      ensures alive ==> Performed(before, full, more, true, files, budget)
      ensures alive ==> done + TemporariesTrace(e, old(files), temporaries, ids) == more + TemporariesTrace(e, files, temporaries[1..], ids[1..])
      ensures alive ==> TemporariesRecords(e, old(files), temporaries, ids) == round + TemporariesRecords(e, files, temporaries[1..], ids[1..])
      ensures !alive ==>
                Performed(before, full, done + TemporariesTrace(e, old(files), temporaries, ids), false, files, budget)
    {
      ghost var now, between := files, budget;
      var t := temporaries[0];
      more, round, alive := done, [], true;
      TemporariesCons(e, files, temporaries, ids);
      hide TemporaryOps, Judge, TemporariesTrace, TemporariesRecords, Performed;
      if t.Tmp? && t in files {
        ghost var ops := TemporaryOps(e, files, t, ids[0]);
        ghost var rest := TemporariesTrace(e, Run(now, ops), temporaries[1..], ids[1..]);
        var record;
        alive, record := RecoverTemporary(e, t, ids[0]);
        round := [record];
        more := done + ops;
        RoundPerformed(before, full, done, now, between, ops, rest, alive, files, budget);
      }
    }

    /** The loop over the temporary files. */
    method RecoverTemporaries(e: Services, temporaries: seq<Path>, ids: seq<nat>)
      returns (alive: bool, records: seq<Record>)
      requires |ids| >= |temporaries|
      modifies this
      ensures Performed(old(files), old(budget), TemporariesTrace(e, old(files), temporaries, ids), alive, files, budget)
      ensures alive ==> records == TemporariesRecords(e, old(files), temporaries, ids)
    {
      ghost var before, full := files, budget;
      ghost var done: seq<Op> := [];
      records := [];
      assert temporaries[0..] == temporaries && ids[0..] == ids;
      NothingPerformed(files, budget);
      assert done + TemporariesTrace(e, files, temporaries, ids) == TemporariesTrace(e, files, temporaries, ids);
      hide TemporaryOps, Judge, Performed, TemporariesTrace, TemporariesRecords;
      for i := 0 to |temporaries|
        invariant Performed(before, full, done, true, files, budget)
        invariant TemporariesTrace(e, before, temporaries, ids) == done + TemporariesTrace(e, files, temporaries[i..], ids[i..])
        invariant TemporariesRecords(e, before, temporaries, ids) == records + TemporariesRecords(e, files, temporaries[i..], ids[i..])
      {
        assert temporaries[i..][1..] == temporaries[i + 1..] && ids[i..][1..] == ids[i + 1..];
        var round;
        alive, round, done := TemporaryRound(e, temporaries[i..], ids[i..], before, full, done);
        if !alive { return; }
        records := records + round;
      }
      NoMoreTemporaries(e, files, ids[|temporaries|..]);
      assert done + [] == done && records + [] == records;
      alive := true;
    }

    /** One round of the second loop. */
    method MetadataRound(metadata: seq<Path>, processed: set<Path>, ids: seq<nat>, ghost before: Files,
            ghost full: nat, ghost done: seq<Op>)
      returns (alive: bool, round: seq<Record>, ghost more: seq<Op>)
      requires metadata != [] && ids != [] && Performed(before, full, done, true, files, budget)
      modifies this
      ensures alive ==> Performed(before, full, more, true, files, budget)
      ensures alive ==> done + MetadataTrace(old(files), metadata, processed, ids) == more + MetadataTrace(files, metadata[1..], processed, ids[1..])
      ensures !alive ==> Performed(before, full, done + MetadataTrace(old(files), metadata, processed, ids), false, files, budget)
      ensures alive ==> MetadataRecords(old(files), metadata, processed, ids) == round + MetadataRecords(files, metadata[1..], processed, ids[1..])
    {
      ghost var now, between := files, budget;
      var m := metadata[0];
      more, round, alive := done, [], true;
      MetadataCons(files, metadata, processed, ids);
      hide QuarantineOps, MetadataTrace, MetadataRecords, Performed;
      if m !in processed && m in files && m.Meta? {
        assert m == Meta(m.of);
        ghost var ops := QuarantineOps(files, m.of, m, ids[0]);
        ghost var rest := MetadataTrace(Run(now, ops), metadata[1..], processed, ids[1..]);
        alive := MoveToQuarantine(m.of, ids[0]);
        round := [Record(Quarantine, OrphanMetadata, if m.of.Tmp? then m.of.of else m.of, m.of)];
        more := done + ops;
        RoundPerformed(before, full, done, now, between, ops, rest, alive, files, budget);
      }
    }

    /** The loop over the metadata files. */
    method RecoverMetadata(metadata: seq<Path>, processed: set<Path>, ids: seq<nat>)
      returns (alive: bool, records: seq<Record>)
      requires |ids| >= |metadata|
      modifies this
      ensures Performed(old(files), old(budget), MetadataTrace(old(files), metadata, processed, ids), alive, files, budget)
      ensures alive ==> records == MetadataRecords(old(files), metadata, processed, ids)
    {
      ghost var before, full := files, budget;
      ghost var done: seq<Op> := [];
      records := [];
      assert metadata[0..] == metadata && ids[0..] == ids;
      NothingPerformed(files, budget);
      assert done + MetadataTrace(files, metadata, processed, ids) == MetadataTrace(files, metadata, processed, ids);
      hide Performed, MetadataTrace, MetadataRecords;
      for i := 0 to |metadata|
        invariant Performed(before, full, done, true, files, budget)
        invariant MetadataTrace(before, metadata, processed, ids) == done + MetadataTrace(files, metadata[i..], processed, ids[i..])
        invariant MetadataRecords(before, metadata, processed, ids) == records + MetadataRecords(files, metadata[i..], processed, ids[i..])
      {
        assert metadata[i..][1..] == metadata[i + 1..] && ids[i..][1..] == ids[i + 1..];
        var round;
        alive, round, done := MetadataRound(metadata[i..], processed, ids[i..], before, full, done);
        if !alive { return; }
        records := records + round;
      }
      NoMoreMetadata(files, processed, ids[|metadata|..]);
      assert done + [] == done && records + [] == records;
      alive := true;
    }

    /** `recoverAtomicWrites`: performs the recovery's trace, or the part of it that its
        budget allows. When it comes to its end every file found has its outcome and its
        record. */
    method RecoverAtomicWrites(e: Services, temporaries: seq<Path>, metadata: seq<Path>, ids: seq<nat>)
      returns (alive: bool, records: seq<Record>)
      requires Discovered(files, temporaries, metadata) && FreshIds(files, ids, |temporaries| + |metadata|)
      modifies this
      ensures Performed(old(files), old(budget), Trace(e, old(files), temporaries, metadata, ids), alive, files, budget)
      ensures alive && Lawful(e) ==> Settled(e, old(files), files, temporaries)
      ensures alive && Lawful(e) && WellNamed(old(files)) ==> RecordsFit(e, old(files), temporaries, records)
    {
      ghost var before, full := files, budget;
      ghost var first := TemporariesTrace(e, files, temporaries, ids);
      alive, records := RecoverTemporaries(e, temporaries, ids);
      var processed := Processed(temporaries);
      ghost var middle, between := files, budget;
      hide TemporariesTrace, MetadataTrace, FreshIds, Discovered, Processed, TemporariesRecords, MetadataRecords, RecordsFit, Settled,
              Lawful, WellNamed;
      ghost var second := MetadataTrace(Run(before, first), metadata, processed, ids[|temporaries|..]);
      if !alive {
        PerformedCut(before, full, first, second, files, budget);
        return;
      }
      var orphans;
      alive, orphans := RecoverMetadata(metadata, processed, ids[|temporaries|..]);
      PerformedJoin(before, full, first, middle, between, second, alive, files, budget);
      records := records + orphans;
      if alive && Lawful(e) {
        CompletedSettles(e, before, temporaries, metadata, ids);
        if WellNamed(before) { CompletedRecords(e, before, temporaries, metadata, ids); }
      }
    }
  }

  /** Every file found has its outcome. */
  ghost predicate Settled(e: Services, fs: Files, after: Files, temporaries: seq<Path>) {
    && (forall t :: t in fs && IsTemporary(t) && Independent(fs, temporaries, t) ==> Outcome(e, fs, after, t))
    && (forall m :: m in fs && IsMetadata(m) && m.of !in fs && Tmp(m) !in fs ==> Copied(fs, after, m))
  }

  lemma CompletedSettles(e: Services, fs: Files, temporaries: seq<Path>, metadata: seq<Path>, ids: seq<nat>)
    requires Lawful(e) && Discovered(fs, temporaries, metadata) && FreshIds(fs, ids, |temporaries| + |metadata|)
    ensures Settled(e, fs, Run(fs, Trace(e, fs, temporaries, metadata, ids)), temporaries)
  {
    assert |ids| >= |temporaries|;
    hide Lawful, Discovered, FreshIds, Outcome, Copied, Trace, Independent;
    forall t | t in fs && IsTemporary(t) && Independent(fs, temporaries, t)
      ensures Outcome(e, fs, Run(fs, Trace(e, fs, temporaries, metadata, ids)), t)
    {
      FoundFileOutcome(e, fs, temporaries, metadata, ids, t);
    }
    forall m | m in fs && IsMetadata(m) && m.of !in fs && Tmp(m) !in fs
      ensures Copied(fs, Run(fs, Trace(e, fs, temporaries, metadata, ids)), m)
    {
      FoundOrphanOutcome(e, fs, temporaries, metadata, ids, m);
    }
  }

  lemma CompletedRecords(e: Services, fs: Files, temporaries: seq<Path>, metadata: seq<Path>, ids: seq<nat>)
    requires Lawful(e) && WellNamed(fs) && Discovered(fs, temporaries, metadata)
    requires FreshIds(fs, ids, |temporaries| + |metadata|)
    ensures var middle := Run(fs, TemporariesTrace(e, fs, temporaries, ids));
            RecordsFit(e, fs, temporaries, TemporariesRecords(e, fs, temporaries, ids)
                                           + MetadataRecords(middle, metadata, Processed(temporaries), ids[|temporaries|..]))
  {
    hide *;
    var middle, processed := Run(fs, TemporariesTrace(e, fs, temporaries, ids)), Processed(temporaries);
    var rest := RestOfIds(fs, ids, |temporaries|, |metadata|);
    AloneAtStart(e, fs, temporaries, metadata, ids);
    FoundRecords(e, fs, temporaries, metadata, ids);
    OrphansRecords(fs, middle, temporaries, metadata, processed, rest);
    JoinedRecords(e, fs, temporaries, TemporariesRecords(e, fs, temporaries, ids), MetadataRecords(middle, metadata, processed, rest));
  }

  lemma RestOfIds(fs: Files, ids: seq<nat>, n: nat, m: nat) returns (rest: seq<nat>)
    requires FreshIds(fs, ids, n + m)
    ensures |ids| >= n && rest == ids[n..]
  {
    rest := ids[n..];
  }

  lemma FoundRecords(e: Services, fs: Files, temporaries: seq<Path>, metadata: seq<Path>, ids: seq<nat>)
    requires Lawful(e) && WellNamed(fs) && Discovered(fs, temporaries, metadata)
    requires FreshIds(fs, ids, |temporaries| + |metadata|)
    ensures FirstFit(e, fs, temporaries, TemporariesRecords(e, fs, temporaries, ids))
  {
    FoundAtStart(fs, temporaries, metadata);
    hide TemporariesRecords, RecordFits, Lawful, Discovered, WellNamed;
    TemporariesRecordsFit(e, fs, temporaries, ids);
  }

  lemma OrphansRecords(fs: Files, middle: Files, temporaries: seq<Path>, metadata: seq<Path>, processed: set<Path>, ids: seq<nat>)
    requires Discovered(fs, temporaries, metadata)
    requires Alone(middle, metadata, processed) == set m | m in fs.Keys && IsMetadata(m) && m.of !in fs
    ensures OrphanRecords((set m | m in fs.Keys && IsMetadata(m) && m.of !in fs), MetadataRecords(middle, metadata, processed, ids))
  {
    hide MetadataRecords, Alone, OrphanRecords;
    MetadataRecordsFit(middle, metadata, processed, ids);
  }

  lemma JoinedRecords(e: Services, fs: Files, temporaries: seq<Path>, a: seq<Record>, b: seq<Record>)
    requires FirstFit(e, fs, temporaries, a) && OrphanRecords((set m | m in fs.Keys && IsMetadata(m) && m.of !in fs), b)
    ensures RecordsFit(e, fs, temporaries, a + b)
  {
    hide RecordFits, OrphanRecords;
    assert (a + b)[..|temporaries|] == a && (a + b)[|temporaries|..] == b;
  }

  /** The metadata files the second loop finds alone are those found alone at the start. */
  lemma AloneAtStart(e: Services, fs: Files, temporaries: seq<Path>, metadata: seq<Path>, ids: seq<nat>)
    requires WellNamed(fs) && Discovered(fs, temporaries, metadata) && FreshIds(fs, ids, |temporaries| + |metadata|)
    ensures Alone(Run(fs, TemporariesTrace(e, fs, temporaries, ids)), metadata, Processed(temporaries))
            == set m | m in fs.Keys && IsMetadata(m) && m.of !in fs
  {
    var middle := Run(fs, TemporariesTrace(e, fs, temporaries, ids));
    FoundAtStart(fs, temporaries, metadata);
    forall m | IsMetadata(m)
      ensures m in metadata && m in middle && m !in Processed(temporaries) <==> m in fs && m.of !in fs
    {
      ProcessedHas(temporaries, m);
      assert m.of in temporaries <==> m.of in fs;
      if m.of !in temporaries {
        assert Tmp(m) !in temporaries;
        FirstLoopKeepsOrphan(e, fs, temporaries, ids, |temporaries| + |metadata|, m);
      }
    }
  }

  lemma NothingPerformed(fs: Files, budget: nat)
    ensures Performed(fs, budget, [], true, fs, budget)
  {
  }

  /** Adds one round's operations to those performed so far. */
  lemma RoundPerformed(before: Files, full: nat, done: seq<Op>, now: Files, between: nat, ops: seq<Op>, rest: seq<Op>,
                       alive: bool, after: Files, left: nat)
    requires Performed(before, full, done, true, now, between) && Performed(now, between, ops, alive, after, left)
    ensures done + ops + rest == done + (ops + rest)
    ensures alive ==> Performed(before, full, done + ops, true, after, left) && after == Run(now, ops)
    ensures !alive ==> Performed(before, full, done + (ops + rest), false, after, left)
  {
    PerformedJoin(before, full, done, now, between, ops, alive, after, left);
    if !alive {
      PerformedCut(before, full, done + ops, rest, after, left);
      assert done + ops + rest == done + (ops + rest);
    }
  }

  lemma TemporariesCons(e: Services, fs: Files, temporaries: seq<Path>, ids: seq<nat>)
    requires temporaries != [] && ids != []
    ensures var t, rest := temporaries[0], temporaries[1..];
            if t.Tmp? && t in fs then
              var ops, reason := TemporaryOps(e, fs, t, ids[0]), Judge(e, fs, t);
              && TemporariesTrace(e, fs, temporaries, ids) == ops + TemporariesTrace(e, Run(fs, ops), rest, ids[1..])
              && TemporariesRecords(e, fs, temporaries, ids)
                 == [Record(ActionFor(reason), reason, t.of, t)] + TemporariesRecords(e, Run(fs, ops), rest, ids[1..])
            else
              && TemporariesTrace(e, fs, temporaries, ids) == TemporariesTrace(e, fs, rest, ids[1..])
              && TemporariesRecords(e, fs, temporaries, ids) == TemporariesRecords(e, fs, rest, ids[1..])
  {
    hide TemporaryOps, Judge;
    assert Run(fs, []) == fs;
  }

  lemma MetadataCons(fs: Files, metadata: seq<Path>, processed: set<Path>, ids: seq<nat>)
    requires metadata != [] && ids != []
    ensures var m, rest := metadata[0], metadata[1..];
            MetadataTrace(fs, metadata, processed, ids)
            == if m in processed || m !in fs || !m.Meta? then MetadataTrace(fs, rest, processed, ids[1..])
               else QuarantineOps(fs, m.of, m, ids[0]) + MetadataTrace(Run(fs, QuarantineOps(fs, m.of, m, ids[0])), rest, processed, ids[1..])
    ensures var m, rest := metadata[0], metadata[1..];
            MetadataRecords(fs, metadata, processed, ids)
            == if m in processed || m !in fs || !m.Meta? then MetadataRecords(fs, rest, processed, ids[1..])
               else [Record(Quarantine, OrphanMetadata, if m.of.Tmp? then m.of.of else m.of, m.of)]
                    + MetadataRecords(Run(fs, QuarantineOps(fs, m.of, m, ids[0])), rest, processed, ids[1..])
  {
    hide QuarantineOps;
    assert Run(fs, []) == fs;
  }

  lemma NoMoreTemporaries(e: Services, fs: Files, ids: seq<nat>)
    ensures TemporariesTrace(e, fs, [], ids) == [] && TemporariesRecords(e, fs, [], ids) == []
  {
  }

  lemma NoMoreMetadata(fs: Files, processed: set<Path>, ids: seq<nat>)
    ensures MetadataTrace(fs, [], processed, ids) == [] && MetadataRecords(fs, [], processed, ids) == []
  {
  }

  /** A run of the process is one attempt: complete exactly when the process lived. */
  lemma ProcessIsAttempt(e: Services, fs: Files, budget: nat, a: Attempt, alive: bool, after: Files, left: nat)
    requires Discovered(fs, a.temporaries, a.metadata) && FreshIds(fs, a.ids, |a.temporaries| + |a.metadata|)
    requires Performed(fs, budget, Trace(e, fs, a.temporaries, a.metadata, a.ids), alive, after, left)
    requires a.performed == if alive then |Trace(e, fs, a.temporaries, a.metadata, a.ids)| else budget
    ensures ValidAttempt(e, fs, a) && AfterAttempt(e, fs, a) == after && (alive <==> Completed(e, fs, a))
  {
    var ops := Trace(e, fs, a.temporaries, a.metadata, a.ids);
    hide Trace, Discovered, FreshIds;
    assert ops[..|ops|] == ops;
  }
}
