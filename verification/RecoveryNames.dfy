/** Which file names can be left behind by a completed `recoverAtomicWrites`
    (`src/core/atomic-file.ts`): the recovery of one file can bring back the name of
    another that the walk has listed or will never list. */
module RecoveryNames {
  import opened Wrappers
  import opened Bytes
  import opened AtomicFiles
  import opened AtomicRecovery

  /** The temporary file of the pair that an owned file belongs to. */
  function Stem(x: Path): Path
    requires Owned(x)
  {
    if x.Tmp? then x else x.of
  }

  /** The temporary file can be verified, its target is itself an owned name, and of the
      target's pair there is not just a metadata file, with which the second loop would
      take the temporary file along. */
  predicate CanLeave(names: set<Path>, t: Path) {
    && t in names && IsTemporary(t) && Meta(t) in names && Owned(t.of)
    && (Stem(t.of) in names || Meta(Stem(t.of)) !in names)
  }

  ghost predicate NothingOwned(fs: Files) {
    forall p :: p in fs ==> !Owned(p)
  }

  ghost predicate Completes(e: Services, fs: Files, temporaries: seq<Path>, metadata: seq<Path>, ids: seq<nat>) {
    Discovered(fs, temporaries, metadata) && FreshIds(fs, ids, |temporaries| + |metadata|)
  }

  /** Whatever the files of these names hold, and in whatever order they are found, a
      completed recovery leaves no owned file. */
  ghost predicate AlwaysSettles(e: Services, names: set<Path>) {
    forall fs: Files, temporaries: seq<Path>, metadata: seq<Path>, ids: seq<nat> :: fs.Keys == names && Completes(e, fs, temporaries, metadata, ids) ==>
      NothingOwned(Run(fs, Trace(e, fs, temporaries, metadata, ids)))
  }

  // ---------- what one group of operations does to owned files ----------

  /** Both files of the pair are gone, and every other owned file is as it was. */
  ghost predicate TakesPair(fs: Files, after: Files, t: Path) {
    forall p :: Owned(p) ==>
      (p in after <==> p in fs && p != t && p != Meta(t)) && (p in after ==> after[p] == fs[p])
  }

  lemma QuarantineTakesPair(fs: Files, t: Path, id: nat)
    ensures TakesPair(fs, Run(fs, QuarantineOps(fs, t, Meta(t), id)), t)
  {
    var a, b := Rename(t, Quarantined(id, t)), Rename(Meta(t), Quarantined(id, Meta(t)));
    assert Length(Meta(t)) == Length(t) + 1;
    assert [a, b][1..] == [b] && [a][1..] == [] && [b][1..] == [];
    assert Run(fs, [a, b]) == Run(Apply(fs, a), [b]) == Apply(Apply(fs, a), b);
    assert Run(fs, [a]) == Apply(fs, a) && Run(fs, [b]) == Apply(fs, b);
  }

  /** The same for one round of the first loop, but for a target it installs. */
  lemma RoundTakesPair(e: Services, fs: Files, t: Path, id: nat)
    requires t.Tmp? && t in fs
    ensures var after := Run(fs, TemporaryOps(e, fs, t, id));
            if Judge(e, fs, t) == VerifiedTemporary then
              t.of !in fs && Meta(t) in fs && t.of in after && TakesPair(fs, after - {t.of}, t)
            else TakesPair(fs, after, t)
  {
    var m := Meta(t);
    assert m != t.of && t != t.of by { SuffixesDiffer(t.of); }
    match ActionFor(Judge(e, fs, t))
    case Quarantine => QuarantineTakesPair(fs, t, id);
    case Recovered => TwoOps(e, fs, Rename(t, t.of), Remove(m));
    case DiscardedDuplicate => TwoOps(e, fs, Remove(t), Remove(m));
  }

  // ---------- names that never leave anything ----------

  /** In the first loop: temporary files are still to come or sit next to a metadata file
      found alone; metadata files are among those found, except where already taken. */
  ghost predicate UnderWay(names: set<Path>, fs: Files, rest: seq<Path>) {
    && (forall t :: t in rest ==> t in names && t in fs && IsTemporary(t))
    && (forall i, j :: 0 <= i < j < |rest| ==> rest[i] != rest[j])
    && (forall p :: p in fs && IsTemporary(p) ==> p in rest || (p !in names && Meta(p) in names))
    && (forall m :: IsMetadata(m) ==> (m in fs <==> m in names && (m.of !in names || m.of in rest)))
  }

  /** What is installed under an owned name sits next to a metadata file found alone. */
  lemma InstallsBesideOrphan(e: Services, names: set<Path>, fs: Files, rest: seq<Path>, t: Path)
    requires !CanLeave(names, t) && UnderWay(names, fs, rest) && t in rest
    requires t.Tmp? && t in fs && Judge(e, fs, t) == VerifiedTemporary && Owned(t.of)
    ensures t.of.Tmp? && t.of !in names && Meta(t.of) in names
  {
    assert IsMetadata(Meta(t)) && Meta(t) in fs && t.of !in fs;
    hide Judge;
    var q := Stem(t.of);
    assert IsMetadata(Meta(q));
    assert q !in names && Meta(q) in names;
    assert Meta(q) in fs;
  }

  ghost predicate TakesPairBut(fs: Files, after: Files, t: Path, installed: set<Path>) {
    forall p :: Owned(p) ==> (p in after <==> p in installed || (p in fs && p != t && p != Meta(t)))
  }

  lemma TemporariesUnderWay(names: set<Path>, fs: Files, after: Files, rest: seq<Path>, installed: set<Path>)
    requires rest != [] && UnderWay(names, fs, rest) && TakesPairBut(fs, after, rest[0], installed)
    requires forall p :: p in installed ==> p.Tmp? && p !in names && Meta(p) in names
    ensures UnderWay(names, after, rest[1..])
  {
    var t := rest[0];
    assert rest == [t] + rest[1..] && t in rest;
    assert t !in rest[1..];
    forall r | r in rest[1..]
      ensures r in names && r in after && IsTemporary(r)
    {
      assert r in rest && r != Meta(t);
    }
    assert forall p :: p in after && IsTemporary(p) ==> p in rest[1..] || (p !in names && Meta(p) in names);
    forall m | IsMetadata(m)
      ensures m in after <==> m in names && (m.of !in names || m.of in rest[1..])
    {
      assert m == Meta(m.of) && m !in installed && IsTemporary(m.of);
    }
  }

  /** One round does not install a metadata file, and a temporary file only next to a
      metadata file found alone. */
  lemma RoundStaysUnderWay(e: Services, names: set<Path>, fs: Files, rest: seq<Path>, id: nat)
    requires (forall t :: !CanLeave(names, t)) && rest != [] && UnderWay(names, fs, rest)
    ensures rest[0] in fs && rest[0].Tmp?
    ensures UnderWay(names, Run(fs, TemporaryOps(e, fs, rest[0], id)), rest[1..])
  {
    var t := rest[0];
    assert t in rest;
    assert t in fs && IsTemporary(t);
    var after := Run(fs, TemporaryOps(e, fs, t, id));
    RoundTakesPair(e, fs, t, id);
    hide TemporaryOps, Judge, Run, UnderWay, CanLeave;
    var installs := Judge(e, fs, t) == VerifiedTemporary && Owned(t.of);
    if installs { InstallsBesideOrphan(e, names, fs, rest, t); }
    TemporariesUnderWay(names, fs, after, rest, if installs then {t.of} else {});
  }

  lemma {:induction false} FirstLoopLeaves(e: Services, names: set<Path>, fs: Files, rest: seq<Path>, ids: seq<nat>)
    requires (forall t :: !CanLeave(names, t)) && UnderWay(names, fs, rest)
    ensures UnderWay(names, Run(fs, TemporariesTrace(e, fs, rest, ids)), [])
    decreases |rest|
  {
    hide CanLeave, UnderWay, TemporaryOps;
    if rest != [] {
      var t := rest[0];
      RoundStaysUnderWay(e, names, fs, rest, NextId(ids));
      var ops := TemporaryOps(e, fs, t, NextId(ids));
      FirstLoopLeaves(e, names, Run(fs, ops), rest[1..], RestIds(ids));
      RunJoin(fs, ops, TemporariesTrace(e, Run(fs, ops), rest[1..], RestIds(ids)));
    }
  }

  /** In the second loop: every owned file belongs to a metadata file still to come. */
  ghost predicate Orphaned(fs: Files, rest: seq<Path>) {
    forall p :: p in fs && Owned(p) ==> Meta(Stem(p)) in fs && Meta(Stem(p)) in rest
  }

  lemma {:induction false} SecondLoopLeaves(fs: Files, rest: seq<Path>, processed: set<Path>, ids: seq<nat>)
    requires Orphaned(fs, rest) && forall m :: m in rest ==> IsMetadata(m)
    requires forall m :: m in rest && m in fs ==> m !in processed
    ensures NothingOwned(Run(fs, MetadataTrace(fs, rest, processed, ids)))
    decreases |rest|
  {
    if rest != [] {
      var m := rest[0];
      assert rest == [m] + rest[1..] && m in rest && m == Meta(m.of);
      var ops := if m in processed || m !in fs || !m.Meta? then [] else QuarantineOps(fs, m.of, m, NextId(ids));
      var middle := Run(fs, ops);
      if ops != [] { QuarantineTakesPair(fs, m.of, NextId(ids)); }
      hide QuarantineOps;
      TakenIsOrphaned(fs, middle, rest);
      SecondLoopLeaves(middle, rest[1..], processed, RestIds(ids));
      RunJoin(fs, ops, MetadataTrace(middle, rest[1..], processed, RestIds(ids)));
    }
  }

  lemma TakenIsOrphaned(fs: Files, after: Files, rest: seq<Path>)
    requires rest != [] && Orphaned(fs, rest) && IsMetadata(rest[0])
    requires if rest[0] in fs then TakesPair(fs, after, rest[0].of) else after == fs
    ensures Orphaned(after, rest[1..])
  {
    var m := rest[0];
    assert rest == [m] + rest[1..] && m == Meta(m.of);
    forall p | p in after && Owned(p)
      ensures Meta(Stem(p)) in after && Meta(Stem(p)) in rest[1..]
    {
      assert p in fs && Meta(Stem(p)) in fs;
      assert IsMetadata(Meta(Stem(p)));
    }
  }

  lemma SafeNamesSettle(e: Services, fs: Files, temporaries: seq<Path>, metadata: seq<Path>, ids: seq<nat>)
    requires (forall t :: !CanLeave(fs.Keys, t)) && Completes(e, fs, temporaries, metadata, ids)
    ensures NothingOwned(Run(fs, Trace(e, fs, temporaries, metadata, ids)))
  {
    var names, processed := fs.Keys, Processed(temporaries);
    var first := TemporariesTrace(e, fs, temporaries, ids);
    var middle := Run(fs, first);
    assert UnderWay(names, fs, temporaries) by { StartsUnderWay(fs, temporaries, metadata); }
    FirstLoopLeaves(e, names, fs, temporaries, ids);
    hide TemporariesTrace, MetadataTrace, CanLeave, FreshIds;
    forall m | m in metadata && m in middle
      ensures m !in processed
    {
      ProcessedHas(temporaries, m);
    }
    assert Orphaned(middle, metadata) by { LeftIsOrphaned(fs, middle, temporaries, metadata); }
    SecondLoopLeaves(middle, metadata, processed, ids[|temporaries|..]);
    RunJoin(fs, first, MetadataTrace(middle, metadata, processed, ids[|temporaries|..]));
  }

  lemma StartsUnderWay(fs: Files, temporaries: seq<Path>, metadata: seq<Path>)
    requires Discovered(fs, temporaries, metadata)
    ensures UnderWay(fs.Keys, fs, temporaries)
  {
    forall m | IsMetadata(m)
      ensures m in fs <==> m in fs.Keys && (m.of !in fs.Keys || m.of in temporaries)
    {
      assert IsTemporary(m.of);
    }
  }

  lemma LeftIsOrphaned(fs: Files, middle: Files, temporaries: seq<Path>, metadata: seq<Path>)
    requires Discovered(fs, temporaries, metadata) && UnderWay(fs.Keys, middle, [])
    ensures Orphaned(middle, metadata)
  {
    forall p | p in middle && Owned(p)
      ensures Meta(Stem(p)) in middle && Meta(Stem(p)) in metadata
    {
      assert IsMetadata(Meta(Stem(p)));
    }
  }

  // ---------- names that can leave something ----------

  lemma {:induction false} StaysThroughFirst(e: Services, fs: Files, rest: seq<Path>, ids: seq<nat>, x: Path)
    requires Owned(x) && x in fs && Stem(x) !in rest
    ensures x in Run(fs, TemporariesTrace(e, fs, rest, ids))
    decreases |rest|
  {
    hide TemporaryOps;
    if rest != [] {
      var t := rest[0];
      var ops := if t.Tmp? && t in fs then TemporaryOps(e, fs, t, NextId(ids)) else [];
      assert t in rest;
      if t.Tmp? && t in fs {
        RoundTakesPair(e, fs, t, NextId(ids));
        assert x != t && x != Meta(t);
      }
      StaysThroughFirst(e, Run(fs, ops), rest[1..], RestIds(ids), x);
      RunJoin(fs, ops, TemporariesTrace(e, Run(fs, ops), rest[1..], RestIds(ids)));
    }
  }

  lemma {:induction false} StaysThroughSecond(fs: Files, rest: seq<Path>, processed: set<Path>, ids: seq<nat>, x: Path)
    requires Owned(x) && x in fs && (Meta(Stem(x)) in processed || Meta(Stem(x)) !in rest)
    requires forall m :: m in rest ==> IsMetadata(m)
    ensures x in Run(fs, MetadataTrace(fs, rest, processed, ids))
    decreases |rest|
  {
    if rest != [] {
      var m := rest[0];
      assert m in rest && m == Meta(m.of);
      var ops := if m in processed || m !in fs || !m.Meta? then [] else QuarantineOps(fs, m.of, m, NextId(ids));
      if ops != [] { QuarantineTakesPair(fs, m.of, NextId(ids)); }
      hide QuarantineOps;
      StaysThroughSecond(Run(fs, ops), rest[1..], processed, RestIds(ids), x);
      RunJoin(fs, ops, MetadataTrace(Run(fs, ops), rest[1..], processed, RestIds(ids)));
    }
  }

  /** A temporary file next to its own metadata, whose target is free. */
  ghost predicate Complete(e: Services, fs: Files, t: Path)
    requires t.Tmp?
  {
    t in fs && Meta(t) in fs && t.of !in fs && fs[Meta(t)] == e.render(MetadataFor(e, t.of, fs[t], Text))
  }

  lemma CompleteIsVerified(e: Services, fs: Files, t: Path)
    requires Lawful(e) && t.Tmp? && Complete(e, fs, t)
    ensures Judge(e, fs, t) == VerifiedTemporary
  {
  }

  /** Once the target's pair is out of the way the target is installed and stays. */
  lemma InstalledStays(e: Services, fs: Files, rest: seq<Path>, ids: seq<nat>, t: Path)
    requires Lawful(e) && t.Tmp? && Owned(t.of) && rest != [] && rest[0] == t && Complete(e, fs, t)
    requires Stem(t.of) !in rest
    ensures t.of in Run(fs, TemporariesTrace(e, fs, rest, ids))
  {
    CompleteIsVerified(e, fs, t);
    var ops := TemporaryOps(e, fs, t, NextId(ids));
    RoundTakesPair(e, fs, t, NextId(ids));
    hide TemporaryOps, Complete;
    StaysThroughFirst(e, Run(fs, ops), rest[1..], RestIds(ids), t.of);
    RunJoin(fs, ops, TemporariesTrace(e, Run(fs, ops), rest[1..], RestIds(ids)));
  }

  lemma PairFirst(e: Services, fs: Files, rest: seq<Path>, ids: seq<nat>, t: Path)
    requires Lawful(e) && IsTemporary(t) && Owned(t.of) && t in fs && Meta(t) in fs
    requires fs[Meta(t)] == e.render(MetadataFor(e, t.of, fs[t], Text))
    requires |rest| >= 2 && rest[0] == Stem(t.of) && rest[0] in fs && rest[1] == t && rest[0] !in rest[1..]
    ensures t.of in Run(fs, TemporariesTrace(e, fs, rest, ids))
  {
    var q := rest[0];
    var ops := TemporaryOps(e, fs, q, NextId(ids));
    var middle := Run(fs, ops);
    RoundTakesPair(e, fs, q, NextId(ids));
    hide TemporaryOps, Lawful;
    assert IsMetadata(Meta(t));
    assert Complete(e, middle, t) by { PairGone(fs, middle, t, q); }
    InstalledStays(e, middle, rest[1..], RestIds(ids), t);
    RunJoin(fs, ops, TemporariesTrace(e, middle, rest[1..], RestIds(ids)));
  }

  lemma PairGone(fs: Files, middle: Files, t: Path, q: Path)
    requires IsTemporary(t) && Owned(t.of) && q == Stem(t.of) && q.Tmp? && t in fs && Meta(t) in fs
    requires TakesPair(fs, middle, q) || (q.of !in fs && q.of in middle && TakesPair(fs, middle - {q.of}, q))
    ensures t in middle && middle[t] == fs[t] && Meta(t) in middle && middle[Meta(t)] == fs[Meta(t)] && t.of !in middle
  {
    assert Length(Meta(t)) == Length(t) + 1 == Length(t.of) + 2;
    assert Length(t.of) >= Length(q) == Length(q.of) + 1;
    assert IsMetadata(Meta(t));
  }

  lemma {:induction false} Listed(paths: set<Path>) returns (list: seq<Path>)
    ensures forall p :: p in list <==> p in paths
    ensures forall i, j :: 0 <= i < j < |list| ==> list[i] != list[j]
  {
    if paths == {} {
      list := [];
    } else {
      var p :| p in paths;
      var rest := Listed(paths - {p});
      list := [p] + rest;
    }
  }

  /** A listing that begins with two given paths. */
  lemma ListedFrom(paths: set<Path>, first: seq<Path>) returns (list: seq<Path>)
    requires forall p :: p in first ==> p in paths
    requires forall i, j :: 0 <= i < j < |first| ==> first[i] != first[j]
    ensures first <= list && forall p :: p in list <==> p in paths
    ensures forall i, j :: 0 <= i < j < |list| ==> list[i] != list[j]
  {
    var others := Listed(set p | p in paths && p !in first);
    list := first + others;
    forall i, j | 0 <= i < j < |list|
      ensures list[i] != list[j]
    {
      if i < |first| <= j { assert list[i] in first && list[j] in others; }
    }
  }

  lemma Unused(ids: set<nat>) returns (id: nat)
    ensures forall i :: i in ids ==> i < id
  {
    if ids == {} {
      id := 0;
    } else {
      var i :| i in ids;
      var rest := Unused(ids - {i});
      id := if i < rest then rest else i + 1;
      assert forall j :: j in ids ==> j == i || j in ids - {i};
    }
  }

  lemma FreshIdsExist(fs: Files, n: nat) returns (ids: seq<nat>)
    ensures FreshIds(fs, ids, n) && |ids| == n
  {
    var used: set<nat> := set p | p in fs.Keys && p.Quarantined? :: p.id;
    var base := Unused(used);
    ids := seq(n, i requires 0 <= i < n => base + i);
    forall i, p | 0 <= i < |ids| && p in fs && p.Quarantined?
      ensures p.id != ids[i]
    {
      assert p.id in used;
    }
  }

  /** Contents and an order in which `t` brings back its target for good. */
  lemma LeavingRun(e: Services, names: set<Path>, t: Path)
    returns (fs: Files, temporaries: seq<Path>, metadata: seq<Path>, ids: seq<nat>)
    requires Lawful(e) && CanLeave(names, t)
    ensures fs.Keys == names && Completes(e, fs, temporaries, metadata, ids)
    ensures t.of in Run(fs, Trace(e, fs, temporaries, metadata, ids))
  {
    var q := Stem(t.of);
    fs := (map p | p in names :: [])[Meta(t) := e.render(MetadataFor(e, t.of, [], Text))];
    assert t != Meta(t) by { assert Length(Meta(t)) == Length(t) + 1; }
    assert q != t by { assert Length(t.of) >= Length(q) && Length(t) == Length(t.of) + 1; }
    assert fs.Keys == names;
    temporaries := ListedFrom(set p | p in names && IsTemporary(p), if q in names then [q, t] else [t]);
    metadata := Listed(set p | p in names && IsMetadata(p));
    ids := FreshIdsExist(fs, |temporaries| + |metadata|);
    assert Discovered(fs, temporaries, metadata);
    LeftInFirst(e, fs, temporaries, ids, t);
    LeftInSecond(e, fs, temporaries, metadata, ids, t);
  }

  lemma LeftInFirst(e: Services, fs: Files, temporaries: seq<Path>, ids: seq<nat>, t: Path)
    requires Lawful(e) && CanLeave(fs.Keys, t) && fs[Meta(t)] == e.render(MetadataFor(e, t.of, fs[t], Text))
    requires forall p :: p in temporaries <==> p in fs && IsTemporary(p)
    requires forall i, j :: 0 <= i < j < |temporaries| ==> temporaries[i] != temporaries[j]
    requires (if Stem(t.of) in fs then [Stem(t.of), t] else [t]) <= temporaries
    ensures t.of in Run(fs, TemporariesTrace(e, fs, temporaries, ids))
  {
    var q := Stem(t.of);
    hide Lawful;
    if q in fs {
      assert temporaries[0] == q && temporaries[1] == t;
      assert q !in temporaries[1..];
      PairFirst(e, fs, temporaries, ids, t);
    } else {
      assert t.of !in fs;
      assert temporaries[0] == t;
      InstalledStays(e, fs, temporaries, ids, t);
    }
  }

  lemma LeftInSecond(e: Services, fs: Files, temporaries: seq<Path>, metadata: seq<Path>, ids: seq<nat>, t: Path)
    requires CanLeave(fs.Keys, t) && Discovered(fs, temporaries, metadata) && |ids| >= |temporaries|
    requires t.of in Run(fs, TemporariesTrace(e, fs, temporaries, ids))
    ensures t.of in Run(fs, Trace(e, fs, temporaries, metadata, ids))
  {
    var q, first := Stem(t.of), TemporariesTrace(e, fs, temporaries, ids);
    hide TemporariesTrace, MetadataTrace;
    ProcessedHas(temporaries, Meta(q));
    assert IsTemporary(q);
    var middle, processed := Run(fs, first), Processed(temporaries);
    StaysThroughSecond(middle, metadata, processed, ids[|temporaries|..], t.of);
    RunJoin(fs, first, MetadataTrace(middle, metadata, processed, ids[|temporaries|..]));
  }

  /** A directory is settled by every completed recovery, whatever its files hold, exactly
      when no name in it can leave something. */
  lemma NamesThatSettle(e: Services, names: set<Path>)
    requires Lawful(e)
    ensures AlwaysSettles(e, names) <==> forall t :: !CanLeave(names, t)
  {
    hide CanLeave, Lawful, Trace;
    if t: Path :| CanLeave(names, t) {
      assert Owned(t.of) by { TargetIsOwned(names, t); }
      var fs, temporaries, metadata, ids := LeavingRun(e, names, t);
    } else {
      forall fs: Files, temporaries: seq<Path>, metadata: seq<Path>, ids: seq<nat> | fs.Keys == names && Completes(e, fs, temporaries, metadata, ids)
        ensures NothingOwned(Run(fs, Trace(e, fs, temporaries, metadata, ids)))
      {
        SafeNamesSettle(e, fs, temporaries, metadata, ids);
      }
    }
  }

  lemma TargetIsOwned(names: set<Path>, t: Path)
    requires CanLeave(names, t)
    ensures t.Tmp? && Owned(t.of)
  {
  }
}
