/** What the engine (`src/engine/runtime-engine.ts`) is told from outside, and which saved
    status is the answer to it. */
module EngineReports {
  import opened Wrappers
  import opened Playbook
  import opened RunEngine

  datatype CapabilityResult = CapabilitySucceeded | CapabilityAwaitsApproval | CapabilityFailed

  /** What something outside is asked about. */
  datatype Subject = ThePlaybook | TheRepository | TheStage(stage: nat) | TheStep(stage: nat, step: nat)

  /** What it says: whether nothing has changed, whether a stage or step applies, whether
      its approval is there, and how its capability ended. */
  datatype Report = Unchanged(same: bool) | Applies(applies: bool) | Approved(there: bool) | Ran(result: CapabilityResult)

  type Reports = map<Subject, Report>

  predicate Says(reports: Reports, about: Subject, report: Report) {
    about in reports && reports[about] == report
  }

  /** What has been heard since the last update when an update is made. */
  ghost predicate AnswerTo(e: Event, heard: Reports) {
    match e
    case Resumed => heard == map[ThePlaybook := Unchanged(true), TheRepository := Unchanged(true)]
    case BecameTainted => heard == map[ThePlaybook := Unchanged(false)]
    case BecameStale => heard == map[ThePlaybook := Unchanged(true), TheRepository := Unchanged(false)]
    case StageInapplicable(i) => heard == map[TheStage(i) := Applies(false)]
    case StageStarted(i) => heard == map[TheStage(i) := Applies(true)]
    case StageClosed(_) => heard == map[]
    case StepInapplicable(i, j) => heard == map[ThePlaybook := Unchanged(true), TheStep(i, j) := Applies(false)]
    case StepStarted(i, j) => heard == map[ThePlaybook := Unchanged(true), TheStep(i, j) := Applies(true)]
    case ApprovalNeeded(i, j) =>
      heard == map[TheStep(i, j) := Approved(false)] || heard == map[TheStep(i, j) := Ran(CapabilityAwaitsApproval)]
    case StepFailed(i, j) => heard == map[TheStep(i, j) := Ran(CapabilityFailed)]
    case StepSucceeded(i, j) => heard == map[TheStep(i, j) := Ran(CapabilitySucceeded)]
    case RunCompleted => heard == map[]
  }

  // ---------------------------------------------------------------- what the saved state says

  /** A step's status is the answer to the last thing heard about it; a step nothing was
      heard about is untouched or went along with its stage. */
  ghost predicate StepAgrees(p: Playbook, s: RunState, reports: Reports, i: nat, j: nat)
    requires Fits(p, s) && i < |p.stages| && j < |p.stages[i].steps|
  {
    var step, about := p.stages[i].steps[j], TheStep(i, j);
    match s.stages[i].steps[j].status
    case Pending => about !in reports
    case InProgress => Says(reports, about, Applies(true))
    case AwaitingApproval => Says(reports, about, Approved(false)) || Says(reports, about, Ran(CapabilityAwaitsApproval))
    case Succeeded => Says(reports, about, Ran(CapabilitySucceeded))
    case Failed => Says(reports, about, Ran(CapabilityFailed)) && !step.blockedOnFailure
    case Blocked =>
      || (Says(reports, about, Ran(CapabilityFailed)) && step.blockedOnFailure)
      || (Says(reports, about, Applies(false)) && step.onInapplicable.MarkBlocked?)
      || (about !in reports && TheStage(i) in reports && p.stages[i].onInapplicable.MarkBlocked?)
    case SkippedInapplicable =>
      || (Says(reports, about, Applies(false)) && step.onInapplicable.Skip?)
      || (about !in reports && Says(reports, TheStage(i), Applies(false)) && p.stages[i].onInapplicable.Skip?)
    case StoppedByPolicy =>
      || (Says(reports, about, Applies(false)) && step.onInapplicable.StopStage?)
      || (about !in reports && StageStops(p, reports, i))
    case SkippedByUser => false
  }

  /** The stage was to stop: it does not apply itself, or one of its steps does not. */
  ghost predicate StageStops(p: Playbook, reports: Reports, i: nat)
    requires i < |p.stages|
  {
    || (Says(reports, TheStage(i), Applies(false)) && p.stages[i].onInapplicable.StopStage?)
    || (Says(reports, TheStage(i), Applies(true)) && SomeStep(p, reports, i, StopStage))
  }

  ghost predicate SomeStep(p: Playbook, reports: Reports, i: nat, policy: OnInapplicable)
    requires i < |p.stages|
  {
    exists k: nat :: k < |p.stages[i].steps| && p.stages[i].steps[k].onInapplicable == policy && Says(reports, TheStep(i, k), Applies(false))
  }

  ghost predicate SomeFailed(p: Playbook, reports: Reports, i: nat)
    requires i < |p.stages|
  {
    exists k: nat :: k < |p.stages[i].steps| && Says(reports, TheStep(i, k), Ran(CapabilityFailed))
  }

  ghost predicate StageAgrees(p: Playbook, s: RunState, reports: Reports, i: nat)
    requires Fits(p, s) && i < |p.stages|
  {
    var about := TheStage(i);
    match s.stages[i].status
    case Pending => about !in reports
    case InProgress => Says(reports, about, Applies(true))
    case Succeeded => Says(reports, about, Applies(true))
    case Failed => Says(reports, about, Applies(true)) && SomeFailed(p, reports, i)
    case SkippedInapplicable => Says(reports, about, Applies(false)) && p.stages[i].onInapplicable.Skip?
    case StoppedByPolicy => StageStops(p, reports, i)
    case Blocked =>
      || (Says(reports, about, Applies(false)) && p.stages[i].onInapplicable.MarkBlocked?)
      || (Says(reports, about, Applies(true)) && SomeStep(p, reports, i, MarkBlocked))
    case _ => false
  }

  /** The saved state is what follows from the reports acted on. */
  ghost predicate Agrees(p: Playbook, s: RunState, reports: Reports)
    requires Fits(p, s)
  {
    && (forall i: nat :: i < |p.stages| ==> StageAgrees(p, s, reports, i))
    && (forall i: nat, j: nat :: i < |p.stages| && j < |p.stages[i].steps| ==> StepAgrees(p, s, reports, i, j))
    && (s.run.Tainted? <==> Says(reports, ThePlaybook, Unchanged(false)))
    && (s.run.Stale? <==> Says(reports, TheRepository, Unchanged(false)))
    && (forall i: nat :: TheStage(i) in reports ==> i < |p.stages|)
    && (forall i: nat, j: nat :: TheStep(i, j) in reports ==> TheStage(i) in reports)
  }

  lemma NothingHeard(p: Playbook)
    ensures Fits(p, Initial(p)) && Agrees(p, Initial(p), map[])
  {
  }

  // ---------------------------------------------------------------- updates keep the agreement

  /** The reports about other stages are as they were. */
  ghost predicate SameElsewhere(a: Reports, b: Reports, i: nat) {
    && (forall k: nat :: k != i ==> (TheStage(k) in a <==> TheStage(k) in b) && (TheStage(k) in a ==> a[TheStage(k)] == b[TheStage(k)]))
    && (forall k: nat, j: nat :: k != i ==> (TheStep(k, j) in a <==> TheStep(k, j) in b) && (TheStep(k, j) in a ==> a[TheStep(k, j)] == b[TheStep(k, j)]))
  }

  lemma OtherStagesAgree(p: Playbook, s: RunState, t: RunState, a: Reports, b: Reports, i: nat, k: nat)
    requires Fits(p, s) && Fits(p, t) && Agrees(p, s, a) && SameElsewhere(a, b, i) && k < |p.stages| && k != i
    requires t.stages[k] == s.stages[k]
    ensures StageAgrees(p, t, b, k) && forall j: nat :: j < |p.stages[k].steps| ==> StepAgrees(p, t, b, k, j)
  {
    assert StageAgrees(p, s, a, k);
    assert forall n: nat :: TheStep(k, n) in a <==> TheStep(k, n) in b;
    forall j: nat | j < |p.stages[k].steps|
      ensures StepAgrees(p, t, b, k, j)
    {
      assert StepAgrees(p, s, a, k, j);
    }
  }

  /** One stage changes, and the reports about it. */
  lemma StageUpdateAgrees(p: Playbook, s: RunState, t: RunState, a: Reports, b: Reports, i: nat)
    requires Fits(p, s) && Fits(p, t) && Agrees(p, s, a) && i < |p.stages| && SameElsewhere(a, b, i)
    requires forall k: nat :: k < |p.stages| && k != i ==> t.stages[k] == s.stages[k]
    requires StageAgrees(p, t, b, i) && forall j: nat :: j < |p.stages[i].steps| ==> StepAgrees(p, t, b, i, j)
    requires t.run.Tainted? <==> Says(b, ThePlaybook, Unchanged(false))
    requires t.run.Stale? <==> Says(b, TheRepository, Unchanged(false))
    requires TheStage(i) in b
    ensures Agrees(p, t, b)
  {
    hide StageAgrees, StepAgrees;
    forall k: nat | k < |p.stages|
      ensures StageAgrees(p, t, b, k) && forall j: nat :: j < |p.stages[k].steps| ==> StepAgrees(p, t, b, k, j)
    {
      if k != i { OtherStagesAgree(p, s, t, a, b, i, k); }
    }
  }

  lemma RunUpdateAgrees(p: Playbook, s: RunState, e: Event, acted: Reports, heard: Reports)
    requires Enabled(p, s, e) && Agrees(p, s, acted) && AnswerTo(e, heard)
    requires e.Resumed? || e.BecameTainted? || e.BecameStale? || e.RunCompleted?
    ensures Fits(p, Apply(p, s, e)) && Agrees(p, Apply(p, s, e), acted + heard)
  {
    hide CompletedStepIds, CompletedStageIds, Met, NextExecutionAttempt, DependenciesMet, StagesInOrder, InOrder, DoneBefore;
    var t, b := Apply(p, s, e), acted + heard;
    assert t.stages == s.stages;
    assert forall i: nat :: (TheStage(i) in b <==> TheStage(i) in acted) && (TheStage(i) in b ==> b[TheStage(i)] == acted[TheStage(i)]);
    assert forall i: nat, j: nat ::
        (TheStep(i, j) in b <==> TheStep(i, j) in acted) && (TheStep(i, j) in b ==> b[TheStep(i, j)] == acted[TheStep(i, j)]);
    hide Enabled, StageAgrees, StepAgrees;
    forall i: nat | i < |p.stages|
      ensures StageAgrees(p, t, b, i) && forall j: nat :: j < |p.stages[i].steps| ==> StepAgrees(p, t, b, i, j)
    {
      OtherStagesAgree(p, s, t, acted, b, i + 1, i);
    }
  }

  lemma StageEventAgrees(p: Playbook, s: RunState, e: Event, acted: Reports, heard: Reports)
    requires Inv(p, s) && Enabled(p, s, e) && Agrees(p, s, acted) && AnswerTo(e, heard)
    requires e.StageInapplicable? || e.StageStarted? || e.StageClosed?
    ensures Fits(p, Apply(p, s, e)) && Agrees(p, Apply(p, s, e), acted + heard)
  {
    hide CompletedStepIds, CompletedStageIds, Met, NextExecutionAttempt, DependenciesMet, StagesInOrder, InOrder, DoneBefore;
    var i, t, b := e.stage, Apply(p, s, e), acted + heard;
    assert StageOk(s.stages[i]) && StageAgrees(p, s, acted, i);
    assert StageAgrees(p, t, b, i);
    forall j: nat | j < |p.stages[i].steps|
      ensures StepAgrees(p, t, b, i, j)
    {
      StepsOfStage(p, s, e, acted, heard, j);
    }
    hide StageAgrees, StepAgrees, Inv;
    StageUpdateAgrees(p, s, t, acted, b, i);
  }

  lemma StepsOfStage(p: Playbook, s: RunState, e: Event, acted: Reports, heard: Reports, j: nat)
    requires Inv(p, s) && Enabled(p, s, e) && Agrees(p, s, acted) && AnswerTo(e, heard)
    requires e.StageInapplicable? || e.StageStarted? || e.StageClosed?
    requires j < |p.stages[e.stage].steps|
    ensures Fits(p, Apply(p, s, e)) && StepAgrees(p, Apply(p, s, e), acted + heard, e.stage, j)
  {
    hide CompletedStepIds, CompletedStageIds, Met, NextExecutionAttempt, DependenciesMet, StagesInOrder, InOrder, DoneBefore;
    var i, b := e.stage, acted + heard;
    assert StageOk(s.stages[i]) && StageAgrees(p, s, acted, i) && StepAgrees(p, s, acted, i, j);
    assert TheStep(i, j) in b <==> TheStep(i, j) in acted;
  }

  predicate OfStep(e: Event) {
    e.StepInapplicable? || e.StepStarted? || e.ApprovalNeeded? || e.StepFailed? || e.StepSucceeded?
  }

  /** The step it is about. */
  lemma StepItself(p: Playbook, s: RunState, e: Event, acted: Reports, heard: Reports)
    requires Enabled(p, s, e) && AnswerTo(e, heard) && OfStep(e)
    ensures Fits(p, Apply(p, s, e)) && StepAgrees(p, Apply(p, s, e), acted + heard, e.stage, e.step)
  {
    hide CompletedStepIds, CompletedStageIds, Met, NextExecutionAttempt, DependenciesMet, StagesInOrder, InOrder, DoneBefore;
    assert TheStep(e.stage, e.step) in heard;
  }

  /** What an update of one step does to another step of the stage. */
  lemma StepsBesideChange(p: Playbook, s: RunState, e: Event, j: nat)
    requires Inv(p, s) && Enabled(p, s, e) && OfStep(e) && j < |p.stages[e.stage].steps| && j != e.step
    ensures Fits(p, Apply(p, s, e)) && s.stages[e.stage].status.InProgress?
    ensures var (before, after) := (s.stages[e.stage].steps[j], Apply(p, s, e).stages[e.stage].steps[j]);
            && !before.status.StoppedByPolicy?
            && (after == before
                || (e.StepInapplicable? && p.stages[e.stage].steps[e.step].onInapplicable.StopStage? && before.status.Pending?
                    && after.status.StoppedByPolicy?))
  {
    hide CompletedStepIds, CompletedStageIds, Met, NextExecutionAttempt, DependenciesMet, StagesInOrder, InOrder, DoneBefore;
    assert StageOk(s.stages[e.stage]);
  }

  lemma KeptBeside(p: Playbook, s: RunState, t: RunState, a: Reports, b: Reports, i: nat, j: nat)
    requires Fits(p, s) && Fits(p, t) && i < |p.stages| && j < |p.stages[i].steps| && StepAgrees(p, s, a, i, j)
    requires Says(a, TheStage(i), Applies(true)) && Says(b, TheStage(i), Applies(true))
    requires (TheStep(i, j) in a <==> TheStep(i, j) in b) && (TheStep(i, j) in a ==> a[TheStep(i, j)] == b[TheStep(i, j)])
    requires !s.stages[i].steps[j].status.StoppedByPolicy? && t.stages[i].steps[j] == s.stages[i].steps[j]
    ensures StepAgrees(p, t, b, i, j)
  {
  }

  /** The other steps of its stage. */
  lemma StepsBeside(p: Playbook, s: RunState, e: Event, acted: Reports, heard: Reports, j: nat)
    requires Inv(p, s) && Enabled(p, s, e) && Agrees(p, s, acted) && AnswerTo(e, heard) && OfStep(e)
    requires j < |p.stages[e.stage].steps| && j != e.step
    ensures Fits(p, Apply(p, s, e)) && StepAgrees(p, Apply(p, s, e), acted + heard, e.stage, j)
  {
    var i, b := e.stage, acted + heard;
    StepsBesideChange(p, s, e, j);
    assert StageAgrees(p, s, acted, i) && StepAgrees(p, s, acted, i, j);
    hide Inv, Apply, Enabled;
    assert TheStep(i, j) in b <==> TheStep(i, j) in acted;
    assert Says(acted, TheStage(i), Applies(true)) && Says(b, TheStage(i), Applies(true));
    var t := Apply(p, s, e);
    if t.stages[i].steps[j] == s.stages[i].steps[j] {
      KeptBeside(p, s, t, acted, b, i, j);
    } else {
      assert Says(b, TheStep(i, e.step), Applies(false));
      assert SomeStep(p, b, i, StopStage);
    }
  }

  lemma StageOfStep(p: Playbook, s: RunState, e: Event, acted: Reports, heard: Reports)
    requires Enabled(p, s, e) && Agrees(p, s, acted) && AnswerTo(e, heard) && OfStep(e)
    ensures Fits(p, Apply(p, s, e)) && StageAgrees(p, Apply(p, s, e), acted + heard, e.stage)
  {
    hide CompletedStepIds, CompletedStageIds, Met, NextExecutionAttempt, DependenciesMet, StagesInOrder, InOrder, DoneBefore;
    var i, b := e.stage, acted + heard;
    assert StageAgrees(p, s, acted, i);
    assert Says(b, TheStage(i), Applies(true));
    assert b[TheStep(i, e.step)] == heard[TheStep(i, e.step)];
  }

  lemma StepEventAgrees(p: Playbook, s: RunState, e: Event, acted: Reports, heard: Reports)
    requires Inv(p, s) && Enabled(p, s, e) && Agrees(p, s, acted) && AnswerTo(e, heard) && OfStep(e)
    ensures Fits(p, Apply(p, s, e)) && Agrees(p, Apply(p, s, e), acted + heard)
  {
    StepRun(p, s, e, acted, heard);
    StageOfStep(p, s, e, acted, heard);
    hide StageAgrees, StepAgrees, Inv, Apply, Enabled, AnswerTo;
    var i, t, b := e.stage, Apply(p, s, e), acted + heard;
    forall j: nat | j < |p.stages[i].steps|
      ensures StepAgrees(p, t, b, i, j)
    {
      if j == e.step { StepItself(p, s, e, acted, heard); } else { StepsBeside(p, s, e, acted, heard, j); }
    }
    StageUpdateAgrees(p, s, t, acted, b, i);
  }

  /** What an update of a step leaves alone. */
  lemma StepApplied(p: Playbook, s: RunState, e: Event)
    requires Enabled(p, s, e) && OfStep(e)
    ensures var t := Apply(p, s, e);
            && Fits(p, t) && e.stage < |p.stages| && (t.run.Tainted? <==> s.run.Tainted?) && (t.run.Stale? <==> s.run.Stale?)
            && (forall k: nat :: k < |p.stages| && k != e.stage ==> t.stages[k] == s.stages[k])
  {
    hide CompletedStepIds, CompletedStageIds, Met, NextExecutionAttempt, DependenciesMet, StagesInOrder, InOrder, DoneBefore;
  }

  lemma StepRun(p: Playbook, s: RunState, e: Event, acted: Reports, heard: Reports)
    requires Enabled(p, s, e) && Agrees(p, s, acted) && AnswerTo(e, heard) && OfStep(e)
    ensures var (t, b, i) := (Apply(p, s, e), acted + heard, e.stage);
            && Fits(p, t) && i < |p.stages| && SameElsewhere(acted, b, i) && TheStage(i) in b
            && (forall k: nat :: k < |p.stages| && k != i ==> t.stages[k] == s.stages[k])
            && (t.run.Tainted? <==> Says(b, ThePlaybook, Unchanged(false)))
            && (t.run.Stale? <==> Says(b, TheRepository, Unchanged(false)))
  {
    StepApplied(p, s, e);
    hide Apply, CompletedStepIds, CompletedStageIds, Met, NextExecutionAttempt, DependenciesMet, StagesInOrder, InOrder, DoneBefore;
    assert StageAgrees(p, s, acted, e.stage);
  }

  /** Every update that answers what was heard keeps the saved state in agreement. */
  lemma UpdateAgrees(p: Playbook, s: RunState, e: Event, acted: Reports, heard: Reports)
    requires Inv(p, s) && Enabled(p, s, e) && Agrees(p, s, acted) && AnswerTo(e, heard)
    ensures Fits(p, Apply(p, s, e)) && Agrees(p, Apply(p, s, e), acted + heard)
  {
    hide Inv, Enabled, Apply, Agrees, AnswerTo;
    if e.Resumed? || e.BecameTainted? || e.BecameStale? || e.RunCompleted? {
      RunUpdateAgrees(p, s, e, acted, heard);
    } else if e.StageInapplicable? || e.StageStarted? || e.StageClosed? {
      StageEventAgrees(p, s, e, acted, heard);
    } else {
      StepEventAgrees(p, s, e, acted, heard);
    }
  }
}
