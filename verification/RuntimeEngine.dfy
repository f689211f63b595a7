/** The engine itself (`src/engine/runtime-engine.ts`): its loops over stages and steps
    make only the updates of the transition system, whenever the process dies. */
module RuntimeEngine {
  import opened Wrappers
  import opened Playbook
  import opened RunEngine
  import opened EngineReports
  import Dataflow = DataflowContract

  /** How a part of the engine ends. `Died` is a crash; `Returned` and `Threw` end the command. */
  datatype Flow = Continue | StopTheStage | Returned | Threw(error: EngineError) | Died

  /** The file of the active playbook: missing, no JSON, or a playbook together with what
      the schema validator says of it and whether its text holds a placeholder digest. */
  datatype PlaybookFile =
    | Missing
    | NotJson
    | PlaybookFile(data: Playbook, matchesSchema: bool, placeholder: bool, digest: string)

  /** `Array.find` by id: the first match. */
  function FindStage(stages: seq<StageState>, id: string): (found: Option<nat>)
    ensures found.Some? ==> found.value < |stages| && stages[found.value].id == id
                            && forall k :: 0 <= k < found.value ==> stages[k].id != id
    ensures found.None? ==> forall st <- stages :: st.id != id
  {
    if stages == [] then None
    else if stages[0].id == id then Some(0)
    else match FindStage(stages[1..], id)
      case None => None
      case Some(k) => Some(k + 1)
  }

  function FindStep(steps: seq<StepState>, id: string): (found: Option<nat>)
    ensures found.Some? ==> found.value < |steps| && steps[found.value].id == id
    ensures found.None? ==> forall step <- steps :: step.id != id
  {
    if steps == [] then None
    else if steps[0].id == id then Some(0)
    else match FindStep(steps[1..], id)
      case None => None
      case Some(k) => Some(k + 1)
  }

  /** The loop that gives the pending steps of a stage its fate. */
  method Sweep(steps: seq<StepState>, to: Status) returns (swept: seq<StepState>)
    ensures swept == Swept(steps, to)
  {
    swept := steps;
    for k: nat := 0 to |steps|
      invariant |swept| == |steps|
      invariant forall l :: 0 <= l < k ==> swept[l] == Swept(steps, to)[l]
      invariant forall l :: k <= l < |steps| ==> swept[l] == steps[l]
    {
      if !swept[k].status.Pending? { continue; }
      swept := swept[k := swept[k].(status := to)];
    }
  }

  /** A state lookup never misses, and a stage still to be run is found at its own place. */
  lemma StageIsFound(p: Playbook, s: RunState, i: nat)
    requires Fits(p, s) && i < |p.stages| && s.run.Running? && DoneBefore(p, s, i)
    ensures var found := FindStage(s.stages, p.stages[i].id);
            && found.Some? && found.value <= i
            && (if StageDone(s.stages[found.value].status) then DoneBefore(p, s, i + 1) else found.value == i && Ready(p, s, i))
  {
    assert s.stages[i] in s.stages;
    var k := FindStage(s.stages, p.stages[i].id).value;
    assert p.stages[k].id == p.stages[i].id;
    assert First(p, k);
    if First(p, i) {
      assert k == i;
    }
  }

  lemma StepIsFound(p: Playbook, s: RunState, i: nat, j: nat)
    requires DistinctStepIds(p) && Fits(p, s) && IsStep(p, At(i, j))
    ensures FindStep(s.stages[i].steps, p.stages[i].steps[j].id) == Some(j)
  {
    var steps := s.stages[i].steps;
    assert steps[j] in steps;
    var k := FindStep(steps, p.stages[i].steps[j].id).value;
    assert IsStep(p, At(i, k)) && StepAt(p, At(i, k)).id == StepAt(p, At(i, j)).id;
  }

  lemma RunGrows(p: Playbook, trace: seq<RunState>, e: Event)
    requires IsRun(p, trace) && Enabled(p, trace[|trace| - 1], e)
    ensures IsRun(p, trace + [Apply(p, trace[|trace| - 1], e)])
  {
    hide Enabled, Apply, Initial;
    var longer := trace + [Apply(p, trace[|trace| - 1], e)];
    forall k | 0 <= k < |longer| - 1
      ensures Next(p, longer[k], longer[k + 1])
    {
      if k < |trace| - 1 {
        assert Next(p, trace[k], trace[k + 1]);
      }
    }
  }

  /** What the statuses are once a step that was started has its answer. */
  ghost predicate ResultIs(p: Playbook, s: RunState, i: nat, j: nat, told: Report, r: Flow)
    requires Fits(p, s) && IsStep(p, At(i, j))
  {
    var (step, stage) := (s.stages[i].steps[j].status, s.stages[i].status);
    match told
    case Ran(CapabilitySucceeded) => r.Continue? && step == Succeeded && stage == InProgress && s.run == Running
    case Ran(CapabilityFailed) =>
      && r.Returned? && stage == Failed
      && (if p.stages[i].steps[j].blockedOnFailure then step == Blocked && s.run == RunBlocked else step == Failed && s.run == RunFailed)
    case Ran(CapabilityAwaitsApproval) => r.Returned? && step == AwaitingApproval && s.run == AwaitingUser
    case Approved(there) => !there && r.Returned? && step == AwaitingApproval && s.run == AwaitingUser
    case _ => false
  }

  /** What they are once a step does not apply. */
  ghost predicate PolicyIs(p: Playbook, s: RunState, i: nat, j: nat, r: Flow)
    requires Fits(p, s) && IsStep(p, At(i, j))
  {
    var (step, stage) := (s.stages[i].steps[j].status, s.stages[i].status);
    match p.stages[i].steps[j].onInapplicable
    case Skip => r.Continue? && step == SkippedInapplicable && stage == InProgress && s.run == Running
    case StopStage => r.StopTheStage? && step == StoppedByPolicy && stage == StoppedByPolicy && s.run == Running
    case MarkBlocked => r.Returned? && step == Blocked && stage == Blocked && s.run == RunBlocked
  }

  /** A stage or step has been reached that cannot go on for this reason. */
  ghost predicate Stuck(p: Playbook, s: RunState, error: EngineError) {
    || (error == DependencyUnmet && exists i: nat :: Ready(p, s, i) && !Met(p.stages[i].dependsOn, CompletedStageIds(s)))
    || (exists i: nat, j: nat :: ReadyStep(p, s, i, j) && StuckStep(p, s, i, j, error))
  }

  ghost predicate StuckStep(p: Playbook, s: RunState, i: nat, j: nat, error: EngineError)
    requires ReadyStep(p, s, i, j)
  {
    var step := s.stages[i].steps[j];
    || (error == DependencyUnmet && !Met(p.stages[i].steps[j].dependsOn, CompletedStepIds(s)))
    || NextExecutionAttempt(step.status, Some(step.attempts)) == Err(error)
  }

  class Engine {
    // The state file; its playbook digest.
    var saved: Option<RunState>
    var digest: string
    // How many saves and capabilities the process lives for.
    var lives: nat
    // The playbook with that digest, and what has been saved since the run was started.
    ghost var playbook: Playbook
    ghost var trace: seq<RunState>
    // What has been heard and acted on since then, and what has been heard since the last save.
    ghost var acted: Reports
    ghost var heard: Reports

    /** Whatever has been saved is a run of a valid playbook, and agrees with what has been
        heard. */
    ghost predicate Valid()
      reads this
    {
      saved.Some? ==>
        && Dataflow.WellFormed(playbook) && IsRun(playbook, trace) && saved.value == trace[|trace| - 1]
        && Fits(playbook, saved.value) && Agrees(playbook, saved.value, acted)
    }

    constructor ()
      ensures Valid() && saved.None?
    {
      saved, digest, playbook, trace := None, "", Playbook([]), [];
      acted, heard := map[], map[];
    }

    /** Nothing heard is left without an answer, unless the process has died or thrown; and
        it died only when its time was up. */
    ghost predicate Answered(r: Flow)
      reads this
    {
      if r.Died? then lives == 0 else r.Threw? || heard == map[]
    }

    /** `p` is being executed, from a saved state with run status RUNNING. */
    ghost predicate Executing(p: Playbook)
      reads this
    {
      Valid() && saved.Some? && playbook == p && Fits(p, saved.value) && saved.value.run.Running?
    }

    /** The run saved before has only been continued. */
    twostate predicate GoesOn()
      reads this
    {
      saved.Some? && playbook == old(playbook) && digest == old(digest) && old(trace) <= trace
    }

    /** The loop over steps of stage `i` has finished those before `j`. */
    ghost predicate InStage(p: Playbook, i: nat, j: nat)
      reads this
    {
      && Executing(p) && Ready(p, saved.value, i) && saved.value.stages[i].status.InProgress? && j <= |p.stages[i].steps|
      && forall l :: 0 <= l < j ==> StepDone(saved.value.stages[i].steps[l].status)
    }

    /** `updateState`: the new state is saved whole or not at all, in answer to what has
        been heard. */
    method Save(next: RunState, ghost e: Event) returns (alive: bool)
      requires Valid() && saved.Some? && Enabled(playbook, saved.value, e) && next == Apply(playbook, saved.value, e)
      requires AnswerTo(e, heard)
      modifies this
      ensures Valid() && GoesOn() && lives <= old(lives)
      ensures alive ==> saved == Some(next) && trace == old(trace) + [next] && heard == map[] && acted == old(acted) + old(heard)
      ensures !alive ==> lives == 0 && saved == old(saved)
    {
      hide Apply, Enabled, Inv, Agrees, AnswerTo, Fits, Next;
      if lives == 0 { return false; }
      RunKeepsInv(playbook, trace, |trace| - 1);
      UpdateAgrees(playbook, saved.value, e, acted, heard);
      RunGrows(playbook, trace, e);
      saved, trace := Some(next), trace + [next];
      acted, heard := acted + heard, map[];
      lives := lives - 1;
      return true;
    }

    // What is asked outside.

    method AskPlaybook() returns (same: bool)
      modifies this`heard
      ensures heard == old(heard)[ThePlaybook := Unchanged(same)]
    {
      same := *;
      heard := heard[ThePlaybook := Unchanged(same)];
    }

    method AskRepository() returns (same: bool)
      modifies this`heard
      ensures heard == old(heard)[TheRepository := Unchanged(same)]
    {
      same := *;
      heard := heard[TheRepository := Unchanged(same)];
    }

    method AskStage(i: nat) returns (applies: bool)
      modifies this`heard
      ensures heard == old(heard)[TheStage(i) := Applies(applies)]
    {
      applies := *;
      heard := heard[TheStage(i) := Applies(applies)];
    }

    method AskStep(i: nat, j: nat) returns (applies: bool)
      modifies this`heard
      ensures heard == old(heard)[TheStep(i, j) := Applies(applies)]
    {
      applies := *;
      heard := heard[TheStep(i, j) := Applies(applies)];
    }

    method AskApproval(i: nat, j: nat) returns (there: bool)
      modifies this`heard
      ensures heard == old(heard)[TheStep(i, j) := Approved(there)]
    {
      there := *;
      heard := heard[TheStep(i, j) := Approved(there)];
    }

    method MarkTainted() returns (r: Flow)
      requires Valid() && saved.Some? && Enabled(playbook, saved.value, BecameTainted) && AnswerTo(BecameTainted, heard)
      modifies this
      ensures Valid() && GoesOn() && lives <= old(lives) && Answered(r)
      ensures r.Returned? || r.Died?
      ensures r.Returned? ==> saved == Some(old(saved.value).(run := Tainted)) && trace == old(trace) + [saved.value]
    {
      var alive := Save(saved.value.(run := Tainted), BecameTainted);
      return if alive then Returned else Died;
    }

    method MarkStale() returns (r: Flow)
      requires Valid() && saved.Some? && Enabled(playbook, saved.value, BecameStale) && AnswerTo(BecameStale, heard)
      modifies this
      ensures Valid() && GoesOn() && lives <= old(lives) && Answered(r)
      ensures r.Returned? || r.Died?
      ensures r.Returned? ==> saved == Some(old(saved.value).(run := Stale)) && trace == old(trace) + [saved.value]
    {
      var alive := Save(saved.value.(run := Stale), BecameStale);
      return if alive then Returned else Died;
    }

    method MarkStageInapplicable(p: Playbook, i: nat) returns (r: Flow)
      requires Executing(p) && Enabled(p, saved.value, StageInapplicable(i)) && AnswerTo(StageInapplicable(i), heard)
      modifies this
      ensures Valid() && GoesOn() && lives <= old(lives) && Answered(r)
      ensures r.Continue? || r.Returned? || r.Died?
      ensures !r.Died? ==> saved == Some(Apply(p, old(saved.value), StageInapplicable(i)))
      ensures r.Continue? ==> !p.stages[i].onInapplicable.MarkBlocked?
      ensures r.Returned? ==> saved.value.run == RunBlocked
    {
      var policy := p.stages[i].onInapplicable;
      var current := saved.value;
      var target := current.stages[i];
      var run := current.run;
      if policy.MarkBlocked? {
        target := target.(status := Blocked);
        run := RunBlocked;
      } else if policy.StopStage? {
        target := target.(status := StoppedByPolicy);
      } else {
        target := target.(status := SkippedInapplicable);
      }
      var steps := Sweep(target.steps, if policy.MarkBlocked? then Blocked else if policy.StopStage? then StoppedByPolicy else SkippedInapplicable);
      target := target.(steps := steps);
      var alive := Save(RunState(run, current.stages[i := target]), StageInapplicable(i));
      if !alive { return Died; }
      return if policy.MarkBlocked? then Returned else Continue;
    }

    method MarkStepInapplicable(p: Playbook, i: nat, j: nat) returns (r: Flow)
      requires Executing(p) && Enabled(p, saved.value, StepInapplicable(i, j)) && AnswerTo(StepInapplicable(i, j), heard)
      modifies this
      ensures Valid() && GoesOn() && lives <= old(lives) && Answered(r)
      ensures r.Continue? || r.StopTheStage? || r.Returned? || r.Died?
      ensures !r.Died? ==> saved == Some(Apply(p, old(saved.value), StepInapplicable(i, j)))
      ensures !r.Died? ==> Fits(p, saved.value) && PolicyIs(p, saved.value, i, j, r) && acted == old(acted) + old(heard)
      ensures r.Continue? ==> InStage(p, i, j + 1)
      ensures r.StopTheStage? ==> Executing(p) && DoneBefore(p, saved.value, i + 1)
      ensures r.Returned? ==> !saved.value.run.Running?
    {
      InapplicableStepMovesOn(p, saved.value, i, j);
      var policy := p.stages[i].steps[j].onInapplicable;
      var current := saved.value;
      var stage := current.stages[i];
      var run := current.run;
      if policy.MarkBlocked? {
        stage := stage.(status := Blocked, steps := stage.steps[j := stage.steps[j].(status := Blocked)]);
        run := RunBlocked;
      } else if policy.StopStage? {
        stage := stage.(status := StoppedByPolicy, steps := stage.steps[j := stage.steps[j].(status := StoppedByPolicy)]);
        var steps := Sweep(stage.steps, StoppedByPolicy);
        stage := stage.(steps := steps);
      } else {
        stage := stage.(steps := stage.steps[j := stage.steps[j].(status := SkippedInapplicable)]);
      }
      var alive := Save(RunState(run, current.stages[i := stage]), StepInapplicable(i, j));
      if !alive { return Died; }
      return if policy.MarkBlocked? then Returned else if policy.StopStage? then StopTheStage else Continue;
    }

    method AwaitApproval(p: Playbook, i: nat, j: nat) returns (r: Flow)
      requires Executing(p) && Enabled(p, saved.value, ApprovalNeeded(i, j)) && AnswerTo(ApprovalNeeded(i, j), heard)
      modifies this
      ensures Valid() && GoesOn() && lives <= old(lives) && Answered(r)
      ensures r.Returned? || r.Died?
      ensures r.Returned? ==> saved == Some(Apply(p, old(saved.value), ApprovalNeeded(i, j))) && acted == old(acted) + old(heard)
      ensures r.Returned? ==> Fits(p, saved.value) && ResultIs(p, saved.value, i, j, Approved(false), r)
    {
      var current := saved.value;
      var stage := current.stages[i];
      stage := stage.(steps := stage.steps[j := stage.steps[j].(status := AwaitingApproval)]);
      var alive := Save(RunState(AwaitingUser, current.stages[i := stage]), ApprovalNeeded(i, j));
      return if alive then Returned else Died;
    }

    method FailStep(p: Playbook, i: nat, j: nat) returns (r: Flow)
      requires Executing(p) && Enabled(p, saved.value, StepFailed(i, j)) && AnswerTo(StepFailed(i, j), heard)
      modifies this
      ensures Valid() && GoesOn() && lives <= old(lives) && Answered(r)
      ensures r.Returned? || r.Died?
      ensures r.Returned? ==> saved == Some(Apply(p, old(saved.value), StepFailed(i, j))) && acted == old(acted) + old(heard)
      ensures r.Returned? ==> Fits(p, saved.value) && ResultIs(p, saved.value, i, j, Ran(CapabilityFailed), r)
    {
      var blocked := p.stages[i].steps[j].blockedOnFailure;
      var current := saved.value;
      var stage := current.stages[i];
      stage := stage.(steps := stage.steps[j := stage.steps[j].(status := if blocked then Blocked else Failed)]);
      stage := stage.(status := Failed);
      var alive := Save(RunState(if blocked then RunBlocked else RunFailed, current.stages[i := stage]), StepFailed(i, j));
      return if alive then Returned else Died;
    }

    /** What a capability does is not modelled; the process can die while it runs. */
    method RunCapability(i: nat, j: nat) returns (result: Option<CapabilityResult>)
      modifies this`heard, this`lives
      ensures lives <= old(lives) && (result.None? ==> lives == 0)
      ensures result.Some? ==> heard == old(heard)[TheStep(i, j) := Ran(result.value)]
    {
      if lives == 0 { return None; }
      lives := lives - 1;
      var ended: CapabilityResult := *;
      heard := heard[TheStep(i, j) := Ran(ended)];
      return Some(ended);
    }

    /** Recording that a step starts. */
    method StartStep(p: Playbook, i: nat, j: nat) returns (alive: bool)
      requires InStage(p, i, j) && Enabled(p, saved.value, StepStarted(i, j)) && AnswerTo(StepStarted(i, j), heard)
      modifies this
      ensures Valid() && GoesOn() && lives <= old(lives)
      ensures alive ==> saved == Some(Apply(p, old(saved.value), StepStarted(i, j))) && heard == map[]
      ensures !alive ==> lives == 0
      ensures alive ==> InStage(p, i, j) && j < |p.stages[i].steps| && Enabled(p, saved.value, StepSucceeded(i, j))
                        && Enabled(p, saved.value, ApprovalNeeded(i, j)) && Enabled(p, saved.value, StepFailed(i, j))
    {
      var current := saved.value;
      var stage := current.stages[i];
      var attempt := NextExecutionAttempt(stage.steps[j].status, Some(stage.steps[j].attempts));
      stage := stage.(steps := stage.steps[j := stage.steps[j].(status := InProgress, attempts := attempt.value)]);
      StartedStaysReady(p, saved.value, i, j);
      alive := Save(RunState(current.run, current.stages[i := stage]), StepStarted(i, j));
    }

    /** Starting a step, awaiting its approval, running it and recording the result. `told`
        is the last that is heard of it. */
    method RunStep(p: Playbook, i: nat, j: nat) returns (r: Flow, ghost told: Option<Report>)
      requires InStage(p, i, j) && Enabled(p, saved.value, StepStarted(i, j)) && AnswerTo(StepStarted(i, j), heard)
      modifies this
      ensures Valid() && GoesOn() && lives <= old(lives) && Answered(r)
      ensures r.Continue? || r.Returned? || r.Died?
      ensures !r.Died? ==> told.Some? && Says(acted, TheStep(i, j), told.value) && Fits(p, saved.value)
                           && (told.value.Approved? || told.value.Ran?) && ResultIs(p, saved.value, i, j, told.value, r)
      ensures r.Continue? ==> InStage(p, i, j + 1)
      ensures r.Returned? ==> !saved.value.run.Running?
    {
      hide Apply, Enabled, Ready, NextExecutionAttempt, CompletedStepIds, IsRun, Agrees, Fits;
      told := None;
      var alive := StartStep(p, i, j);
      if !alive { return Died, told; }
      var there := AskApproval(i, j);
      told := Some(Approved(there));
      if !there {
        r := AwaitApproval(p, i, j);
        return;
      }
      r, told := RunApproved(p, i, j);
    }

    /** The capability runs, and its result is saved. */
    method RunApproved(p: Playbook, i: nat, j: nat) returns (r: Flow, ghost told: Option<Report>)
      requires InStage(p, i, j) && j < |p.stages[i].steps| && (heard == map[] || heard == map[TheStep(i, j) := Approved(true)])
      requires Enabled(p, saved.value, StepSucceeded(i, j)) && Enabled(p, saved.value, ApprovalNeeded(i, j))
      requires Enabled(p, saved.value, StepFailed(i, j))
      modifies this
      ensures Valid() && GoesOn() && lives <= old(lives) && Answered(r)
      ensures r.Continue? || r.Returned? || r.Died?
      ensures !r.Died? ==> told.Some? && Says(acted, TheStep(i, j), told.value) && Fits(p, saved.value)
                           && told.value.Ran? && ResultIs(p, saved.value, i, j, told.value, r)
      ensures r.Continue? ==> InStage(p, i, j + 1)
      ensures r.Returned? ==> !saved.value.run.Running?
    {
      hide Apply, Enabled, Ready, NextExecutionAttempt, CompletedStepIds, IsRun, Agrees, Fits;
      told := None;
      var result := RunCapability(i, j);
      if result.None? { return Died, told; }
      told := Some(Ran(result.value));
      match result {
        case Some(CapabilityAwaitsApproval) => r := AwaitApproval(p, i, j);
        case Some(CapabilityFailed) => r := FailStep(p, i, j);
        case Some(CapabilitySucceeded) => r := SucceedStep(p, i, j);
      }
    }

    method SucceedStep(p: Playbook, i: nat, j: nat) returns (r: Flow)
      requires InStage(p, i, j) && Enabled(p, saved.value, StepSucceeded(i, j)) && AnswerTo(StepSucceeded(i, j), heard)
      modifies this
      ensures Valid() && GoesOn() && lives <= old(lives) && Answered(r)
      ensures r.Continue? || r.Died?
      ensures r.Continue? ==> InStage(p, i, j + 1) && acted == old(acted) + old(heard)
      ensures r.Continue? ==> ResultIs(p, saved.value, i, j, Ran(CapabilitySucceeded), r)
    {
      var current := saved.value;
      var stage := current.stages[i];
      stage := stage.(steps := stage.steps[j := stage.steps[j].(status := Succeeded)]);
      SucceededMovesOn(p, current, i, j);
      var alive := Save(RunState(current.run, current.stages[i := stage]), StepSucceeded(i, j));
      return if alive then Continue else Died;
    }

    /** The body of the loop over steps. A step that is done is passed over; for any other
        one it ends, while the process lives, in what was last heard of it, or because the
        playbook has changed, or because the step cannot be started. */
    method ExecuteStep(p: Playbook, i: nat, j: nat) returns (r: Flow, ghost told: Option<Report>)
      requires InStage(p, i, j) && j < |p.stages[i].steps| && heard == map[]
      modifies this
      ensures Valid() && GoesOn() && lives <= old(lives) && Answered(r)
      ensures old(StepDone(saved.value.stages[i].steps[j].status)) ==> r.Continue? && saved == old(saved)
      ensures !old(StepDone(saved.value.stages[i].steps[j].status)) && !r.Died? && !r.Threw? ==>
                && told.Some? && Fits(p, saved.value)
                && (Says(acted, TheStep(i, j), told.value) || told == Some(Unchanged(false)))
                && (match told.value
                    case Unchanged(same) => !same && r.Returned? && saved.value.run == Tainted
                    case Applies(applies) => !applies && PolicyIs(p, saved.value, i, j, r)
                    case _ => ResultIs(p, saved.value, i, j, told.value, r))
      ensures r.Threw? ==> saved == old(saved) && Stuck(p, saved.value, r.error)
      ensures r.Continue? ==> InStage(p, i, j + 1)
      ensures r.StopTheStage? ==> Executing(p) && DoneBefore(p, saved.value, i + 1)
      ensures r.Returned? ==> !saved.value.run.Running?
    {
      hide Agrees, IsRun, CompletedStepIds, CompletedStageIds, Apply, PolicyIs, ResultIs;
      told := None;
      StepIsFound(p, saved.value, i, j);
      var stepState := saved.value.stages[i].steps[FindStep(saved.value.stages[i].steps, p.stages[i].steps[j].id).value];
      if StepDone(stepState.status) { return Continue, told; }
      assert ReadyStep(p, saved.value, i, j);
      hide FindStep;
      var untouched := AskPlaybook();
      if !untouched {
        told := Some(Unchanged(false));
        r := MarkTainted();
        return;
      }
      if !Met(p.stages[i].steps[j].dependsOn, CompletedStepIds(saved.value)) { return Threw(DependencyUnmet), told; }
      var applicable := AskStep(i, j);
      if !applicable {
        told := Some(Applies(false));
        r := MarkStepInapplicable(p, i, j);
        return;
      }
      var attempt := NextExecutionAttempt(stepState.status, Some(stepState.attempts));
      if attempt.Err? {
        assert StuckStep(p, saved.value, i, j, attempt.error);
        return Threw(attempt.error), told;
      }
      r, told := RunStep(p, i, j);
    }

    /** The body of the loop over stages. */
    method ExecuteStage(p: Playbook, i: nat) returns (r: Flow)
      requires Executing(p) && i < |p.stages| && DoneBefore(p, saved.value, i) && heard == map[]
      modifies this
      ensures Valid() && GoesOn() && !r.StopTheStage? && lives <= old(lives) && Answered(r)
      ensures r.Continue? ==> Executing(p) && DoneBefore(p, saved.value, i + 1)
      ensures r.Returned? ==> !saved.value.run.Running?
      ensures r.Threw? ==> Stuck(p, saved.value, r.error)
    {
      hide Agrees, IsRun, CompletedStepIds, CompletedStageIds, NextExecutionAttempt;
      StageIsFound(p, saved.value, i);
      var existing := saved.value.stages[FindStage(saved.value.stages, p.stages[i].id).value];
      if StageDone(existing.status) { return Continue; }
      if !Met(p.stages[i].dependsOn, CompletedStageIds(saved.value)) { return Threw(DependencyUnmet); }
      var applicable := AskStage(i);
      if !applicable {
        InapplicableStageMovesOn(p, saved.value, i);
        r := MarkStageInapplicable(p, i);
        return;
      }
      StartedStageIsReady(p, saved.value, i);
      var alive := Save(saved.value.(stages := saved.value.stages[i := saved.value.stages[i].(status := InProgress)]), StageStarted(i));
      if !alive { return Died; }
      for j: nat := 0 to |p.stages[i].steps|
        invariant GoesOn() && InStage(p, i, j) && lives <= old(lives) && heard == map[]
      {
        var flow, _ := ExecuteStep(p, i, j);
        if flow.StopTheStage? { return Continue; }
        if !flow.Continue? { return flow; }
      }
      r := CloseStage(p, i);
    }

    /** The end of a stage. Its status is then always SUCCEEDED, so the run goes on. */
    method CloseStage(p: Playbook, i: nat) returns (r: Flow)
      requires Executing(p) && i < |p.stages| && InStage(p, i, |p.stages[i].steps|) && heard == map[]
      modifies this
      ensures Valid() && GoesOn() && lives <= old(lives) && Answered(r)
      ensures r.Continue? || r.Died?
      ensures r.Continue? ==>
                Executing(p) && saved.value.stages[i].status == Succeeded && DoneBefore(p, saved.value, i + 1)
    {
      var target := saved.value.stages[i];
      var allSucceeded := forall step <- target.steps :: Settled(step.status);
      ClosedStageMovesOn(p, trace, i);
      var alive := Save(saved.value.(stages := saved.value.stages[i := target.(status := if allSucceeded then Succeeded else Failed)]), StageClosed(i));
      return if alive then Continue else Died;
    }

    /** The loop over stages. When it returns the run has come to a stop, and when it throws
        a stage or step cannot go on. */
    method Execute(p: Playbook) returns (r: Flow)
      requires Executing(p) && heard == map[]
      modifies this
      ensures Valid() && GoesOn() && !r.Continue? && !r.StopTheStage? && lives <= old(lives) && Answered(r)
      ensures r.Returned? ==> !saved.value.run.Running?
      ensures r.Threw? ==> Stuck(p, saved.value, r.error)
    {
      for i: nat := 0 to |p.stages|
        invariant Executing(p) && GoesOn() && DoneBefore(p, saved.value, i) && lives <= old(lives) && heard == map[]
      {
        var flow := ExecuteStage(p, i);
        if !flow.Continue? { return flow; }
      }
      var alive := Save(saved.value.(run := Completed), RunCompleted);
      return if alive then Returned else Died;
    }

    /** Loading the active playbook, and refusing one that is not sequential. */
    method LoadPlaybook(file: PlaybookFile) returns (r: Result<Playbook, EngineError>)
      ensures r.Ok? <==> Loadable(file)
      ensures r.Ok? ==> r.value == file.data
      ensures r.Err? ==> Refuses(file, r.error)
    {
      if file.Missing? { return Err(MissingPlaybook); }
      if file.NotJson? { return Err(InvalidJson); }
      if !file.matchesSchema { return Err(InvalidPlaybook); }
      var issues := Dataflow.Validate(file.data);
      if issues != [] { return Err(InvalidPlaybook); }
      if file.placeholder { return Err(UnpinnedCapability); }
      if exists stage <- file.data.stages :: !stage.sequential { return Err(UnsupportedExecution); }
      return Ok(file.data);
    }

    /** `startRun`: a new run replaces whatever was saved. */
    method StartRun(file: PlaybookFile) returns (r: Flow)
      requires Valid()
      modifies this
      ensures Valid() && !r.Continue? && !r.StopTheStage? && Answered(r)
      ensures (saved == old(saved) && playbook == old(playbook) && digest == old(digest) && (r.Died? || !Loadable(file)))
              || (saved.Some? && Loadable(file) && playbook == file.data && digest == file.digest)
      ensures r.Returned? ==> saved.Some? && !saved.value.run.Running?
      ensures if Loadable(file) then r.Threw? ==> saved.Some? && Stuck(playbook, saved.value, r.error)
              else r.Threw? && Refuses(file, r.error)
    {
      var load := LoadPlaybook(file);
      if load.Err? { return Threw(load.error); }
      var loaded := load.value;
      if lives == 0 { return Died; }
      NothingHeard(loaded);
      saved, digest := Some(Initial(loaded)), file.digest;
      playbook, trace := loaded, [Initial(loaded)];
      acted, heard := map[], map[];
      lives := lives - 1;
      r := Execute(loaded);
    }

    /** `continueRun` in a new process: after any crash, the saved run goes on, is tainted
        or becomes stale. */
    method ContinueRun(file: PlaybookFile, lives: nat) returns (r: Flow)
      requires Valid() && (saved.Some? && file.PlaybookFile? && file.digest == digest ==> file.data == playbook)
      modifies this
      ensures Valid() && !r.Continue? && !r.StopTheStage? && Answered(r)
      ensures old(saved.Some?) ==> GoesOn()
      ensures r.Returned? ==> saved.Some? && !saved.value.run.Running?
      ensures old(saved.Some?) && r.Returned? && !old(Ended(saved.value.run)) && file.PlaybookFile? && digest != file.digest ==> saved.value.run == Tainted
      ensures if Loadable(file) then r.Threw? ==> saved.Some? && Stuck(playbook, saved.value, r.error)
              else r.Threw? && Refuses(file, r.error) && saved == old(saved)
      ensures old(saved.Some?) && Loadable(file) ==>
                if old(Ended(saved.value.run)) then r.Returned? && saved == old(saved)
                else r.Died? || (old(|trace|) < |trace| && trace[old(|trace|)].run in {Running, Tainted, Stale})
    {
      this.lives, heard := lives, map[];
      if saved.None? {
        r := StartRun(file);
        return;
      }
      var load := LoadPlaybook(file);
      if load.Err? { return Threw(load.error); }
      var loaded := load.value;
      RunKeepsInv(playbook, trace, |trace| - 1);
      if Ended(saved.value.run) { return Returned; }
      heard := heard[ThePlaybook := Unchanged(digest == file.digest)];
      if digest != file.digest {
        r := MarkTainted();
        return;
      }
      var identitySame := AskRepository();
      if !identitySame {
        r := MarkStale();
        return;
      }
      var alive := Save(saved.value.(run := Running), Resumed);
      if !alive { return Died; }
      r := Execute(loaded);
    }
  }

  /** Runs that are not continued. */
  /** A playbook the engine can run. */
  ghost predicate Loadable(file: PlaybookFile) {
    && file.PlaybookFile? && file.matchesSchema && Dataflow.WellFormed(file.data) && !file.placeholder
    && forall stage <- file.data.stages :: stage.sequential
  }

  /** Why it cannot, the first reason in the program's order. */
  ghost predicate Refuses(file: PlaybookFile, error: EngineError) {
    match file
    case Missing => error == MissingPlaybook
    case NotJson => error == InvalidJson
    case PlaybookFile(data, matchesSchema, placeholder, _) =>
      if !matchesSchema || !Dataflow.WellFormed(data) then error == InvalidPlaybook
      else if placeholder then error == UnpinnedCapability
      else error == UnsupportedExecution && exists stage :: stage in data.stages && !stage.sequential
  }

  predicate Ended(run: RunStatus) {
    run.Completed? || run.Tainted? || run.Stale?
  }

  // ---------------------------------------------------------------- the loops move on

  lemma StartedStaysReady(p: Playbook, s: RunState, i: nat, j: nat)
    requires Enabled(p, s, StepStarted(i, j))
    ensures var t := Apply(p, s, StepStarted(i, j));
            ReadyStep(p, t, i, j) && t.stages[i].steps[j].status.InProgress?
  {
  }

  lemma SucceededMovesOn(p: Playbook, s: RunState, i: nat, j: nat)
    requires Enabled(p, s, StepSucceeded(i, j))
    ensures var t := Apply(p, s, StepSucceeded(i, j));
            Ready(p, t, i) && t.stages[i].status.InProgress? && forall l :: 0 <= l <= j ==> StepDone(t.stages[i].steps[l].status)
  {
  }

  lemma InapplicableStepMovesOn(p: Playbook, s: RunState, i: nat, j: nat)
    requires Enabled(p, s, StepInapplicable(i, j))
    ensures var t := Apply(p, s, StepInapplicable(i, j));
            var policy := p.stages[i].steps[j].onInapplicable;
            && (policy.Skip? ==> Ready(p, t, i) && t.stages[i].status.InProgress?
                                 && forall l :: 0 <= l <= j ==> StepDone(t.stages[i].steps[l].status))
            && (policy.StopStage? ==> Fits(p, t) && t.run.Running? && DoneBefore(p, t, i + 1))
  {
  }

  lemma InapplicableStageMovesOn(p: Playbook, s: RunState, i: nat)
    requires Enabled(p, s, StageInapplicable(i))
    ensures var t := Apply(p, s, StageInapplicable(i));
            !p.stages[i].onInapplicable.MarkBlocked? ==> Fits(p, t) && t.run.Running? && DoneBefore(p, t, i + 1)
  {
  }

  lemma StartedStageIsReady(p: Playbook, s: RunState, i: nat)
    requires Enabled(p, s, StageStarted(i))
    ensures var t := Apply(p, s, StageStarted(i)); Ready(p, t, i) && t.stages[i].status.InProgress?
  {
  }

  lemma ClosedStageMovesOn(p: Playbook, trace: seq<RunState>, i: nat)
    requires IsRun(p, trace) && Enabled(p, trace[|trace| - 1], StageClosed(i))
    ensures var t := Apply(p, trace[|trace| - 1], StageClosed(i));
            Fits(p, t) && t.run.Running? && t.stages[i].status == Succeeded && DoneBefore(p, t, i + 1)
  {
    StageNeverFailsAtItsEnd(p, trace, |trace| - 1, i);
  }
}
