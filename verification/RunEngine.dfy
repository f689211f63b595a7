/** The run engine (`src/engine/runtime-engine.ts`, `dependencies.ts`, `attempt-policy.ts`)
    as a transition system over the saved run state: which updates it may make, and what
    holds of every state reached by any sequence of runs, crashes and resumes. */
module RunEngine {
  import opened Wrappers
  import opened Playbook
  import Dataflow = DataflowContract

  datatype Status =
    | Pending | InProgress | AwaitingApproval | Succeeded | Failed | Blocked
    | SkippedInapplicable | SkippedByUser | StoppedByPolicy

  datatype RunStatus = Running | AwaitingUser | Completed | Stopped | RunBlocked | RunFailed | Tainted | Stale

  datatype StepState = StepState(id: string, status: Status, attempts: nat)

  datatype StageState = StageState(id: string, status: Status, steps: seq<StepState>)

  datatype RunState = RunState(run: RunStatus, stages: seq<StageState>)

  datatype EngineError =
    | MissingPlaybook | InvalidJson | InvalidPlaybook | UnpinnedCapability | UnsupportedExecution
    | DependencyUnmet | InvalidAttempts | MissingStage | MissingStep | StateNotFound

  /** The statuses the loop over stages passes over. */
  predicate StageDone(status: Status) {
    status.Succeeded? || status.SkippedInapplicable? || status.StoppedByPolicy?
  }

  /** The statuses the loop over steps passes over, and those that satisfy a dependency. */
  predicate StepDone(status: Status) {
    status.Succeeded? || status.SkippedInapplicable? || status.SkippedByUser? || status.StoppedByPolicy?
  }

  /** The steps that let their stage succeed. */
  predicate Settled(status: Status) {
    status.Succeeded? || status.SkippedInapplicable? || status.SkippedByUser?
  }

  predicate Active(status: Status) {
    status.InProgress? || status.AwaitingApproval?
  }

  /** The statuses only a step that has been started can have. */
  predicate Started(status: Status) {
    Active(status) || status.Succeeded? || status.Failed?
  }

  // ---------------------------------------------------------------- dependencies and attempts

  function CompletedStageIds(s: RunState): set<string> {
    set i | 0 <= i < |s.stages| && StepDone(s.stages[i].status) :: s.stages[i].id
  }

  function CompletedStepIds(s: RunState): set<string> {
    set i, j | 0 <= i < |s.stages| && 0 <= j < |s.stages[i].steps| && StepDone(s.stages[i].steps[j].status) :: s.stages[i].steps[j].id
  }

  predicate Met(dependsOn: seq<string>, completed: set<string>) {
    forall id <- dependsOn :: id in completed
  }

  const MAX_SAFE_INTEGER := 9007199254740991

  /** `nextExecutionAttempt`. */
  function NextExecutionAttempt(status: Status, attempts: Option<int>): (next: Result<int, EngineError>)
    ensures next.Ok? ==> next.value >= 1
  {
    var count := if attempts.Some? then attempts.value else 0;
    if !(-MAX_SAFE_INTEGER <= count <= MAX_SAFE_INTEGER) || count < 0 then Err(InvalidAttempts)
    else if Active(status) then if count < 1 then Err(InvalidAttempts) else Ok(count)
    else Ok(count + 1)
  }

  // ---------------------------------------------------------------- updates

  function Initial(p: Playbook): RunState {
    RunState(Running, seq(|p.stages|, i requires 0 <= i < |p.stages| => InitialStage(p.stages[i])))
  }

  function InitialStage(stage: Stage): StageState {
    StageState(stage.id, Pending,
               seq(|stage.steps|, j requires 0 <= j < |stage.steps| => StepState(stage.steps[j].id, Pending, 0)))
  }

  /** The status an inapplicable stage or step is given. */
  function InapplicableStatus(policy: OnInapplicable): Status {
    match policy
    case Skip => SkippedInapplicable
    case StopStage => StoppedByPolicy
    case MarkBlocked => Blocked
  }

  /** The pending steps take the status `to`. */
  function Swept(steps: seq<StepState>, to: Status): seq<StepState> {
    seq(|steps|, k requires 0 <= k < |steps| => if steps[k].status.Pending? then steps[k].(status := to) else steps[k])
  }

  function WithStatus(steps: seq<StepState>, j: nat, status: Status): seq<StepState>
    requires j < |steps|
  {
    steps[j := steps[j].(status := status)]
  }

  datatype Event =
    | Resumed | BecameTainted | BecameStale
    | StageInapplicable(stage: nat) | StageStarted(stage: nat) | StageClosed(stage: nat)
    | StepInapplicable(stage: nat, step: nat) | StepStarted(stage: nat, step: nat) | ApprovalNeeded(stage: nat, step: nat)
    | StepFailed(stage: nat, step: nat) | StepSucceeded(stage: nat, step: nat)
    | RunCompleted

  /** The saved state has the playbook's stages and steps. */
  ghost predicate Fits(p: Playbook, s: RunState) {
    |s.stages| == |p.stages| && forall i :: 0 <= i < |p.stages| ==> StageFits(p.stages[i], s.stages[i])
  }

  ghost predicate StageFits(stage: Stage, st: StageState) {
    st.id == stage.id && |st.steps| == |stage.steps| && forall j :: 0 <= j < |stage.steps| ==> st.steps[j].id == stage.steps[j].id
  }

  /** No earlier stage has the same id: a stage is looked up by its id. */
  ghost predicate First(p: Playbook, i: nat)
    requires i < |p.stages|
  {
    forall k :: 0 <= k < i ==> p.stages[k].id != p.stages[i].id
  }

  ghost predicate DoneBefore(p: Playbook, s: RunState, i: nat)
    requires Fits(p, s) && i <= |p.stages|
  {
    forall k :: 0 <= k < i && First(p, k) ==> StageDone(s.stages[k].status)
  }

  /** The loop over stages has reached stage `i`. */
  ghost predicate Ready(p: Playbook, s: RunState, i: nat) {
    && Fits(p, s) && i < |p.stages| && First(p, i) && s.run.Running?
    && !StageDone(s.stages[i].status) && DoneBefore(p, s, i)
  }

  /** The loop over steps has reached step `j` of stage `i`. */
  ghost predicate ReadyStep(p: Playbook, s: RunState, i: nat, j: nat) {
    && Ready(p, s, i) && s.stages[i].status.InProgress? && j < |s.stages[i].steps|
    && !StepDone(s.stages[i].steps[j].status)
    && forall l :: 0 <= l < j ==> StepDone(s.stages[i].steps[l].status)
  }

  /** When the engine may make an update. */
  ghost predicate Enabled(p: Playbook, s: RunState, e: Event) {
    && Fits(p, s)
    && match e
       case Resumed => !s.run.Completed? && !s.run.Tainted? && !s.run.Stale?
       case BecameTainted => !s.run.Completed? && !s.run.Tainted? && !s.run.Stale?
       case BecameStale => !s.run.Completed? && !s.run.Tainted? && !s.run.Stale?
       case StageInapplicable(i) => Ready(p, s, i) && Met(p.stages[i].dependsOn, CompletedStageIds(s))
       case StageStarted(i) => Ready(p, s, i) && Met(p.stages[i].dependsOn, CompletedStageIds(s))
       case StageClosed(i) => Ready(p, s, i) && s.stages[i].status.InProgress? && forall step <- s.stages[i].steps :: StepDone(step.status)
       case StepInapplicable(i, j) => ReadyStep(p, s, i, j) && Met(p.stages[i].steps[j].dependsOn, CompletedStepIds(s))
       case StepStarted(i, j) =>
         ReadyStep(p, s, i, j) && Met(p.stages[i].steps[j].dependsOn, CompletedStepIds(s))
         && NextExecutionAttempt(s.stages[i].steps[j].status, Some(s.stages[i].steps[j].attempts)).Ok?
       case RunCompleted => s.run.Running? && DoneBefore(p, s, |p.stages|)
       case _ => ReadyStep(p, s, e.stage, e.step) && s.stages[e.stage].steps[e.step].status.InProgress?
  }

  /** The saved state after an update. */
  ghost function Apply(p: Playbook, s: RunState, e: Event): RunState
    requires Enabled(p, s, e)
  {
    match e
    case Resumed => s.(run := Running)
    case BecameTainted => s.(run := Tainted)
    case BecameStale => s.(run := Stale)
    case RunCompleted => s.(run := Completed)
    case _ => RunState(RunAfter(p, s, e), s.stages[e.stage := StageAfter(p, s.stages[e.stage], e)])
  }

  ghost function RunAfter(p: Playbook, s: RunState, e: Event): RunStatus
    requires Enabled(p, s, e) && !e.Resumed? && !e.BecameTainted? && !e.BecameStale? && !e.RunCompleted?
  {
    match e
    case StageInapplicable(i) => if p.stages[i].onInapplicable.MarkBlocked? then RunBlocked else s.run
    case StepInapplicable(i, j) => if p.stages[i].steps[j].onInapplicable.MarkBlocked? then RunBlocked else s.run
    case ApprovalNeeded(_, _) => AwaitingUser
    case StepFailed(i, j) => if p.stages[i].steps[j].blockedOnFailure then RunBlocked else RunFailed
    case _ => s.run
  }

  ghost function StageAfter(p: Playbook, st: StageState, e: Event): StageState
    requires !e.Resumed? && !e.BecameTainted? && !e.BecameStale? && !e.RunCompleted?
    requires e.stage < |p.stages| && StageFits(p.stages[e.stage], st)
    requires e.StageInapplicable? || e.StageStarted? || e.StageClosed? || e.step < |st.steps|
  {
    match e
    case StageInapplicable(i) =>
      var status := InapplicableStatus(p.stages[i].onInapplicable);
      st.(status := status, steps := Swept(st.steps, status))
    case StageStarted(_) => st.(status := InProgress)
    case StageClosed(_) => st.(status := if forall step <- st.steps :: Settled(step.status) then Succeeded else Failed)
    case StepInapplicable(i, j) =>
      var policy := p.stages[i].steps[j].onInapplicable;
      var marked := WithStatus(st.steps, j, InapplicableStatus(policy));
      (match policy
       case Skip => st.(steps := marked)
       case StopStage => st.(status := StoppedByPolicy, steps := Swept(marked, StoppedByPolicy))
       case MarkBlocked => st.(status := Blocked, steps := marked))
    case StepStarted(_, j) =>
      var attempts := NextExecutionAttempt(st.steps[j].status, Some(st.steps[j].attempts));
      st.(steps := st.steps[j := st.steps[j].(status := InProgress, attempts := if attempts.Ok? then attempts.value else 0)])
    case ApprovalNeeded(_, j) => st.(steps := WithStatus(st.steps, j, AwaitingApproval))
    case StepFailed(i, j) =>
      st.(status := Failed, steps := WithStatus(st.steps, j, if p.stages[i].steps[j].blockedOnFailure then Blocked else Failed))
    case StepSucceeded(_, j) => st.(steps := WithStatus(st.steps, j, Succeeded))
  }

  ghost predicate Next(p: Playbook, s: RunState, t: RunState) {
    exists e :: Enabled(p, s, e) && t == Apply(p, s, e)
  }

  /** The states saved since a run was started. A crash loses only what was not yet saved. */
  ghost predicate IsRun(p: Playbook, trace: seq<RunState>) {
    && |trace| > 0 && trace[0] == Initial(p)
    && forall k :: 0 <= k < |trace| - 1 ==> Next(p, trace[k], trace[k + 1])
  }

  // ---------------------------------------------------------------- the invariant

  /** Finished steps, then at most one that is not, then only steps not yet reached. */
  ghost predicate InOrder(steps: seq<StepState>) {
    forall j, l :: 0 <= j < l < |steps| && !steps[l].status.Pending? && !steps[l].status.Blocked? ==> StepDone(steps[j].status)
  }

  ghost predicate StageOk(st: StageState) {
    && !st.status.AwaitingApproval? && !st.status.SkippedByUser?
    && (st.status.Pending? ==> forall step <- st.steps :: step.status.Pending?)
    && (st.status.Succeeded? ==> forall step <- st.steps :: Settled(step.status))
    && (StageDone(st.status) ==> forall step <- st.steps :: !step.status.Pending?)
    && (!StageDone(st.status) ==> InOrder(st.steps) && forall step <- st.steps :: !step.status.StoppedByPolicy?)
    && (forall step <- st.steps :: Active(step.status) ==> step.attempts >= 1)
  }

  ghost predicate StagesInOrder(p: Playbook, s: RunState)
    requires Fits(p, s)
  {
    forall i, k :: 0 <= i < k < |p.stages| && First(p, i) && First(p, k) && !s.stages[k].status.Pending? ==> StageDone(s.stages[i].status)
  }

  /** What has been started had everything it depends on. */
  ghost predicate DependenciesMet(p: Playbook, s: RunState)
    requires Fits(p, s)
  {
    && (forall i :: 0 <= i < |p.stages| && !s.stages[i].status.Pending? ==> Met(p.stages[i].dependsOn, CompletedStageIds(s)))
    && (forall at :: IsStep(p, at) && Started(s.stages[at.stage].steps[at.step].status) ==> Met(StepAt(p, at).dependsOn, CompletedStepIds(s)))
  }

  ghost predicate Inv(p: Playbook, s: RunState) {
    && Fits(p, s)
    && (forall i :: 0 <= i < |p.stages| ==> StageOk(s.stages[i]))
    && StagesInOrder(p, s)
    && (forall i :: 0 <= i < |p.stages| && !First(p, i) ==> s.stages[i].status.Pending?)
    && DependenciesMet(p, s)
    && (s.run.Completed? ==> DoneBefore(p, s, |p.stages|))
  }

  /** Whatever is done stays as it is. */
  ghost predicate Extends(s: RunState, t: RunState) {
    && |s.stages| == |t.stages|
    && (forall i :: 0 <= i < |s.stages| && StageDone(s.stages[i].status) ==> t.stages[i] == s.stages[i])
    && (forall i :: 0 <= i < |s.stages| ==> s.stages[i].id == t.stages[i].id && StepsExtend(s.stages[i].steps, t.stages[i].steps))
  }

  ghost predicate StepsExtend(a: seq<StepState>, b: seq<StepState>) {
    |a| == |b| && forall j :: 0 <= j < |a| ==> a[j].id == b[j].id && a[j].attempts <= b[j].attempts && (StepDone(a[j].status) ==> b[j] == a[j])
  }

  lemma CompletedGrows(s: RunState, t: RunState)
    requires Extends(s, t)
    requires forall i :: 0 <= i < |s.stages| ==> !s.stages[i].status.SkippedByUser?
    ensures CompletedStageIds(s) <= CompletedStageIds(t) && CompletedStepIds(s) <= CompletedStepIds(t)
  {
    forall id | id in CompletedStageIds(s)
      ensures id in CompletedStageIds(t)
    {
      var i :| 0 <= i < |s.stages| && StepDone(s.stages[i].status) && s.stages[i].id == id;
      assert t.stages[i] == s.stages[i];
    }
    forall id | id in CompletedStepIds(s)
      ensures id in CompletedStepIds(t)
    {
      var i, j :| 0 <= i < |s.stages| && 0 <= j < |s.stages[i].steps| && StepDone(s.stages[i].steps[j].status) && s.stages[i].steps[j].id == id;
      assert StepsExtend(s.stages[i].steps, t.stages[i].steps);
      assert t.stages[i].steps[j].id == id;
    }
  }

  lemma InitialHolds(p: Playbook)
    ensures Inv(p, Initial(p))
  {
  }

  // ---------------------------------------------------------------- one stage replaced

  /** The conditions on the stage an update writes. */
  ghost predicate GoodStage(p: Playbook, s: RunState, i: nat, st: StageState)
    requires Fits(p, s) && i < |p.stages|
  {
    && StageFits(p.stages[i], st) && StageOk(st) && !st.status.Pending?
    && StepsExtend(s.stages[i].steps, st.steps)
    && forall j :: 0 <= j < |st.steps| && Started(st.steps[j].status) && !Started(s.stages[i].steps[j].status) ==>
                     Met(p.stages[i].steps[j].dependsOn, CompletedStepIds(s))
  }

  lemma StageReplaced(p: Playbook, s: RunState, i: nat, st: StageState, run: RunStatus)
    requires Inv(p, s) && Ready(p, s, i) && Met(p.stages[i].dependsOn, CompletedStageIds(s))
    requires GoodStage(p, s, i, st) && !run.Completed?
    ensures Inv(p, RunState(run, s.stages[i := st])) && Extends(s, RunState(run, s.stages[i := st]))
  {
    var t := RunState(run, s.stages[i := st]);
    assert Fits(p, t);
    assert Extends(s, t);
    CompletedGrows(s, t);
    assert StagesInOrder(p, t);
    DependenciesKept(p, s, i, st, t);
  }

  lemma DependenciesKept(p: Playbook, s: RunState, i: nat, st: StageState, t: RunState)
    requires Fits(p, s) && Fits(p, t) && DependenciesMet(p, s) && i < |p.stages|
    requires t.stages == s.stages[i := st] && GoodStage(p, s, i, st) && Met(p.stages[i].dependsOn, CompletedStageIds(s))
    requires CompletedStageIds(s) <= CompletedStageIds(t) && CompletedStepIds(s) <= CompletedStepIds(t)
    ensures DependenciesMet(p, t)
  {
    hide CompletedStageIds, CompletedStepIds, StageOk;
    forall k | 0 <= k < |p.stages| && !t.stages[k].status.Pending?
      ensures Met(p.stages[k].dependsOn, CompletedStageIds(t))
    {
      assert Met(p.stages[k].dependsOn, CompletedStageIds(s));
    }
    forall at | IsStep(p, at) && Started(t.stages[at.stage].steps[at.step].status)
      ensures Met(StepAt(p, at).dependsOn, CompletedStepIds(t))
    {
      assert Met(StepAt(p, at).dependsOn, CompletedStepIds(s));
    }
  }

  // ---------------------------------------------------------------- every update keeps the invariant

  lemma RunStatusKeeps(p: Playbook, s: RunState, run: RunStatus)
    requires Inv(p, s) && (run.Completed? ==> DoneBefore(p, s, |p.stages|))
    ensures Inv(p, s.(run := run)) && Extends(s, s.(run := run))
  {
    var t := s.(run := run);
    assert CompletedStageIds(t) == CompletedStageIds(s) && CompletedStepIds(t) == CompletedStepIds(s);
    assert Fits(p, t);
  }

  /** Sweeping touches only pending steps. */
  lemma SweptExtends(steps: seq<StepState>, to: Status)
    requires !Started(to) && !to.Pending?
    ensures StepsExtend(steps, Swept(steps, to))
    ensures forall j :: 0 <= j < |steps| ==>
              Swept(steps, to)[j] == if steps[j].status.Pending? then StepState(steps[j].id, to, steps[j].attempts) else steps[j]
    ensures to.Blocked? && InOrder(steps) ==> InOrder(Swept(steps, to))
  {
  }

  lemma StageInapplicableGood(p: Playbook, s: RunState, e: Event)
    requires Inv(p, s) && Enabled(p, s, e) && e.StageInapplicable?
    ensures GoodStage(p, s, e.stage, StageAfter(p, s.stages[e.stage], e))
  {
    hide CompletedStageIds, CompletedStepIds, StagesInOrder, DependenciesMet, NextExecutionAttempt, Met, First,
            StepsExtend, InOrder, Swept;
    var st := s.stages[e.stage];
    assert StageOk(st);
    SweptExtends(st.steps, InapplicableStatus(p.stages[e.stage].onInapplicable));
  }

  lemma StageEventGood(p: Playbook, s: RunState, e: Event)
    requires Inv(p, s) && Enabled(p, s, e) && (e.StageStarted? || e.StageClosed?)
    ensures GoodStage(p, s, e.stage, StageAfter(p, s.stages[e.stage], e))
  {
    hide CompletedStageIds, CompletedStepIds, StagesInOrder, DependenciesMet, NextExecutionAttempt, Met, First;
    assert StageOk(s.stages[e.stage]);
  }

  /** Writing the first unfinished step keeps the order. */
  lemma MarkedInOrder(steps: seq<StepState>, j: nat, step: StepState)
    requires j < |steps| && InOrder(steps) && !StepDone(steps[j].status)
    requires forall l :: 0 <= l < j ==> StepDone(steps[l].status)
    ensures InOrder(steps[j := step])
    ensures step.id == steps[j].id && step.attempts >= steps[j].attempts ==> StepsExtend(steps, steps[j := step])
  {
  }

  lemma MarkedStageGood(p: Playbook, s: RunState, i: nat, j: nat, st: StageState, step: StepState)
    requires Inv(p, s) && ReadyStep(p, s, i, j) && step.id == s.stages[i].steps[j].id && step.attempts >= s.stages[i].steps[j].attempts
    requires st.id == s.stages[i].id && st.steps == s.stages[i].steps[j := step]
    requires st.status.InProgress? || st.status.Blocked? || st.status.Failed?
    requires !step.status.StoppedByPolicy? && (Active(step.status) ==> step.attempts >= 1)
    requires Started(step.status) ==>
              Started(s.stages[i].steps[j].status) || Met(p.stages[i].steps[j].dependsOn, CompletedStepIds(s))
    ensures GoodStage(p, s, i, st)
  {
    hide CompletedStageIds, CompletedStepIds, StagesInOrder, DependenciesMet, Met, First, InOrder, StepsExtend;
    assert StageOk(s.stages[i]);
    MarkedInOrder(s.stages[i].steps, j, step);
  }

  lemma StepEventGood(p: Playbook, s: RunState, e: Event)
    requires Inv(p, s) && Enabled(p, s, e)
    requires e.StepStarted? || e.ApprovalNeeded? || e.StepFailed? || e.StepSucceeded?
    ensures GoodStage(p, s, e.stage, StageAfter(p, s.stages[e.stage], e))
  {
    hide CompletedStageIds, CompletedStepIds, StagesInOrder, DependenciesMet, Met, First, InOrder, StepsExtend,
            GoodStage;
    var st := StageAfter(p, s.stages[e.stage], e);
    assert StageOk(s.stages[e.stage]);
    MarkedStageGood(p, s, e.stage, e.step, st, st.steps[e.step]);
  }

  lemma StepInapplicableGood(p: Playbook, s: RunState, e: Event)
    requires Inv(p, s) && Enabled(p, s, e) && e.StepInapplicable?
    ensures GoodStage(p, s, e.stage, StageAfter(p, s.stages[e.stage], e))
  {
    hide CompletedStageIds, CompletedStepIds, StagesInOrder, DependenciesMet, Met, First, NextExecutionAttempt;
    var st := StageAfter(p, s.stages[e.stage], e);
    if p.stages[e.stage].steps[e.step].onInapplicable.StopStage? {
      assert StageOk(s.stages[e.stage]);
    } else {
      MarkedStageGood(p, s, e.stage, e.step, st, st.steps[e.step]);
    }
  }

  /** Every update keeps the invariant, and what is done. */
  lemma StepKeepsInv(p: Playbook, s: RunState, t: RunState)
    requires Inv(p, s) && Next(p, s, t)
    ensures Inv(p, t) && Extends(s, t)
  {
    var e :| Enabled(p, s, e) && t == Apply(p, s, e);
    match e
    case Resumed => RunStatusKeeps(p, s, Running);
    case BecameTainted => RunStatusKeeps(p, s, Tainted);
    case BecameStale => RunStatusKeeps(p, s, Stale);
    case RunCompleted => RunStatusKeeps(p, s, Completed);
    case _ =>
      StageEventKeepsInv(p, s, e);
  }

  lemma StageEventKeepsInv(p: Playbook, s: RunState, e: Event)
    requires Inv(p, s) && Enabled(p, s, e) && !e.Resumed? && !e.BecameTainted? && !e.BecameStale? && !e.RunCompleted?
    ensures Inv(p, Apply(p, s, e)) && Extends(s, Apply(p, s, e))
  {
    hide GoodStage, StageOk, Met, CompletedStageIds, CompletedStepIds, First, StagesInOrder, StageAfter;
    if e.StageInapplicable? {
      StageInapplicableGood(p, s, e);
    } else if e.StageStarted? || e.StageClosed? {
      StageEventGood(p, s, e);
    } else if e.StepInapplicable? {
      StepInapplicableGood(p, s, e);
    } else {
      StepEventGood(p, s, e);
    }
    assert Met(p.stages[e.stage].dependsOn, CompletedStageIds(s));
    StageReplaced(p, s, e.stage, StageAfter(p, s.stages[e.stage], e), RunAfter(p, s, e));
  }

  // ---------------------------------------------------------------- whole runs

  /** Every saved state of every run satisfies the invariant. */
  lemma {:induction false} RunKeepsInv(p: Playbook, trace: seq<RunState>, k: nat)
    requires IsRun(p, trace) && k < |trace|
    ensures Inv(p, trace[k])
  {
    if k == 0 {
      InitialHolds(p);
    } else {
      RunKeepsInv(p, trace, k - 1);
      StepKeepsInv(p, trace[k - 1], trace[k]);
    }
  }

  /** A done step or stage never changes again, and attempts never decrease. */
  lemma {:induction false} DoneIsFinal(p: Playbook, trace: seq<RunState>, a: nat, b: nat)
    requires IsRun(p, trace) && a <= b < |trace|
    ensures Extends(trace[a], trace[b])
    decreases b
  {
    hide Extends, Inv, Next, Initial;
    if a == b {
      ExtendsItself(trace[a]);
    } else {
      DoneIsFinal(p, trace, a, b - 1);
      RunKeepsInv(p, trace, b - 1);
      assert Next(p, trace[b - 1], trace[b - 1 + 1]);
      StepKeepsInv(p, trace[b - 1], trace[b]);
      ExtendsOnwards(trace[a], trace[b - 1], trace[b]);
    }
  }

  lemma ExtendsItself(s: RunState)
    ensures Extends(s, s)
  {
  }

  lemma ExtendsOnwards(a: RunState, b: RunState, c: RunState)
    requires Extends(a, b) && Extends(b, c)
    ensures Extends(a, c)
  {
  }

  /** The shape of every saved state, whatever the playbook: of the stages that are looked
      up, done ones, then at most one that is under way; everything behind it untouched;
      and inside it settled steps, at most one other, then only steps not yet reached. */
  lemma ShapeOfEveryState(p: Playbook, trace: seq<RunState>, k: nat)
    requires IsRun(p, trace) && k < |trace|
    ensures Fits(p, trace[k]) && exists a :: 0 <= a <= |p.stages| && ShapeIs(p, trace[k], a)
  {
    var s := trace[k];
    RunKeepsInv(p, trace, k);
    var a := FirstOpenStage(p, s, 0);
    forall i | a < i < |p.stages|
      ensures Untouched(s.stages[i])
    {
      assert StageOk(s.stages[i]);
    }
    if a < |p.stages| { OpenStageIs(p, s, a); }
    assert ShapeIs(p, s, a);
  }

  /** The first looked-up stage that is not done, from `i` on. */
  ghost function FirstOpenStage(p: Playbook, s: RunState, i: nat): (a: nat)
    requires Fits(p, s) && i <= |p.stages|
    ensures i <= a <= |p.stages| && forall k :: i <= k < a && First(p, k) ==> StageDone(s.stages[k].status)
    ensures a < |p.stages| ==> First(p, a) && !StageDone(s.stages[a].status)
    decreases |p.stages| - i
  {
    if i == |p.stages| || (First(p, i) && !StageDone(s.stages[i].status)) then i else FirstOpenStage(p, s, i + 1)
  }

  lemma OpenStageIs(p: Playbook, s: RunState, a: nat)
    requires Inv(p, s) && a < |p.stages| && !StageDone(s.stages[a].status)
    ensures StageIsOpen(s.stages[a])
  {
    assert StageOk(s.stages[a]);
    var b := FirstUndoneStep(s.stages[a].steps);
    if !s.stages[a].status.Pending? { assert ActiveStepIs(s.stages[a].steps, b); }
  }

  ghost predicate Untouched(st: StageState) {
    st.status.Pending? && forall step <- st.steps :: step.status.Pending?
  }

  /** Untouched, or under way with its steps in order. */
  ghost predicate StageIsOpen(st: StageState) {
    || Untouched(st)
    || ((st.status.InProgress? || st.status.Failed? || st.status.Blocked?)
        && exists b :: 0 <= b <= |st.steps| && ActiveStepIs(st.steps, b))
  }

  ghost predicate ShapeIs(p: Playbook, s: RunState, a: nat)
    requires Fits(p, s) && a <= |p.stages|
  {
    && (forall i :: 0 <= i < a && First(p, i) ==> StageDone(s.stages[i].status))
    && (forall i :: a < i < |p.stages| ==> Untouched(s.stages[i]))
    && (a < |p.stages| ==> StageIsOpen(s.stages[a]))
  }

  /** With distinct stage ids every stage is looked up. */
  lemma ShapeWithDistinctStages(p: Playbook, trace: seq<RunState>, k: nat)
    requires IsRun(p, trace) && k < |trace| && DistinctStageIds(p)
    ensures exists a :: 0 <= a <= |trace[k].stages| && ActiveStageIs(trace[k], a)
  {
    ShapeOfEveryState(p, trace, k);
    assert forall i :: 0 <= i < |p.stages| ==> First(p, i);
    var a :| 0 <= a <= |p.stages| && ShapeIs(p, trace[k], a);
    assert ActiveStageIs(trace[k], a);
  }

  ghost predicate ActiveStageIs(s: RunState, a: nat)
    requires a <= |s.stages|
  {
    && (forall i :: 0 <= i < a ==> StageDone(s.stages[i].status))
    && (forall i :: a < i < |s.stages| ==> Untouched(s.stages[i]))
    && (a < |s.stages| ==> StageIsOpen(s.stages[a]))
  }

  ghost predicate NoActiveStage(s: RunState) {
    forall a :: 0 <= a <= |s.stages| ==> !ActiveStageIs(s, a)
  }

  /** Without distinct ids that shape is lost: of three stages the second repeats the
      first one's id, so it is still pending when the third is under way. */
  lemma RepeatedStageBreaksTheShape()
    ensures var (first, last) := (Stage("a", true, [], Skip, []), Stage("b", true, [], Skip, []));
            exists trace: seq<RunState> ::
              && IsRun(Playbook([first, first, last]), trace)
              && NoActiveStage(trace[|trace| - 1])
  {
    hide NextExecutionAttempt, InOrder, IsRun, NoActiveStage;
    var first, last := Stage("a", true, [], Skip, []), Stage("b", true, [], Skip, []);
    var p := Playbook([first, first, last]);
    var s := Initial(p);
    assert Enabled(p, s, StageInapplicable(0));
    var t := Apply(p, s, StageInapplicable(0));
    assert Next(p, s, t);
    assert t.run == Running && t.stages[0].status == SkippedInapplicable && t.stages[1].status == Pending && t.stages[2].status == Pending;
    hide Next, Initial, Apply, Enabled;
    var u := ThirdStageStarts(p, t);
    GapBreaksTheShape(u);
    RunOfThree(p, s, t, u);
    var trace := [s, t, u];
    assert trace[|trace| - 1] == u;
  }

  lemma ThirdStageStarts(p: Playbook, t: RunState) returns (u: RunState)
    requires |p.stages| == 3 && p.stages[0].id == p.stages[1].id != p.stages[2].id && p.stages[2].dependsOn == []
    requires Fits(p, t) && t.run.Running? && StageDone(t.stages[0].status) && t.stages[2].status == Pending
    ensures Next(p, t, u) && Fits(p, u) && u.stages[1] == t.stages[1] && u.stages[2].status == InProgress
  {
    hide NextExecutionAttempt;
    assert First(p, 0) && !First(p, 1) && First(p, 2);
    assert Enabled(p, t, StageStarted(2));
    u := Apply(p, t, StageStarted(2));
  }

  lemma GapBreaksTheShape(s: RunState)
    requires |s.stages| == 3 && s.stages[1].status == Pending && s.stages[2].status == InProgress
    ensures NoActiveStage(s)
  {
    forall a | 0 <= a <= |s.stages|
      ensures !ActiveStageIs(s, a)
    {
      assert a <= 1 ==> !Untouched(s.stages[2]);
    }
  }

  lemma RunOfThree(p: Playbook, s: RunState, t: RunState, u: RunState)
    requires s == Initial(p) && Next(p, s, t) && Next(p, t, u)
    ensures IsRun(p, [s, t, u])
  {
    hide Next, Initial;
  }

  ghost predicate ActiveStepIs(steps: seq<StepState>, b: nat)
    requires b <= |steps|
  {
    && (forall j :: 0 <= j < b ==> Settled(steps[j].status))
    && (b < |steps| ==> !StepDone(steps[b].status))
    && (forall j :: b < j < |steps| ==> steps[j].status.Pending? || steps[j].status.Blocked?)
  }

  function FirstUndoneStep(steps: seq<StepState>): (b: nat)
    ensures b <= |steps| && forall j :: 0 <= j < b ==> StepDone(steps[j].status)
    ensures b < |steps| ==> !StepDone(steps[b].status)
  {
    if steps == [] || !StepDone(steps[0].status) then 0 else 1 + FirstUndoneStep(steps[1..])
  }

  /** At the end of a stage's steps it always succeeds: the branch that marks it FAILED
      and ends the run there is never taken. */
  lemma StageNeverFailsAtItsEnd(p: Playbook, trace: seq<RunState>, k: nat, i: nat)
    requires IsRun(p, trace) && k < |trace| && Enabled(p, trace[k], StageClosed(i))
    ensures Apply(p, trace[k], StageClosed(i)).stages[i].status == Succeeded
  {
    RunKeepsInv(p, trace, k);
    assert StageOk(trace[k].stages[i]);
  }

  /** A step with this id has succeeded, was skipped or was stopped by a policy. */
  ghost predicate StepIsOver(s: RunState, id: string) {
    exists i: nat, j: nat ::
      && i < |s.stages| && j < |s.stages[i].steps| && s.stages[i].steps[j].id == id
      && s.stages[i].steps[j].status in {Succeeded, SkippedInapplicable, SkippedByUser, StoppedByPolicy}
  }

  ghost predicate StageIsOver(s: RunState, id: string) {
    exists i: nat ::
      i < |s.stages| && s.stages[i].id == id && s.stages[i].status in {Succeeded, SkippedInapplicable, SkippedByUser, StoppedByPolicy}
  }

  lemma OverIs(s: RunState, id: string)
    ensures id in CompletedStepIds(s) <==> StepIsOver(s, id)
    ensures id in CompletedStageIds(s) <==> StageIsOver(s, id)
  {
  }

  /** In every saved state, whatever has been started has had everything it depends on. */
  lemma StartedHadDependencies(p: Playbook, trace: seq<RunState>, k: nat, at: Position, id: string)
    requires IsRun(p, trace) && k < |trace| && IsStep(p, at)
    ensures Fits(p, trace[k])
    ensures id in StepAt(p, at).dependsOn ==>
              trace[k].stages[at.stage].steps[at.step].status !in {InProgress, AwaitingApproval, Succeeded, Failed} || StepIsOver(trace[k], id)
    ensures trace[k].stages[at.stage].status != Pending && id in p.stages[at.stage].dependsOn ==> StageIsOver(trace[k], id)
  {
    hide IsRun, CompletedStepIds, CompletedStageIds, StagesInOrder, StageOk, StepIsOver, StageIsOver;
    RunKeepsInv(p, trace, k);
    OverIs(trace[k], id);
  }

  /** An active step has been attempted, so its attempt count is never refused for that,
      and resuming it does not count as a new attempt. */
  lemma ActiveStepsWereAttempted(p: Playbook, trace: seq<RunState>, k: nat, at: Position)
    requires IsRun(p, trace) && k < |trace| && IsStep(p, at) && Fits(p, trace[k])
    ensures var step := trace[k].stages[at.stage].steps[at.step];
            Active(step.status) ==>
              step.attempts >= 1
              && (step.attempts <= MAX_SAFE_INTEGER ==> NextExecutionAttempt(step.status, Some(step.attempts)) == Ok(step.attempts))
  {
    RunKeepsInv(p, trace, k);
    assert StageOk(trace[k].stages[at.stage]);
  }

  ghost predicate IsRunEvent(e: Event) {
    e.Resumed? || e.BecameTainted? || e.BecameStale? || e.RunCompleted?
  }

  ghost predicate CountsStart(before: StepState, after: StepState) {
    after.attempts == before.attempts + if after.status.InProgress? && !Active(before.status) then 1 else 0
  }

  lemma StageCountsStarts(p: Playbook, st: StageState, e: Event, j: nat)
    requires !IsRunEvent(e) && e.stage < |p.stages| && StageFits(p.stages[e.stage], st) && j < |st.steps|
    requires e.StageInapplicable? || e.StageStarted? || e.StageClosed? || e.step < |st.steps|
    requires e.StepStarted? ==> NextExecutionAttempt(st.steps[e.step].status, Some(st.steps[e.step].attempts)).Ok?
    ensures j < |StageAfter(p, st, e).steps| && CountsStart(st.steps[j], StageAfter(p, st, e).steps[j])
  {
  }

  /** Attempts count the times a step was started anew: one more when it enters
      IN_PROGRESS from a status that is not active, and no change otherwise. */
  lemma AttemptsCountStarts(p: Playbook, s: RunState, t: RunState, at: Position)
    requires Fits(p, s) && Fits(p, t) && Next(p, s, t) && IsStep(p, at)
    ensures CountsStart(s.stages[at.stage].steps[at.step], t.stages[at.stage].steps[at.step])
  {
    hide CompletedStepIds, CompletedStageIds, Met, First, DoneBefore, StageAfter, NextExecutionAttempt, RunAfter;
    var e :| Enabled(p, s, e) && t == Apply(p, s, e);
    if !IsRunEvent(e) && e.stage == at.stage {
      StageCountsStarts(p, s.stages[e.stage], e, at.step);
    }
  }

  /** What a stopped run shows: one that awaits the user has a step awaiting approval, a
      failed one a failed step in a failed stage, a blocked one a blocked step or stage. */
  lemma WhatAStopMeans(p: Playbook, s: RunState, t: RunState)
    requires Next(p, s, t)
    ensures t.run.AwaitingUser? ==> exists at: Position :: HasStatuses(t, at, InProgress, AwaitingApproval)
    ensures t.run.RunFailed? ==> exists at: Position :: HasStatuses(t, at, Status.Failed, Status.Failed)
    ensures t.run.RunBlocked? ==>
              || (exists at: Position :: HasStatuses(t, at, Status.Failed, Blocked) || HasStatuses(t, at, Blocked, Blocked))
              || (exists st <- t.stages :: st.status == Blocked)
  {
    hide CompletedStepIds, CompletedStageIds, Met, First, DoneBefore, NextExecutionAttempt, StageAfter, HasStatuses;
    var e :| Enabled(p, s, e) && t == Apply(p, s, e);
    match e
    case ApprovalNeeded(i, j) => ApprovalShows(p, s, i, j);
    case StepFailed(i, j) => FailureShows(p, s, i, j);
    case StepInapplicable(i, j) => if p.stages[i].steps[j].onInapplicable.MarkBlocked? { BlockedStepShows(p, s, i, j); }
    case StageInapplicable(i) => if p.stages[i].onInapplicable.MarkBlocked? { BlockedStageShows(p, s, i); }
    case _ =>
  }

  lemma ApprovalShows(p: Playbook, s: RunState, i: nat, j: nat)
    requires Enabled(p, s, ApprovalNeeded(i, j))
    ensures HasStatuses(Apply(p, s, ApprovalNeeded(i, j)), At(i, j), InProgress, AwaitingApproval)
  {
  }

  lemma FailureShows(p: Playbook, s: RunState, i: nat, j: nat)
    requires Enabled(p, s, StepFailed(i, j))
    ensures HasStatuses(Apply(p, s, StepFailed(i, j)), At(i, j), Status.Failed,
                        if p.stages[i].steps[j].blockedOnFailure then Blocked else Status.Failed)
  {
  }

  lemma BlockedStepShows(p: Playbook, s: RunState, i: nat, j: nat)
    requires Enabled(p, s, StepInapplicable(i, j)) && p.stages[i].steps[j].onInapplicable.MarkBlocked?
    ensures HasStatuses(Apply(p, s, StepInapplicable(i, j)), At(i, j), Blocked, Blocked)
  {
  }

  lemma BlockedStageShows(p: Playbook, s: RunState, i: nat)
    requires Enabled(p, s, StageInapplicable(i)) && p.stages[i].onInapplicable.MarkBlocked?
    ensures exists st <- Apply(p, s, StageInapplicable(i)).stages :: st.status == Blocked
  {
    var t := Apply(p, s, StageInapplicable(i));
    assert t.stages[i] in t.stages;
  }

  /** The stage and the step there have these statuses. */
  ghost predicate HasStatuses(s: RunState, at: Position, stage: Status, step: Status) {
    && at.stage < |s.stages| && at.step < |s.stages[at.stage].steps|
    && s.stages[at.stage].status == stage && s.stages[at.stage].steps[at.step].status == step
  }

  /** A stage that repeats an earlier stage's id is never looked up, so never run. */
  lemma RepeatedStagesStayPending(p: Playbook, trace: seq<RunState>, k: nat, i: nat)
    requires IsRun(p, trace) && k < |trace| && i < |p.stages| && !First(p, i)
    ensures Fits(p, trace[k]) && trace[k].stages[i].status == Pending && forall step <- trace[k].stages[i].steps :: step.status == Pending
  {
    RunKeepsInv(p, trace, k);
    assert StageOk(trace[k].stages[i]);
  }

  /** A completed run has finished every stage, unless two stages share an id: then it
      has not run the later of them. In a stage that succeeded every step succeeded or
      was skipped. */
  lemma WhatCompletedMeans(p: Playbook, trace: seq<RunState>, k: nat)
    requires IsRun(p, trace) && k < |trace| && trace[k].run.Completed?
    ensures (forall st <- trace[k].stages :: st.status in {Succeeded, SkippedInapplicable, StoppedByPolicy}) <==> DistinctStageIds(p)
    ensures forall st <- trace[k].stages :: st.status.Succeeded? ==>
              forall step <- st.steps :: step.status in {Succeeded, SkippedInapplicable, SkippedByUser}
  {
    var s := trace[k];
    RunKeepsInv(p, trace, k);
    if DistinctStageIds(p) {
      assert forall i :: 0 <= i < |p.stages| ==> First(p, i);
    } else {
      var i, j :| 0 <= i < j < |p.stages| && p.stages[i].id == p.stages[j].id;
      assert !First(p, j) && s.stages[j] in s.stages;
    }
  }

  /** Such a run exists: two stages with the same id, the second never run. */
  lemma CompletedWithoutTheSecondStage()
    ensures var stage := Stage("a", true, [], Skip, []);
            var p := Playbook([stage, stage]);
            exists trace: seq<RunState> :: IsRun(p, trace) && Fits(p, trace[|trace| - 1]) && trace[|trace| - 1].run == Completed && trace[|trace| - 1].stages[1].status == Pending
  {
    hide CompletedStageIds, CompletedStepIds, NextExecutionAttempt, InOrder;
    var stage := Stage("a", true, [], Skip, []);
    var p := Playbook([stage, stage]);
    var s := Initial(p);
    assert Enabled(p, s, StageInapplicable(0));
    var t := Apply(p, s, StageInapplicable(0));
    assert First(p, 0) && !First(p, 1) by { assert p.stages[0].id == p.stages[1].id; }
    assert Enabled(p, t, RunCompleted);
    var trace := [s, t, Apply(p, t, RunCompleted)];
    assert Next(p, trace[0], trace[1]) && Next(p, trace[1], trace[2]);
    assert IsRun(p, trace);
  }

  /** In every run of a valid playbook, the step that produces a typed input is done from
      before its consumer is started. */
  lemma ProducersFinishFirst(p: Playbook, trace: seq<RunState>, k: nat, at: Position, n: nat)
    requires Dataflow.WellFormed(p) && IsRun(p, trace) && k < |trace| && Fits(p, trace[k])
    requires IsStep(p, at) && n < |StepAt(p, at).inputs| && StepAt(p, at).inputs[n].Binding?
    requires Started(trace[k].stages[at.stage].steps[at.step].status)
    ensures var input := StepAt(p, at).inputs[n];
            exists from :: Dataflow.Supplies(p, from, at, input)
                           && CanonicalProducer(p, input.step, input.output) == Ok((from, Declared(input.output, input.kind)))
                           && StepDone(trace[k].stages[from.stage].steps[from.step].status)
  {
    hide Matches, PositionsFrom, CanonicalProducer, CanonicalStep, Inv;
    var input := StepAt(p, at).inputs[n];
    Dataflow.TypedInputsResolve(p, at, n);
    var from :| Dataflow.Supplies(p, from, at, input) && input.step in StepAt(p, at).dependsOn
                && CanonicalProducer(p, input.step, input.output) == Ok((from, Declared(input.output, input.kind)));
    RunKeepsInv(p, trace, k);
    StartedHasItsDependencies(p, trace[k], at, input.step, from);
  }

  lemma StartedHasItsDependencies(p: Playbook, s: RunState, at: Position, id: string, from: Position)
    requires DistinctStepIds(p) && Inv(p, s) && IsStep(p, at) && IsStep(p, from) && StepAt(p, from).id == id
    requires Started(s.stages[at.stage].steps[at.step].status) && id in StepAt(p, at).dependsOn
    ensures StepDone(s.stages[from.stage].steps[from.step].status)
  {
    assert id in CompletedStepIds(s);
    var i, j :| 0 <= i < |s.stages| && 0 <= j < |s.stages[i].steps| && StepDone(s.stages[i].steps[j].status) && s.stages[i].steps[j].id == id;
    assert IsStep(p, At(i, j)) && StepAt(p, At(i, j)).id == id;
  }
}
