/** The auto-runner and its circuit breaker (`src/autopilot/auto-playbook-runner.ts`,
    `src/autopilot/next-action.ts`). */
module AutoRunner {
  import opened Wrappers
  import opened RunEngine

  datatype PlaybookStep = PlaybookStep(id: string, dependsOn: seq<string>)

  datatype StopReason = NoActivePlaybook | PlaybookCompleted | ApprovalAwaited | FailureStop | DependencyBlocked

  datatype NextAction = Selected(index: nat) | Stop(reason: StopReason)

  function SucceededIds(s: RunState): set<string> {
    set i, j | 0 <= i < |s.stages| && 0 <= j < |s.stages[i].steps| && s.stages[i].steps[j].status.Succeeded? :: s.stages[i].steps[j].id
  }

  function Ids(steps: seq<PlaybookStep>): set<string> {
    set step <- steps :: step.id
  }

  /** The first step whose id is not among `done`. */
  function FirstOpen(steps: seq<PlaybookStep>, done: set<string>): (k: nat)
    ensures k <= |steps| && forall l :: 0 <= l < k ==> steps[l].id in done
    ensures k < |steps| ==> steps[k].id !in done
  {
    if steps == [] || steps[0].id !in done then 0 else 1 + FirstOpen(steps[1..], done)
  }

  lemma FirstOpenIs(steps: seq<PlaybookStep>, done: set<string>, k: nat)
    requires k <= |steps| && (forall l :: 0 <= l < k ==> steps[l].id in done) && (k < |steps| ==> steps[k].id !in done)
    ensures FirstOpen(steps, done) == k
  {
  }

  /** What `selectNextAction` decides. */
  function NextFor(state: Option<RunState>, steps: Option<seq<PlaybookStep>>): NextAction {
    if steps.None? || steps.value == [] then Stop(NoActivePlaybook)
    else if state.None? then Selected(0)
    else match state.value.run
      case Completed => Stop(PlaybookCompleted)
      case AwaitingUser => Stop(ApprovalAwaited)
      case RunFailed => Stop(FailureStop)
      case Stopped => Stop(FailureStop)
      case RunBlocked => Stop(FailureStop)
      case _ =>
        var done := SucceededIds(state.value);
        var k := FirstOpen(steps.value, done);
        if k == |steps.value| then Stop(PlaybookCompleted)
        else if Met(steps.value[k].dependsOn, done) then Selected(k)
        else Stop(DependencyBlocked)
  }

  /** While the run goes on: the first declared step that has not succeeded, if all it
      depends on has; completed exactly when every declared step has succeeded. */
  lemma WhatIsSelected(state: RunState, steps: seq<PlaybookStep>, k: nat)
    requires steps != [] && (state.run.Running? || state.run.Tainted? || state.run.Stale?)
    ensures var (next, done) := (NextFor(Some(state), Some(steps)), SucceededIds(state));
            && (next == Selected(k) <==> IsFirstOpen(steps, done, k) && Met(steps[k].dependsOn, done))
            && (next == Stop(DependencyBlocked) <==> exists l: nat :: IsFirstOpen(steps, done, l) && !Met(steps[l].dependsOn, done))
            && (next == Stop(PlaybookCompleted) <==> Ids(steps) <= done)
  {
    hide SucceededIds;
    var done := SucceededIds(state);
    var m := FirstOpen(steps, done);
    forall l: nat | IsFirstOpen(steps, done, l)
      ensures l == m
    {
      FirstOpenIs(steps, done, l);
    }
    if m < |steps| {
      assert IsFirstOpen(steps, done, m);
      assert steps[m].id in Ids(steps);
    } else {
      assert forall step <- steps :: step.id in done;
    }
  }

  ghost predicate IsFirstOpen(steps: seq<PlaybookStep>, done: set<string>, k: nat) {
    k < |steps| && steps[k].id !in done && forall l :: 0 <= l < k ==> steps[l].id in done
  }

  /** The nested loops that collect the completed ids. */
  method CollectSucceeded(s: RunState) returns (done: set<string>)
    ensures done == SucceededIds(s)
  {
    done := {};
    for i: nat := 0 to |s.stages|
      invariant forall id :: id in done <==>
        exists a, b :: 0 <= a < i && 0 <= b < |s.stages[a].steps| && s.stages[a].steps[b].status.Succeeded? && s.stages[a].steps[b].id == id
    {
      var steps := s.stages[i].steps;
      ghost var before := done;
      for j: nat := 0 to |steps|
        invariant forall id :: id in done <==> id in before || exists b :: 0 <= b < j && steps[b].status.Succeeded? && steps[b].id == id
      {
        if steps[j].status.Succeeded? { done := done + {steps[j].id}; }
      }
    }
  }

  /** `selectNextAction`. */
  method SelectNextAction(state: Option<RunState>, playbook: Option<seq<PlaybookStep>>) returns (r: NextAction)
    ensures r == NextFor(state, playbook)
  {
    if playbook.None? || |playbook.value| == 0 { return Stop(NoActivePlaybook); }
    if state.None? { return Selected(0); }
    var steps, runStatus := playbook.value, state.value.run;
    if runStatus.Completed? { return Stop(PlaybookCompleted); }
    if runStatus.AwaitingUser? { return Stop(ApprovalAwaited); }
    if runStatus.RunFailed? || runStatus.Stopped? || runStatus.RunBlocked? { return Stop(FailureStop); }
    var done := CollectSucceeded(state.value);
    for k: nat := 0 to |steps|
      invariant forall l :: 0 <= l < k ==> steps[l].id in done
    {
      if steps[k].id in done { continue; }
      FirstOpenIs(steps, done, k);
      return if Met(steps[k].dependsOn, done) then Selected(k) else Stop(DependencyBlocked);
    }
    FirstOpenIs(steps, done, |steps|);
    return Stop(PlaybookCompleted);
  }

  // ---------------------------------------------------------------- marking a step

  function FindId(steps: seq<StepState>, id: string): (k: nat)
    ensures k <= |steps| && (k < |steps| ==> steps[k].id == id)
    ensures forall l :: 0 <= l < k ==> steps[l].id != id
  {
    if steps == [] || steps[0].id == id then 0 else 1 + FindId(steps[1..], id)
  }

  /** The steps of the first stage after marking. */
  function MarkedSteps(steps: seq<StepState>, id: string, status: Status): seq<StepState> {
    var k := FindId(steps, id);
    if k < |steps| then steps[k := steps[k].(status := status)] else steps + [StepState(id, status, 0)]
  }

  /** `markStepInState`: the first stage is created when missing, and succeeds once all of
      its steps did and there are as many as declared. */
  function Marked(s: RunState, id: string, status: Status, declared: nat): RunState {
    var stages := if s.stages == [] then [StageState("stage-auto-1", InProgress, [])] else s.stages;
    var steps := MarkedSteps(stages[0].steps, id, status);
    var all := forall step <- steps :: step.status.Succeeded?;
    s.(stages := stages[0 := StageState(stages[0].id, if all && |steps| == declared then Succeeded else stages[0].status, steps)])
  }

  ghost predicate StepSucceeded(steps: seq<StepState>, id: string) {
    exists j :: 0 <= j < |steps| && steps[j].status.Succeeded? && steps[j].id == id
  }

  lemma SucceededInStages(s: RunState, id: string)
    ensures id in SucceededIds(s) <==> exists i :: 0 <= i < |s.stages| && StepSucceeded(s.stages[i].steps, id)
  {
  }

  /** Marking a step that has not succeeded changes just its own membership. */
  lemma MarkedStepsSucceed(steps: seq<StepState>, id: string, status: Status, other: string)
    requires status.Succeeded? || !StepSucceeded(steps, id)
    ensures StepSucceeded(MarkedSteps(steps, id, status), other) <==> StepSucceeded(steps, other) || (other == id && status.Succeeded?)
  {
    var k, marked := FindId(steps, id), MarkedSteps(steps, id, status);
    if status.Succeeded? { assert marked[k].status.Succeeded? && marked[k].id == id; }
    if StepSucceeded(steps, other) {
      var j :| 0 <= j < |steps| && steps[j].status.Succeeded? && steps[j].id == other;
      assert marked[j].id == other;
    }
  }

  lemma MarkedSucceeds(s: RunState, id: string, status: Status, declared: nat)
    requires status.Succeeded? || id !in SucceededIds(s)
    ensures SucceededIds(Marked(s, id, status, declared)) == if status.Succeeded? then SucceededIds(s) + {id} else SucceededIds(s)
    ensures Marked(s, id, status, declared).run == s.run
  {
    var t := Marked(s, id, status, declared);
    SucceededInStages(s, id);
    forall other: string
      ensures other in SucceededIds(t) <==> other in SucceededIds(s) || (other == id && status.Succeeded?)
    {
      SucceededInStages(s, other);
      SucceededInStages(t, other);
      MarkedInStages(s, id, status, declared, other);
    }
  }

  lemma MarkedInStages(s: RunState, id: string, status: Status, declared: nat, other: string)
    requires status.Succeeded? || forall i :: 0 <= i < |s.stages| ==> !StepSucceeded(s.stages[i].steps, id)
    ensures var t := Marked(s, id, status, declared);
            (exists i :: 0 <= i < |t.stages| && StepSucceeded(t.stages[i].steps, other))
            <==> (exists i :: 0 <= i < |s.stages| && StepSucceeded(s.stages[i].steps, other)) || (other == id && status.Succeeded?)
  {
    var t := Marked(s, id, status, declared);
    var first := if s.stages == [] then [] else s.stages[0].steps;
    MarkedStepsSucceed(first, id, status, other);
    assert t.stages[0].steps == MarkedSteps(first, id, status);
    assert forall i :: 1 <= i < |s.stages| ==> t.stages[i] == s.stages[i];
    if exists i :: 0 <= i < |s.stages| && StepSucceeded(s.stages[i].steps, other) {
      var i :| 0 <= i < |s.stages| && StepSucceeded(s.stages[i].steps, other);
      assert StepSucceeded(t.stages[i].steps, other);
    }
    if other == id && status.Succeeded? {
      assert StepSucceeded(t.stages[0].steps, other);
    }
  }

  // ---------------------------------------------------------------- counting

  lemma IdsBounded(steps: seq<PlaybookStep>)
    ensures |Ids(steps)| <= |steps|
  {
    if steps != [] {
      IdsBounded(steps[1..]);
      assert Ids(steps) == {steps[0].id} + Ids(steps[1..]);
    }
  }

  lemma SubsetSize<T>(a: set<T>, b: set<T>)
    requires a <= b
    ensures |a| <= |b|
  {
    if a != {} {
      var x :| x in a;
      SubsetSize(a - {x}, b - {x});
    }
  }

  /** The succeeded ids are those of a prefix of the declared steps. */
  ghost predicate IsPrefix(done: set<string>, steps: seq<PlaybookStep>) {
    exists k :: 0 <= k <= |steps| && done == Ids(steps[..k])
  }

  lemma IdsOfTake(steps: seq<PlaybookStep>, k: nat, m: nat)
    requires k <= m <= |steps| && forall l :: k <= l < m ==> steps[l].id in Ids(steps[..k])
    ensures Ids(steps[..m]) == Ids(steps[..k])
    decreases m
  {
    if k < m {
      IdsOfTake(steps, k, m - 1);
      IdsOfNext(steps, m - 1);
    }
  }

  lemma IdsOfNext(steps: seq<PlaybookStep>, m: nat)
    requires m < |steps|
    ensures Ids(steps[..m + 1]) == Ids(steps[..m]) + {steps[m].id}
  {
    assert steps[..m + 1] == steps[..m] + [steps[m]];
  }

  lemma IdAtTake(steps: seq<PlaybookStep>, k: nat, l: nat)
    requires l < k <= |steps|
    ensures steps[l].id in Ids(steps[..k])
  {
    assert steps[..k][l] in steps[..k];
  }

  lemma PrefixGrows(done: set<string>, steps: seq<PlaybookStep>)
    requires IsPrefix(done, steps) && FirstOpen(steps, done) < |steps|
    ensures IsPrefix(done + {steps[FirstOpen(steps, done)].id}, steps)
  {
    hide Ids;
    var m := FirstOpen(steps, done);
    var k :| 0 <= k <= |steps| && done == Ids(steps[..k]);
    if m < k { IdAtTake(steps, k, m); }
    IdsOfTake(steps, k, m);
    IdsOfNext(steps, m);
  }

  // ---------------------------------------------------------------- the runner

  datatype Breaker = Breaker(enabled: bool, maxCostCents: int, maxConsecutiveFailures: int)

  datatype BreakerStatus = Healthy | Tripped | Recovered

  /** What an executor or repair callback reports. */
  datatype Receipt = Receipt(executed: bool, changed: bool)

  datatype Attempt = Attempt(success: bool, receipt: Option<Receipt>)

  datatype Report = Report(
    completed: bool,
    completion: real,
    turnsExecuted: nat,
    stepsSucceeded: nat,
    stepsFailed: nat,
    repairsTriggered: nat,
    keptChanges: nat,
    rolledBackChanges: nat,
    breaker: BreakerStatus,
    costCents: nat,
    finalState: RunState)

  /** `calculateCompletionPercentage`, without rounding. */
  function Completion(done: set<string>, declared: nat): real {
    if declared == 0 then 0.0
    else
      var percentage := (|done| as real / declared as real) * 100.0;
      if percentage > 100.0 then 100.0 else percentage
  }

  /** The state and the counters of a runner. */
  datatype Tally = Tally(
    state: RunState,
    consecutiveFailures: nat,
    succeeded: nat,
    failed: nat,
    kept: nat,
    costCents: nat)

  /** The succeeded ids have grown by `count` declared ones, in declared order if they
      were a prefix of it before. */
  ghost predicate Progress(steps: seq<PlaybookStep>, before: set<string>, now: set<string>, count: nat) {
    && before <= now && now - before <= Ids(steps) && count == |now - before|
    && (IsPrefix(before, steps) ==> IsPrefix(now, steps))
  }

  lemma ProgressGoesOn(steps: seq<PlaybookStep>, before: set<string>, now: set<string>, count: nat)
    requires Progress(steps, before, now, count) && FirstOpen(steps, now) < |steps|
    ensures Progress(steps, before, now + {steps[FirstOpen(steps, now)].id}, count + 1)
  {
    var id := steps[FirstOpen(steps, now)].id;
    if IsPrefix(now, steps) { PrefixGrows(now, steps); }
    IdOfStep(steps, FirstOpen(steps, now));
    OneMore(before, now, id);
  }

  /** Successes are exactly the newly succeeded ids; between two successes there are
      fewer failures than the limit. */
  ghost predicate Consistent(steps: seq<PlaybookStep>, breaker: Breaker, initial: RunState, t: Tally) {
    && Progress(steps, SucceededIds(initial), SucceededIds(t.state), t.succeeded) && t.state.run == initial.run
    && t.kept <= t.succeeded && t.costCents == 2 * t.succeeded + t.failed
    && (breaker.enabled && breaker.maxConsecutiveFailures >= 1 ==>
          t.consecutiveFailures <= breaker.maxConsecutiveFailures
          && Covered(breaker.maxConsecutiveFailures, t.succeeded, t.failed, t.consecutiveFailures))
    && (breaker.enabled && breaker.maxCostCents >= 0 ==> t.costCents <= breaker.maxCostCents + 1)
  }

  /** The breaker lets a turn begin. */
  predicate Lets(breaker: Breaker, t: Tally) {
    breaker.enabled ==> t.costCents < breaker.maxCostCents && t.consecutiveFailures < breaker.maxConsecutiveFailures
  }

  ghost predicate IsChosen(steps: seq<PlaybookStep>, state: RunState, k: nat) {
    k < |steps| && k == FirstOpen(steps, SucceededIds(state))
  }

  /** `recordSuccess` and `recordFailure`, for a step with this id. */
  function AfterSuccess(t: Tally, id: string, declared: nat, changed: bool): Tally {
    Tally(Marked(t.state, id, Succeeded, declared), 0, t.succeeded + 1, t.failed, t.kept + if changed then 1 else 0, t.costCents + 2)
  }

  function AfterFailure(t: Tally, id: string, declared: nat): Tally {
    Tally(Marked(t.state, id, Failed, declared), t.consecutiveFailures + 1, t.succeeded, t.failed + 1, t.kept, t.costCents + 1)
  }

  lemma SuccessKeeps(steps: seq<PlaybookStep>, breaker: Breaker, initial: RunState, t: Tally, k: nat, changed: bool)
    requires Consistent(steps, breaker, initial, t) && IsChosen(steps, t.state, k)
    requires Lets(breaker, t)
    ensures Consistent(steps, breaker, initial, AfterSuccess(t, steps[k].id, |steps|, changed))
  {
    hide SucceededIds, Marked, Ids, FirstOpen, IsPrefix, Covered, Progress;
    MarkedSucceeds(t.state, steps[k].id, Succeeded, |steps|);
    ProgressGoesOn(steps, SucceededIds(initial), SucceededIds(t.state), t.succeeded);
    if breaker.enabled && breaker.maxConsecutiveFailures >= 1 {
      CoveredAfterSuccess(breaker.maxConsecutiveFailures, t.succeeded, t.failed, t.consecutiveFailures);
    }
  }

  lemma FailureKeeps(steps: seq<PlaybookStep>, breaker: Breaker, initial: RunState, t: Tally, k: nat)
    requires Consistent(steps, breaker, initial, t) && IsChosen(steps, t.state, k)
    requires Lets(breaker, t)
    ensures Consistent(steps, breaker, initial, AfterFailure(t, steps[k].id, |steps|))
    ensures SucceededIds(AfterFailure(t, steps[k].id, |steps|).state) == SucceededIds(t.state)
  {
    hide SucceededIds, Marked, Ids, FirstOpen, IsPrefix, Covered, Progress;
    MarkedSucceeds(t.state, steps[k].id, Failed, |steps|);
    if breaker.enabled && breaker.maxConsecutiveFailures >= 1 {
      CoveredAfterFailure(breaker.maxConsecutiveFailures, t.succeeded, t.failed, t.consecutiveFailures);
    }
  }

  lemma InitiallyConsistent(steps: seq<PlaybookStep>, breaker: Breaker, initial: RunState)
    ensures Consistent(steps, breaker, initial, Tally(initial, 0, 0, 0, 0, 0))
  {
    var done := SucceededIds(initial);
    assert done - done == {};
  }

  // ---------------------------------------------------------------- what the callbacks said

  /** One turn: the step it was for, and what each callback answered. */
  datatype Told = Told(step: nat, attempt: Attempt, repair: Option<Receipt>, verified: bool, confirmed: bool)

  predicate Direct(t: Told) {
    t.attempt.success && t.attempt.receipt.Some? && t.attempt.receipt.value.executed
  }

  predicate NeedsRepair(t: Told) {
    !Direct(t)
  }

  predicate Repaired(t: Told) {
    !Direct(t) && t.repair.Some? && t.repair.value.executed && t.verified
  }

  predicate Earned(t: Told) {
    Direct(t) || Repaired(t)
  }

  predicate Changed(t: Told) {
    || (t.attempt.receipt.Some? && t.attempt.receipt.value.changed)
    || (!Direct(t) && t.repair.Some? && t.repair.value.changed)
  }

  predicate Kept(t: Told) {
    Earned(t) && Changed(t)
  }

  predicate RolledBack(t: Told) {
    !Earned(t) && Changed(t) && t.confirmed
  }

  predicate Unconfirmed(t: Told) {
    !Earned(t) && Changed(t) && !t.confirmed
  }

  function HowMany(told: seq<Told>, p: Told -> bool): nat {
    if told == [] then 0
    else HowMany(told[..|told| - 1], p) + if p(told[|told| - 1]) then 1 else 0
  }

  lemma OneMoreTold(told: seq<Told>, t: Told, p: Told -> bool)
    ensures HowMany(told + [t], p) == HowMany(told, p) + if p(t) then 1 else 0
  {
    assert (told + [t])[..|told|] == told;
  }

  /** The failures since the last success. */
  function Trailing(told: seq<Told>): nat {
    if told == [] || Earned(told[|told| - 1]) then 0 else 1 + Trailing(told[..|told| - 1])
  }

  function EarnedIds(steps: seq<PlaybookStep>, told: seq<Told>): set<string> {
    set t <- told | t.step < |steps| && Earned(t) :: steps[t.step].id
  }

  lemma OneMoreEarned(steps: seq<PlaybookStep>, told: seq<Told>, t: Told)
    requires t.step < |steps|
    ensures EarnedIds(steps, told + [t]) == if Earned(t) then EarnedIds(steps, told) + {steps[t.step].id} else EarnedIds(steps, told)
  {
  }

  /** Turn `n` was for the first step that had not succeeded by then, and all it depends
      on had; and the run went on after every turn but the last. */
  ghost predicate TurnFits(steps: seq<PlaybookStep>, start: set<string>, told: seq<Told>, n: nat)
    requires n < |told|
  {
    var done := start + EarnedIds(steps, told[..n]);
    && IsFirstOpen(steps, done, told[n].step) && Met(steps[told[n].step].dependsOn, done)
    && (n < |told| - 1 ==> !Unconfirmed(told[n]))
  }

  ghost predicate Log(steps: seq<PlaybookStep>, start: set<string>, told: seq<Told>) {
    forall n: nat :: n < |told| ==> TurnFits(steps, start, told, n)
  }

  lemma LogGrows(steps: seq<PlaybookStep>, start: set<string>, told: seq<Told>, t: Told)
    requires Log(steps, start, told) && (told == [] || !Unconfirmed(told[|told| - 1]))
    requires var done := start + EarnedIds(steps, told); IsFirstOpen(steps, done, t.step) && Met(steps[t.step].dependsOn, done)
    ensures Log(steps, start, told + [t])
  {
    forall n: nat | n < |told + [t]|
      ensures TurnFits(steps, start, told + [t], n)
    {
      if n < |told| {
        assert TurnFits(steps, start, told, n) && (told + [t])[..n] == told[..n];
      } else {
        assert (told + [t])[..n] == told;
      }
    }
  }

  class Runner {
    const steps: seq<PlaybookStep>
    const maxTurns: int
    const target: real
    const breaker: Breaker
    const repairs: bool
    const initial: RunState
    var state: RunState
    var consecutiveFailures: nat
    var stepsSucceeded: nat
    var stepsFailed: nat
    var repairsTriggered: nat
    var keptChanges: nat
    var rolledBackChanges: nat
    var costCents: nat
    ghost var told: seq<Told>
    ghost var timedOut: bool

    constructor (steps: seq<PlaybookStep>, state: RunState, maxTurns: int, target: real, breaker: Breaker,
            repairs: bool)
      ensures Valid() && initial == state == this.state && this.steps == steps && this.maxTurns == maxTurns && this.breaker == breaker
      ensures this.target == target && this.repairs == repairs && told == [] && !timedOut
    {
      this.steps, this.state, this.maxTurns, this.target := steps, state, maxTurns, target;
      this.breaker, this.repairs, this.initial := breaker, repairs, state;
      consecutiveFailures, stepsSucceeded, stepsFailed, repairsTriggered, keptChanges, rolledBackChanges, costCents := 0, 0, 0, 0, 0, 0, 0;
      told, timedOut := [], false;
      InitiallyConsistent(steps, breaker, state);
    }

    ghost predicate Valid()
      reads this
    {
      Consistent(steps, breaker, initial, Now()) && Counted(0)
    }

    /** The counters and the succeeded steps are those of the turns; `asked` more repairs
        have been asked for. */
    ghost predicate Counted(asked: nat)
      reads this
    {
      && SucceededIds(state) == SucceededIds(initial) + EarnedIds(steps, told) && Log(steps, SucceededIds(initial), told)
      && stepsSucceeded == HowMany(told, Earned) && stepsFailed == |told| - stepsSucceeded && consecutiveFailures == Trailing(told)
      && repairsTriggered == (if repairs then HowMany(told, NeedsRepair) + asked else 0)
      && keptChanges == HowMany(told, Kept) && rolledBackChanges == HowMany(told, RolledBack)
    }

    function Now(): Tally
      reads this
    {
      Tally(state, consecutiveFailures, stepsSucceeded, stepsFailed, keptChanges, costCents)
    }

    method MarkStepInState(id: string, status: Status)
      modifies this`state
      ensures state == Marked(old(state), id, status, |steps|)
    {
      var stages := state.stages;
      if |stages| == 0 { stages := [StageState("stage-auto-1", InProgress, [])]; }
      var stage := stages[0];
      var k := FindId(stage.steps, id);
      if k < |stage.steps| {
        stage := stage.(steps := stage.steps[k := stage.steps[k].(status := status)]);
      } else {
        stage := stage.(steps := stage.steps + [StepState(id, status, 0)]);
      }
      var allSucceeded := forall step <- stage.steps :: step.status.Succeeded?;
      if allSucceeded && |stage.steps| == |steps| { stage := stage.(status := Succeeded); }
      state := state.(stages := stages[0 := stage]);
    }

    method RecordSuccess(k: nat, changed: bool)
      requires Consistent(steps, breaker, initial, Now()) && k < |steps| && IsChosen(steps, state, k) && Lets(breaker, Now())
      modifies this`state, this`stepsSucceeded, this`keptChanges, this`consecutiveFailures, this`costCents
      ensures Consistent(steps, breaker, initial, Now())
      ensures Now() == AfterSuccess(old(Now()), steps[k].id, |steps|, changed)
      ensures SucceededIds(state) == old(SucceededIds(state)) + {steps[k].id}
    {
      hide Consistent, SucceededIds, Marked, FirstOpen, IsChosen;
      SuccessKeeps(steps, breaker, initial, Now(), k, changed);
      MarkedSucceeds(state, steps[k].id, Succeeded, |steps|);
      stepsSucceeded := stepsSucceeded + 1;
      if changed { keptChanges := keptChanges + 1; }
      consecutiveFailures := 0;
      costCents := costCents + 2;
      MarkStepInState(steps[k].id, Succeeded);
    }

    method RecordFailure(k: nat)
      requires Consistent(steps, breaker, initial, Now()) && k < |steps| && IsChosen(steps, state, k) && Lets(breaker, Now())
      modifies this`state, this`stepsFailed, this`consecutiveFailures, this`costCents
      ensures Consistent(steps, breaker, initial, Now())
      ensures Now() == AfterFailure(old(Now()), steps[k].id, |steps|)
      ensures SucceededIds(state) == old(SucceededIds(state))
    {
      hide Consistent, SucceededIds, Marked, FirstOpen, IsChosen;
      FailureKeeps(steps, breaker, initial, Now(), k);
      stepsFailed := stepsFailed + 1;
      consecutiveFailures := consecutiveFailures + 1;
      costCents := costCents + 1;
      MarkStepInState(steps[k].id, Failed);
    }

    /** The last turn; one that was a success before the first. */
    ghost function Last(): (t: Told)
      reads this
      ensures told == [] ==> !Unconfirmed(t)
    {
      if told == [] then Told(0, Attempt(true, Some(Receipt(true, false))), None, false, false) else told[|told| - 1]
    }

    /** The last turn that counts is one after which the run goes on. */
    ghost predicate GoesOn()
      reads this
    {
      !Unconfirmed(Last())
    }

    /** Writes down a turn whose outcome has just been recorded. */
    ghost method Tell(t: Told)
      requires Consistent(steps, breaker, initial, Now()) && Log(steps, SucceededIds(initial), told) && GoesOn()
      requires var done := SucceededIds(initial) + EarnedIds(steps, told);
               && IsFirstOpen(steps, done, t.step) && Met(steps[t.step].dependsOn, done)
               && SucceededIds(state) == if Earned(t) then done + {steps[t.step].id} else done
      requires stepsSucceeded == HowMany(told, Earned) + (if Earned(t) then 1 else 0) && stepsSucceeded + stepsFailed == |told| + 1
      requires consecutiveFailures == if Earned(t) then 0 else Trailing(told) + 1
      requires repairsTriggered == if repairs then HowMany(told, NeedsRepair) + (if Direct(t) then 0 else 1) else 0
      requires keptChanges == HowMany(told, Kept) + if Kept(t) then 1 else 0
      requires rolledBackChanges == HowMany(told, RolledBack) + if RolledBack(t) then 1 else 0
      modifies this`told
      ensures Valid() && told == old(told) + [t]
    {
      hide Consistent, SucceededIds, EarnedIds, Log, HowMany, Earned, Kept, RolledBack, Unconfirmed, Direct;
      OneMoreTold(told, t, Earned);
      OneMoreTold(told, t, NeedsRepair);
      OneMoreTold(told, t, Kept);
      OneMoreTold(told, t, RolledBack);
      OneMoreEarned(steps, told, t);
      LogGrows(steps, SucceededIds(initial), told, t);
      assert (told + [t])[..|told|] == told;
      told := told + [t];
    }

    /** The executor's answer, under verification; not modelled. */
    method ExecuteStep() returns (attempt: Attempt)
    {
      attempt := *;
    }

    /** `None` when the repair callback throws. */
    method Repair() returns (receipt: Option<Receipt>)
    {
      receipt := *;
    }

    /** The outcome of a verification command, or of a rollback callback. */
    method Confirmed() returns (ok: bool)
    {
      ok := *;
    }

    /** One turn on the chosen step. `recovered`: it succeeded by a repair; `stopped`: it
        failed after a change whose rollback is not confirmed. */
    method Turn(k: nat) returns (recovered: bool, stopped: bool, ghost t: Told)
      requires Valid() && GoesOn() && k < |steps| && IsChosen(steps, state, k) && Lets(breaker, Now())
      requires Met(steps[k].dependsOn, SucceededIds(state))
      modifies this
      ensures Valid() && told == old(told) + [t] && timedOut == old(timedOut)
      ensures t.step == k && (recovered <==> Repaired(t)) && (stopped <==> Unconfirmed(t))
      ensures stopped ==> SucceededIds(state) == old(SucceededIds(state))
    {
      hide Consistent, SucceededIds, Marked, IsPrefix, EarnedIds, Log, HowMany, Lets, FirstOpen;
      ChosenIsFirstOpen(steps, state, k);
      recovered, stopped := false, false;
      var attempt := ExecuteStep();
      if attempt.success && attempt.receipt.Some? && attempt.receipt.value.executed {
        RecordSuccess(k, attempt.receipt.value.changed);
        t := Told(k, attempt, None, false, false);
        Tell(t);
        return;
      }
      recovered, stopped, t := RepairOrRollBack(k, attempt);
    }

    /** The rest of a turn, when the attempt did not succeed. */
    method RepairOrRollBack(k: nat, attempt: Attempt) returns (recovered: bool, stopped: bool, ghost t: Told)
      requires Valid() && GoesOn() && k < |steps| && IsChosen(steps, state, k) && Lets(breaker, Now())
      requires Met(steps[k].dependsOn, SucceededIds(state))
      requires !(attempt.success && attempt.receipt.Some? && attempt.receipt.value.executed)
      modifies this
      ensures Valid() && told == old(told) + [t] && timedOut == old(timedOut)
      ensures t.step == k && t.attempt == attempt && (recovered <==> Repaired(t)) && (stopped <==> Unconfirmed(t))
      ensures stopped ==> SucceededIds(state) == old(SucceededIds(state))
    {
      hide Consistent, SucceededIds, Marked, IsPrefix, EarnedIds, Log, HowMany, Lets, FirstOpen, IsFirstOpen, Met, Trailing;
      ChosenIsFirstOpen(steps, state, k);
      hide IsChosen;
      recovered, stopped := false, false;
      var repair: Option<Receipt> := None;
      if repairs {
        repairsTriggered := repairsTriggered + 1;
        repair := Repair();
      }
      var changed := (attempt.receipt.Some? && attempt.receipt.value.changed) || (repair.Some? && repair.value.changed);
      var verified := false;
      if repair.Some? && repair.value.executed {
        verified := Confirmed();
        if verified {
          RecordSuccess(k, changed);
          t := Told(k, attempt, repair, true, false);
          Tell(t);
          return true, false, t;
        }
      }
      stopped, t := RollBack(k, attempt, repair, verified);
    }

    /** The end of a turn that has failed: a change has to be undone. */
    method RollBack(k: nat, attempt: Attempt, repair: Option<Receipt>, verified: bool)
      returns (stopped: bool, ghost t: Told)
      requires Consistent(steps, breaker, initial, Now()) && Counted(1) && GoesOn()
      requires k < |steps| && IsChosen(steps, state, k) && Lets(breaker, Now()) && Met(steps[k].dependsOn, SucceededIds(state))
      requires !Earned(Told(k, attempt, repair, verified, true))
      modifies this
      ensures Valid() && timedOut == old(timedOut) && SucceededIds(state) == old(SucceededIds(state))
      ensures t == Told(k, attempt, repair, verified, t.confirmed) && told == old(told) + [t] && (stopped <==> Unconfirmed(t))
    {
      hide Consistent, SucceededIds, Marked, IsPrefix, EarnedIds, Log, HowMany, Lets, FirstOpen;
      ChosenIsFirstOpen(steps, state, k);
      hide IsChosen;
      var confirmed := false;
      var changed := (attempt.receipt.Some? && attempt.receipt.value.changed) || (repair.Some? && repair.value.changed);
      if changed {
        confirmed := Confirmed();
        if confirmed { rolledBackChanges := rolledBackChanges + 1; }
      }
      RecordFailure(k);
      t := Told(k, attempt, repair, verified, confirmed);
      Tell(t);
      stopped := changed && !confirmed;
    }

    /** Every number in a report follows from what the callbacks answered, and the breaker
        bounds turns and cost. */
    ghost predicate Reports(r: Report)
      reads this
    {
      && r.finalState == state && r.turnsExecuted == |told| && r.completion == Completion(SucceededIds(state), |steps|)
      && r.stepsSucceeded == HowMany(told, Earned) && r.stepsFailed == |told| - r.stepsSucceeded
      && r.keptChanges == HowMany(told, Kept) && r.rolledBackChanges == HowMany(told, RolledBack)
      && r.repairsTriggered == (if repairs then HowMany(told, NeedsRepair) else 0)
      && r.costCents == 2 * r.stepsSucceeded + r.stepsFailed
      && (breaker.enabled && breaker.maxConsecutiveFailures >= 1 ==>
            r.turnsExecuted <= breaker.maxConsecutiveFailures * (|steps| + 1))
      && (breaker.enabled && breaker.maxCostCents >= 0 ==> r.costCents <= breaker.maxCostCents + 1)
      && (IsPrefix(SucceededIds(initial), steps) ==> IsPrefix(SucceededIds(r.finalState), steps))
    }

    method BuildReport(completed: bool, status: BreakerStatus) returns (r: Report)
      requires Valid()
      ensures r.completed == completed && r.breaker == status && Reports(r)
    {
      hide Consistent, SucceededIds, IsPrefix, Completion, EarnedIds, Log, HowMany;
      TurnsBounded(steps, breaker, initial, Now());
      var done := CollectSucceeded(state);
      return Report(completed, Completion(done, |steps|), stepsSucceeded + stepsFailed, stepsSucceeded, stepsFailed,
                    repairsTriggered, keptChanges, rolledBackChanges, status, costCents, state);
    }

    /** Why the loop may end here. */
    ghost predicate MayEnd(status: BreakerStatus)
      reads this
    {
      if Unconfirmed(Last()) then status.Tripped?
      else
        || Completion(SucceededIds(state), |steps|) >= target
        || |told| >= maxTurns
        || (breaker.enabled && (timedOut || !Lets(breaker, Now())) && status.Tripped?)
        || NextFor(Some(state), Some(steps)).Stop?
    }

    /** The whole loop, from a fresh runner. A report says `completed` exactly when the
        completion has reached its target and the last turn is not one that stopped the
        loop; what happened turn by turn, and every number in the report, follows from what
        the callbacks answered. */
    method RunToAbsoluteSuccess() returns (r: Report)
      requires Valid() && told == [] && !timedOut
      modifies this
      ensures Valid() && |told| <= (if maxTurns < 0 then 0 else maxTurns) && MayEnd(r.breaker)
      ensures Reports(r)
      ensures !r.breaker.Tripped? ==> (r.breaker.Recovered? <==> exists t :: t in told && Repaired(t))
      ensures r.completed <==> Completion(SucceededIds(state), |steps|) >= target
    {
      hide Consistent, SucceededIds, IsPrefix, Completion, Ids, IsChosen, EarnedIds, Log, HowMany, Repaired, Unconfirmed, Reports, Trailing, FirstOpen;
      var turns := 0;
      var status := Healthy;
      while turns < maxTurns
        invariant Valid() && GoesOn() && 0 <= turns && |told| == turns && (turns <= maxTurns || turns == 0) && !timedOut
        invariant !status.Tripped? && (status.Recovered? <==> exists t :: t in told && Repaired(t))
        decreases maxTurns - turns
      {
        var done := CollectSucceeded(state);
        if Completion(done, |steps|) >= target {
          r := BuildReport(true, status);
          return;
        }
        if breaker.enabled {
          var expired: bool := *;
          timedOut := expired;
          if expired || costCents >= breaker.maxCostCents || consecutiveFailures >= breaker.maxConsecutiveFailures {
            r := BuildReport(false, Tripped);
            return;
          }
        }
        turns := turns + 1;
        var next := SelectNextAction(Some(state), Some(steps));
        if next.Stop? {
          r := BuildReport(next.reason.PlaybookCompleted? && Completion(done, |steps|) >= target, status);
          return;
        }
        SelectedIsChosen(steps, state, next);
        var recovered, stopped, _ := Turn(next.index);
        if stopped {
            r := BuildReport(false, Tripped);
          return;
        }
        if recovered { status := Recovered; }
      }
      var done := CollectSucceeded(state);
      r := BuildReport(Completion(done, |steps|) >= target, status);
    }
  }

  lemma ChosenIsFirstOpen(steps: seq<PlaybookStep>, state: RunState, k: nat)
    requires k < |steps| && IsChosen(steps, state, k)
    ensures IsFirstOpen(steps, SucceededIds(state), k)
  {
  }

  lemma SelectedIsChosen(steps: seq<PlaybookStep>, state: RunState, next: NextAction)
    requires next == NextFor(Some(state), Some(steps)) && next.Selected?
    ensures next.index < |steps| && IsChosen(steps, state, next.index) && Met(steps[next.index].dependsOn, SucceededIds(state))
  {
  }

  /** What every consistent tally promises. */
  lemma TurnsBounded(steps: seq<PlaybookStep>, breaker: Breaker, initial: RunState, t: Tally)
    requires Consistent(steps, breaker, initial, t)
    ensures breaker.enabled && breaker.maxConsecutiveFailures >= 1 ==>
              t.succeeded + t.failed <= breaker.maxConsecutiveFailures * (|steps| + 1)
    ensures breaker.enabled && breaker.maxCostCents >= 0 ==> t.costCents <= breaker.maxCostCents + 1
    ensures t.costCents == 2 * t.succeeded + t.failed
    ensures IsPrefix(SucceededIds(initial), steps) ==> IsPrefix(SucceededIds(t.state), steps)
  {
    hide SucceededIds, IsPrefix, Ids;
    IdsBounded(steps);
    SubsetSize(SucceededIds(t.state) - SucceededIds(initial), Ids(steps));
    if breaker.enabled && breaker.maxConsecutiveFailures >= 1 {
      CoveredBounds(breaker.maxConsecutiveFailures, t.succeeded, t.failed, t.consecutiveFailures, |steps|);
    }
  }

  /** A state in which nothing has succeeded is a prefix of any order. */
  lemma FreshIsPrefix(s: RunState, steps: seq<PlaybookStep>)
    requires forall st <- s.stages :: forall step <- st.steps :: !step.status.Succeeded?
    ensures IsPrefix(SucceededIds(s), steps)
  {
    assert Ids(steps[..0]) == {};
    assert SucceededIds(s) == {};
  }

  lemma IdOfStep(steps: seq<PlaybookStep>, k: nat)
    requires k < |steps|
    ensures steps[k].id in Ids(steps)
  {
  }

  lemma OneMore<T>(initial: set<T>, done: set<T>, x: T)
    requires initial <= done && x !in done
    ensures |done + {x} - initial| == |done - initial| + 1
    ensures done + {x} - initial == done - initial + {x}
  {
    assert done + {x} - initial == done - initial + {x};
  }

  /** Each success is preceded by fewer than `c` failures. */
  ghost predicate Covered(c: int, succeeded: nat, failed: nat, consecutive: nat) {
    failed <= (c - 1) * succeeded + consecutive
  }

  lemma CoveredAfterFailure(c: int, succeeded: nat, failed: nat, consecutive: nat)
    requires Covered(c, succeeded, failed, consecutive)
    ensures Covered(c, succeeded, failed + 1, consecutive + 1)
  {
  }

  /** With the limit not reached, a success pays for the failures before it. */
  lemma CoveredAfterSuccess(c: int, succeeded: nat, failed: nat, consecutive: nat)
    requires Covered(c, succeeded, failed, consecutive) && consecutive <= c - 1
    ensures Covered(c, succeeded + 1, failed, 0)
  {
    assert (c - 1) * (succeeded + 1) == (c - 1) * succeeded + c - 1;
  }

  lemma CoveredBounds(c: int, succeeded: nat, failed: nat, consecutive: nat, n: nat)
    requires Covered(c, succeeded, failed, consecutive) && 1 <= c && consecutive <= c && succeeded <= n
    ensures succeeded + failed <= c * (n + 1)
  {
    assert c * (n + 1) == c * n + c && (c - 1) * succeeded + succeeded == c * succeeded;
    assert c * succeeded <= c * n;
  }
}
