/** The declared playbook (`src/playbook/types.ts`) as the engine reads it, and the
    lookups over it in `src/artifacts/input-resolver.ts`. */
module Playbook {
  import opened Wrappers

  datatype OnInapplicable = Skip | StopStage | MarkBlocked

  /** A legacy label, or a typed binding to the output of another step. */
  datatype StepInput = Legacy(text: string) | Binding(name: string, kind: string, step: string, output: string)

  datatype StepOutput = Untyped(text: string) | Declared(name: string, kind: string)

  datatype Step = Step(
    id: string,
    dependsOn: seq<string>,
    inputs: seq<StepInput>,
    outputs: seq<StepOutput>,
    onInapplicable: OnInapplicable,
    blockedOnFailure: bool)

  datatype Stage = Stage(id: string, sequential: bool, dependsOn: seq<string>, onInapplicable: OnInapplicable,
          steps: seq<Step>)

  datatype Playbook = Playbook(stages: seq<Stage>)

  /** The place of a step: its stage, and its index there. */
  datatype Position = At(stage: nat, step: nat)

  predicate IsStep(p: Playbook, at: Position) {
    at.stage < |p.stages| && at.step < |p.stages[at.stage].steps|
  }

  function StepAt(p: Playbook, at: Position): Step
    requires IsStep(p, at)
  {
    p.stages[at.stage].steps[at.step]
  }

  /** Declaration order. */
  predicate Before(a: Position, b: Position) {
    a.stage < b.stage || (a.stage == b.stage && a.step < b.step)
  }

  ghost predicate DistinctStepIds(p: Playbook) {
    forall a, b :: IsStep(p, a) && IsStep(p, b) && StepAt(p, a).id == StepAt(p, b).id ==> a == b
  }

  ghost predicate DistinctStageIds(p: Playbook) {
    forall i, k :: 0 <= i < k < |p.stages| ==> p.stages[i].id != p.stages[k].id
  }

  // ---------------------------------------------------------------- lookups

  /** All positions from (`i`, `j`) on, in declaration order. */
  function PositionsFrom(p: Playbook, i: nat, j: nat): seq<Position>
    decreases |p.stages| - i, if i < |p.stages| then |p.stages[i].steps| - j else 0
  {
    if i >= |p.stages| then []
    else if j >= |p.stages[i].steps| then PositionsFrom(p, i + 1, 0)
    else [At(i, j)] + PositionsFrom(p, i, j + 1)
  }

  /** The steps with this id from (`i`, `j`) on. */
  function Matches(p: Playbook, positions: seq<Position>, id: string): seq<Position>
    requires forall at <- positions :: IsStep(p, at)
  {
    if positions == [] then []
    else (if StepAt(p, positions[0]).id == id then [positions[0]] else []) + Matches(p, positions[1..], id)
  }

  function NamedOutputs(outputs: seq<StepOutput>, name: string): (named: seq<StepOutput>)
    ensures forall o <- named :: o.Declared? && o.name == name && o in outputs
    ensures forall o <- outputs :: o.Declared? && o.name == name ==> o in named
  {
    if outputs == [] then []
    else (if outputs[0].Declared? && outputs[0].name == name then [outputs[0]] else []) + NamedOutputs(outputs[1..], name)
  }

  datatype LookupError = NotOneStep(matches: nat) | NotOneOutput(matches: nat)

  /** `canonicalStep`. */
  function CanonicalStep(p: Playbook, id: string): Result<Position, LookupError> {
    PositionsAreSteps(p, 0, 0);
    var matches := Matches(p, PositionsFrom(p, 0, 0), id);
    if |matches| != 1 then Err(NotOneStep(|matches|)) else Ok(matches[0])
  }

  /** `canonicalProducer`: the one step with this id and its one typed output of this name. */
  function CanonicalProducer(p: Playbook, id: string, output: string): Result<(Position, StepOutput), LookupError> {
    PositionsAreSteps(p, 0, 0);
    var matches := Matches(p, PositionsFrom(p, 0, 0), id);
    if |matches| != 1 then Err(NotOneStep(|matches|))
    else
      MatchesAreFound(p, PositionsFrom(p, 0, 0), id);
      var outputs := NamedOutputs(StepAt(p, matches[0]).outputs, output);
      if |outputs| != 1 then Err(NotOneOutput(|outputs|)) else Ok((matches[0], outputs[0]))
  }

  lemma PositionsAreSteps(p: Playbook, i: nat, j: nat)
    ensures forall at :: at in PositionsFrom(p, i, j) <==> IsStep(p, at) && !Before(at, At(i, j))
    decreases |p.stages| - i, if i < |p.stages| then |p.stages[i].steps| - j else 0
  {
    if i >= |p.stages| {
    } else if j >= |p.stages[i].steps| {
      PositionsAreSteps(p, i + 1, 0);
    } else {
      PositionsAreSteps(p, i, j + 1);
      var rest := PositionsFrom(p, i, j + 1);
      forall at: Position
        ensures at in [At(i, j)] + rest <==> IsStep(p, at) && !Before(at, At(i, j))
      {
        assert at in [At(i, j)] + rest <==> at == At(i, j) || at in rest;
      }
    }
  }

  ghost predicate NoRepeats(positions: seq<Position>) {
    forall k, l :: 0 <= k < l < |positions| ==> positions[k] != positions[l]
  }

  /** No position is listed twice. */
  lemma PositionsAreDistinct(p: Playbook, i: nat, j: nat)
    ensures NoRepeats(PositionsFrom(p, i, j))
    decreases |p.stages| - i, if i < |p.stages| then |p.stages[i].steps| - j else 0
  {
    if i >= |p.stages| {
    } else if j >= |p.stages[i].steps| {
      PositionsAreDistinct(p, i + 1, 0);
    } else {
      PositionsAreDistinct(p, i, j + 1);
      PositionsAreSteps(p, i, j + 1);
      var rest := PositionsFrom(p, i, j + 1);
      assert At(i, j) !in rest;
    }
  }

  lemma MatchesAreFound(p: Playbook, positions: seq<Position>, id: string)
    requires forall at <- positions :: IsStep(p, at)
    ensures forall at :: at in Matches(p, positions, id) <==> at in positions && StepAt(p, at).id == id
  {
    if positions != [] {
      MatchesAreFound(p, positions[1..], id);
      forall at: Position
        ensures at in Matches(p, positions, id) <==> at in positions && IsStep(p, at) && StepAt(p, at).id == id
      {
        assert at in positions <==> at == positions[0] || at in positions[1..];
      }
    }
  }

  lemma MatchesOfOne(p: Playbook, positions: seq<Position>, id: string, at: Position)
    requires forall other <- positions :: IsStep(p, other)
    requires NoRepeats(positions)
    requires at in positions
    requires forall other <- positions :: StepAt(p, other).id == id <==> other == at
    ensures Matches(p, positions, id) == [at]
  {
    if positions[0] == at {
      assert at !in positions[1..];
      MatchesAreFound(p, positions[1..], id);
      NoMembers(Matches(p, positions[1..], id));
    } else {
      MatchesOfOne(p, positions[1..], id, at);
    }
  }

  /** A lookup succeeds exactly for the step that alone carries the id. */
  lemma CanonicalStepIs(p: Playbook, id: string, at: Position)
    requires IsStep(p, at)
    ensures CanonicalStep(p, id) == Ok(at) <==> forall other :: IsStep(p, other) ==> (StepAt(p, other).id == id <==> other == at)
  {
    var all := PositionsFrom(p, 0, 0);
    PositionsAreSteps(p, 0, 0);
    PositionsAreDistinct(p, 0, 0);
    MatchesAreFound(p, all, id);
    if forall other :: IsStep(p, other) ==> (StepAt(p, other).id == id <==> other == at) {
      assert at in all;
      forall other <- all
        ensures StepAt(p, other).id == id <==> other == at
      {
        assert IsStep(p, other);
      }
      MatchesOfOne(p, all, id, at);
    }
    if CanonicalStep(p, id) == Ok(at) {
      assert Matches(p, all, id) == [at];
      forall other | IsStep(p, other)
        ensures StepAt(p, other).id == id <==> other == at
      {
        assert other in Matches(p, all, id) <==> other == at;
      }
    }
  }
}
