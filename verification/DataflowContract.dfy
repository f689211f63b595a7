/** The typed-input contract of a playbook (`src/playbook/dataflow-contract.ts`): the
    validator reports exactly the violations, and a playbook without any is acyclic and
    resolves every typed input to one producer. */
module DataflowContract {
  import opened Wrappers
  import opened Playbook

  datatype Issue =
    | DuplicateStep(at: Position)
    | DuplicateOutput(at: Position, index: nat)
    | UndeclaredProducer(at: Position, index: nat)
    | OwnProducer(at: Position, index: nat)
    | ProducerNotBefore(at: Position, index: nat)
    | MissingDependency(at: Position, index: nat)
    | UndeclaredOutput(at: Position, index: nat)
    | KindMismatch(at: Position, index: nat)

  // ---------------------------------------------------------------- what a violation is

  /** An earlier step has the same id. */
  ghost predicate Repeated(p: Playbook, at: Position)
    requires IsStep(p, at)
  {
    exists earlier :: IsStep(p, earlier) && Before(earlier, at) && StepAt(p, earlier).id == StepAt(p, at).id
  }

  /** `at` is the first step with the id. */
  ghost predicate Introduces(p: Playbook, at: Position, id: string) {
    IsStep(p, at) && StepAt(p, at).id == id && !Repeated(p, at)
  }

  ghost predicate RepeatsOutput(outputs: seq<StepOutput>, k: nat)
    requires k < |outputs|
  {
    outputs[k].Declared? && exists l :: 0 <= l < k && outputs[l].Declared? && outputs[l].name == outputs[k].name
  }

  ghost predicate Declares(outputs: seq<StepOutput>, name: string, kind: string) {
    exists k :: 0 <= k < |outputs| && outputs[k] == Declared(name, kind) && !RepeatsOutput(outputs, k)
  }

  /** A typed input of a step that is not a repetition. */
  ghost predicate Typed(p: Playbook, at: Position, k: nat) {
    IsStep(p, at) && !Repeated(p, at) && k < |StepAt(p, at).inputs| && StepAt(p, at).inputs[k].Binding?
  }

  ghost predicate Violates(p: Playbook, issue: Issue) {
    match issue
    case DuplicateStep(at) => IsStep(p, at) && Repeated(p, at)
    case DuplicateOutput(at, k) =>
      IsStep(p, at) && !Repeated(p, at) && k < |StepAt(p, at).outputs| && RepeatsOutput(StepAt(p, at).outputs, k)
    case _ => Typed(p, issue.at, issue.index) && InputViolates(p, issue, StepAt(p, issue.at).inputs[issue.index])
  }

  /** For a typed input; a missing or late producer hides what would follow. */
  ghost predicate InputViolates(p: Playbook, issue: Issue, input: StepInput)
    requires IsStep(p, issue.at) && input.Binding?
  {
    var consumer := StepAt(p, issue.at);
    match issue
    case UndeclaredProducer(_, _) => forall at :: IsStep(p, at) ==> StepAt(p, at).id != input.step
    case OwnProducer(_, _) => input.step == consumer.id
    case ProducerNotBefore(at, _) => exists from :: Introduces(p, from, input.step) && Before(at, from)
    case MissingDependency(at, _) =>
      input.step !in consumer.dependsOn && exists from :: Introduces(p, from, input.step) && Before(from, at)
    case UndeclaredOutput(at, _) =>
      exists from :: Introduces(p, from, input.step) && Before(from, at)
                     && forall kind :: !Declares(StepAt(p, from).outputs, input.output, kind)
    case KindMismatch(at, _) =>
      exists from, kind :: Introduces(p, from, input.step) && Before(from, at)
                           && Declares(StepAt(p, from).outputs, input.output, kind) && kind != input.kind
    case _ => false
  }

  // ---------------------------------------------------------------- the validator

  /** `StepEntry`. */
  datatype Entry = Entry(at: Position, step: Step, outputs: map<string, string>)

  ghost predicate EntryFits(p: Playbook, entry: Entry) {
    && IsStep(p, entry.at) && !Repeated(p, entry.at) && entry.step == StepAt(p, entry.at)
    && OutputsFit(entry.outputs, entry.step.outputs)
  }

  ghost predicate OutputsFit(outputs: map<string, string>, declared: seq<StepOutput>) {
    forall name, kind :: (name in outputs && outputs[name] == kind) <==> Declares(declared, name, kind)
  }

  /** The steps before `end` that introduce an id, in declaration order. */
  ghost predicate Indexed(p: Playbook, entries: seq<Entry>, end: Position) {
    && (forall e <- entries :: EntryFits(p, e) && Before(e.at, end))
    && (forall at :: IsStep(p, at) && Before(at, end) && !Repeated(p, at) ==> exists n :: 0 <= n < |entries| && entries[n].at == at)
    && (forall n, m :: 0 <= n < m < |entries| ==> Before(entries[n].at, entries[m].at))
  }

  ghost predicate Seen(p: Playbook, seen: set<string>, end: Position) {
    forall id :: id in seen <==> exists at :: IsStep(p, at) && Before(at, end) && StepAt(p, at).id == id
  }

  /** Exactly the violations met while indexing the steps before `end`. */
  ghost predicate IndexIssues(p: Playbook, issues: seq<Issue>, end: Position) {
    forall issue :: issue in issues <==>
      Violates(p, issue) && (issue.DuplicateStep? || issue.DuplicateOutput?) && Before(issue.at, end)
  }

  /** The inner loop of `indexSteps` over one step's outputs. */
  method IndexOutputs(declared: seq<StepOutput>, at: Position)
    returns (outputs: map<string, string>, issues: seq<Issue>)
    ensures OutputsFit(outputs, declared)
    ensures forall issue :: issue in issues <==>
              issue.DuplicateOutput? && issue.at == at && issue.index < |declared| && RepeatsOutput(declared, issue.index)
  {
    outputs, issues := map[], [];
    for k: nat := 0 to |declared|
      invariant forall name :: name in outputs <==> exists l :: 0 <= l < k && declared[l].Declared? && declared[l].name == name
      invariant forall name <- outputs :: Declares(declared, name, outputs[name])
      invariant forall issue :: issue in issues <==>
                  issue.DuplicateOutput? && issue.at == at && issue.index < k && RepeatsOutput(declared, issue.index)
    {
      if !declared[k].Declared? { continue; }
      if declared[k].name in outputs {
        issues := issues + [DuplicateOutput(at, k)];
        continue;
      }
      assert !RepeatsOutput(declared, k);
      outputs := outputs[declared[k].name := declared[k].kind];
    }
    forall name, kind | Declares(declared, name, kind)
      ensures name in outputs && outputs[name] == kind
    {
      DeclaredOnce(declared, name, kind, outputs[name]);
    }
  }

  lemma DeclaredOnce(outputs: seq<StepOutput>, name: string, a: string, b: string)
    requires Declares(outputs, name, a) && Declares(outputs, name, b)
    ensures a == b
  {
    var k :| 0 <= k < |outputs| && outputs[k] == Declared(name, a) && !RepeatsOutput(outputs, k);
    var l :| 0 <= l < |outputs| && outputs[l] == Declared(name, b) && !RepeatsOutput(outputs, l);
    assert k == l || k < l || l < k;
  }

  /** `indexSteps`. */
  method IndexSteps(p: Playbook) returns (entries: seq<Entry>, issues: seq<Issue>)
    ensures Indexed(p, entries, At(|p.stages|, 0))
    ensures IndexIssues(p, issues, At(|p.stages|, 0))
  {
    entries, issues := [], [];
    var seen: set<string> := {};
    for i: nat := 0 to |p.stages|
      invariant Indexed(p, entries, At(i, 0)) && Seen(p, seen, At(i, 0)) && IndexIssues(p, issues, At(i, 0))
    {
      var steps := p.stages[i].steps;
      for j: nat := 0 to |steps|
        invariant Indexed(p, entries, At(i, j)) && Seen(p, seen, At(i, j)) && IndexIssues(p, issues, At(i, j))
      {
        entries, seen, issues := IndexStep(p, At(i, j), entries, seen, issues);
      }
      NextStage(p, entries, seen, issues, i);
    }
  }

  /** One step of `indexSteps`. */
  method IndexStep(p: Playbook, at: Position, entries: seq<Entry>, seen: set<string>, issues: seq<Issue>)
    returns (entries': seq<Entry>, seen': set<string>, issues': seq<Issue>)
    requires IsStep(p, at) && Indexed(p, entries, at) && Seen(p, seen, at) && IndexIssues(p, issues, at)
    ensures var next := At(at.stage, at.step + 1);
            Indexed(p, entries', next) && Seen(p, seen', next) && IndexIssues(p, issues', next)
  {
    var step := StepAt(p, at);
    ghost var next := At(at.stage, at.step + 1);
    assert forall other :: Before(other, next) <==> Before(other, at) || other == at;
    assert step.id in seen <==> Repeated(p, at);
    if step.id in seen {
      return entries, seen, issues + [DuplicateStep(at)];
    }
    var outputs, found := IndexOutputs(step.outputs, at);
    IndexedGrows(p, entries, Entry(at, step, outputs));
    entries', seen', issues' := entries + [Entry(at, step, outputs)], seen + {step.id}, issues + found;
  }

  lemma IndexedGrows(p: Playbook, entries: seq<Entry>, entry: Entry)
    requires Indexed(p, entries, entry.at) && EntryFits(p, entry)
    ensures Indexed(p, entries + [entry], At(entry.at.stage, entry.at.step + 1))
  {
    var at, grown := entry.at, entries + [entry];
    var next := At(at.stage, at.step + 1);
    assert forall other :: Before(other, next) <==> Before(other, at) || other == at;
    forall other | IsStep(p, other) && Before(other, next) && !Repeated(p, other)
      ensures exists n :: 0 <= n < |grown| && grown[n].at == other
    {
      if other == at {
        assert grown[|entries|].at == other;
      } else {
        var n :| 0 <= n < |entries| && entries[n].at == other;
        assert grown[n].at == other;
      }
    }
  }

  lemma NextStage(p: Playbook, entries: seq<Entry>, seen: set<string>, issues: seq<Issue>, i: nat)
    requires i < |p.stages|
    requires var end := At(i, |p.stages[i].steps|); Indexed(p, entries, end) && Seen(p, seen, end) && IndexIssues(p, issues, end)
    ensures var end := At(i + 1, 0); Indexed(p, entries, end) && Seen(p, seen, end) && IndexIssues(p, issues, end)
  {
    assert forall at :: IsStep(p, at) ==> (Before(at, At(i + 1, 0)) <==> Before(at, At(i, |p.stages[i].steps|)));
  }

  /** The last entry with this id wins in the map of steps by id; ids are distinct there. */
  method EntryOf(p: Playbook, entries: seq<Entry>, id: string) returns (found: Option<nat>)
    requires Indexed(p, entries, At(|p.stages|, 0))
    ensures found.Some? ==> found.value < |entries| && Introduces(p, entries[found.value].at, id)
    ensures found.None? ==> forall at :: IsStep(p, at) ==> StepAt(p, at).id != id
  {
    found := None;
    for n: nat := 0 to |entries|
      invariant found.Some? ==> found.value < |entries| && entries[found.value].step.id == id
      invariant found.None? ==> forall m :: 0 <= m < n ==> entries[m].step.id != id
    {
      if entries[n].step.id == id { found := Some(n); }
    }
    forall at | IsStep(p, at)
      ensures exists n :: 0 <= n < |entries| && entries[n].step.id == StepAt(p, at).id
    {
      EveryIdIsIndexed(p, entries, at);
    }
  }

  lemma EveryIdIsIndexed(p: Playbook, entries: seq<Entry>, at: Position)
    requires Indexed(p, entries, At(|p.stages|, 0)) && IsStep(p, at)
    ensures exists n :: 0 <= n < |entries| && entries[n].step.id == StepAt(p, at).id
  {
    var first := FirstWith(p, at);
    var n :| 0 <= n < |entries| && entries[n].at == first;
    assert EntryFits(p, entries[n]);
  }

  /** Some first step carries the id of `at`. */
  lemma FirstWith(p: Playbook, at: Position) returns (first: Position)
    requires IsStep(p, at)
    ensures Introduces(p, first, StepAt(p, at).id)
    decreases at.stage, at.step
  {
    if Repeated(p, at) {
      var earlier :| IsStep(p, earlier) && Before(earlier, at) && StepAt(p, earlier).id == StepAt(p, at).id;
      first := FirstWith(p, earlier);
    } else {
      first := at;
    }
  }

  lemma IntroducedOnce(p: Playbook, a: Position, b: Position, id: string)
    requires Introduces(p, a, id) && Introduces(p, b, id)
    ensures a == b
  {
    assert a == b || Before(a, b) || Before(b, a);
  }

  /** The loop body of `validatePlaybookDataflow` for one typed input. */
  method CheckInput(p: Playbook, entries: seq<Entry>, n: nat, k: nat) returns (issues: seq<Issue>)
    requires Indexed(p, entries, At(|p.stages|, 0)) && n < |entries|
    requires Typed(p, entries[n].at, k)
    ensures forall issue :: issue in issues <==>
              InputIssue(issue) && issue.at == entries[n].at && issue.index == k && Violates(p, issue)
  {
    var at, step := entries[n].at, entries[n].step;
    var input := step.inputs[k];
    assert EntryFits(p, entries[n]);
    var producer := EntryOf(p, entries, input.step);
    if producer.None? {
      return [UndeclaredProducer(at, k)];
    }
    var m := producer.value;
    var from := entries[m];
    assert EntryFits(p, from);
    forall other | Introduces(p, other, input.step)
      ensures other == from.at
    {
      IntroducedOnce(p, other, from.at, input.step);
    }
    if from.step.id == step.id {
      IntroducedOnce(p, at, from.at, input.step);
      return [OwnProducer(at, k)];
    }
    assert Before(from.at, at) <==> m < n;
    assert Before(at, from.at) <==> n < m;
    if m >= n {
      return [ProducerNotBefore(at, k)];
    }
    issues := [];
    if input.step !in step.dependsOn {
      issues := issues + [MissingDependency(at, k)];
    }
    if input.output !in from.outputs {
      assert forall kind :: !Declares(from.step.outputs, input.output, kind);
      issues := issues + [UndeclaredOutput(at, k)];
      return;
    }
    assert Declares(from.step.outputs, input.output, from.outputs[input.output]);
    if from.outputs[input.output] != input.kind {
      issues := issues + [KindMismatch(at, k)];
    }
  }

  ghost predicate InputIssue(issue: Issue) {
    !issue.DuplicateStep? && !issue.DuplicateOutput?
  }

  /** `validatePlaybookDataflow`: reports every violation, and nothing else. */
  method Validate(p: Playbook) returns (issues: seq<Issue>)
    ensures forall issue :: issue in issues <==> Violates(p, issue)
    ensures issues == [] <==> WellFormed(p)
  {
    var entries;
    entries, issues := IndexSteps(p);
    ghost var indexIssues := issues;
    for n: nat := 0 to |entries|
      invariant forall issue :: issue in issues <==> issue in indexIssues || FoundBefore(p, issue, entries, n, 0)
    {
      var inputs := entries[n].step.inputs;
      assert EntryFits(p, entries[n]);
      for k: nat := 0 to |inputs|
        invariant forall issue :: issue in issues <==> issue in indexIssues || FoundBefore(p, issue, entries, n, k)
      {
        if !inputs[k].Binding? { continue; }
        var found := CheckInput(p, entries, n, k);
        issues := issues + found;
      }
    }
    ViolationsAreFound(p, entries, indexIssues);
    ValidExactlyWithoutViolation(p, issues);
  }

  /** A violation of an input of the first `n` entries, or of the first `k` inputs of the next. */
  ghost predicate FoundBefore(p: Playbook, issue: Issue, entries: seq<Entry>, n: nat, k: nat) {
    && InputIssue(issue) && Violates(p, issue)
    && exists m :: 0 <= m < |entries| && entries[m].at == issue.at && (m < n || (m == n && issue.index < k))
  }

  lemma ViolationsAreFound(p: Playbook, entries: seq<Entry>, indexIssues: seq<Issue>)
    requires Indexed(p, entries, At(|p.stages|, 0)) && IndexIssues(p, indexIssues, At(|p.stages|, 0))
    ensures forall issue :: Violates(p, issue) <==> issue in indexIssues || FoundBefore(p, issue, entries, |entries|, 0)
  {
    forall issue | Violates(p, issue)
      ensures issue in indexIssues || FoundBefore(p, issue, entries, |entries|, 0)
    {
      if InputIssue(issue) {
        var m :| 0 <= m < |entries| && entries[m].at == issue.at;
      }
    }
  }

  // ---------------------------------------------------------------- what a valid playbook is

  /** Input `k` of the step at `at` takes its value from an earlier step it depends on,
      which declares the output with the same kind. */
  ghost predicate Supplied(p: Playbook, at: Position, k: nat)
    requires IsStep(p, at) && k < |StepAt(p, at).inputs| && StepAt(p, at).inputs[k].Binding?
  {
    var input := StepAt(p, at).inputs[k];
    input.step in StepAt(p, at).dependsOn && exists from :: Supplies(p, from, at, input)
  }

  ghost predicate Supplies(p: Playbook, from: Position, at: Position, input: StepInput)
    requires input.Binding?
  {
    IsStep(p, from) && Before(from, at) && StepAt(p, from).id == input.step && Declared(input.output, input.kind) in StepAt(p, from).outputs
  }

  ghost predicate DistinctOutputs(outputs: seq<StepOutput>) {
    forall k, l :: 0 <= k < l < |outputs| && outputs[k].Declared? && outputs[l].Declared? ==> outputs[k].name != outputs[l].name
  }

  ghost predicate WellFormed(p: Playbook) {
    && DistinctStepIds(p)
    && (forall at :: IsStep(p, at) ==> DistinctOutputs(StepAt(p, at).outputs))
    && (forall at, k :: IsStep(p, at) && 0 <= k < |StepAt(p, at).inputs| && StepAt(p, at).inputs[k].Binding? ==> Supplied(p, at, k))
  }

  lemma ValidExactlyWithoutViolation(p: Playbook, issues: seq<Issue>)
    requires forall issue :: issue in issues <==> Violates(p, issue)
    ensures issues == [] <==> WellFormed(p)
  {
    if issues == [] {
      NoViolationIsValid(p);
    } else {
      assert issues[0] in issues;
      if WellFormed(p) { ValidHasNoViolation(p, issues[0]); }
    }
  }

  lemma NoViolationIsValid(p: Playbook)
    requires forall issue :: !Violates(p, issue)
    ensures WellFormed(p)
  {
    forall a, b | IsStep(p, a) && IsStep(p, b) && StepAt(p, a).id == StepAt(p, b).id
      ensures a == b
    {
      assert !Violates(p, DuplicateStep(a)) && !Violates(p, DuplicateStep(b));
      IntroducedOnce(p, a, b, StepAt(p, a).id);
    }
    forall at | IsStep(p, at)
      ensures DistinctOutputs(StepAt(p, at).outputs)
    {
      assert !Violates(p, DuplicateStep(at));
      NoRepeatedOutput(p, at);
    }
    forall at, k | IsStep(p, at) && 0 <= k < |StepAt(p, at).inputs| && StepAt(p, at).inputs[k].Binding?
      ensures Supplied(p, at, k)
    {
      assert !Violates(p, DuplicateStep(at));
      UnviolatedIsSupplied(p, at, k);
    }
  }

  lemma NoRepeatedOutput(p: Playbook, at: Position)
    requires IsStep(p, at) && !Repeated(p, at) && forall issue :: !Violates(p, issue)
    ensures DistinctOutputs(StepAt(p, at).outputs)
  {
    var outputs := StepAt(p, at).outputs;
    forall k, l | 0 <= k < l < |outputs| && outputs[k].Declared? && outputs[l].Declared?
      ensures outputs[k].name != outputs[l].name
    {
      assert !Violates(p, DuplicateOutput(at, l));
    }
  }

  lemma UnviolatedIsSupplied(p: Playbook, at: Position, k: nat)
    requires Typed(p, at, k) && forall issue :: !Violates(p, issue)
    ensures Supplied(p, at, k)
  {
    var input := StepAt(p, at).inputs[k];
    assert !Violates(p, UndeclaredProducer(at, k));
    var some :| IsStep(p, some) && StepAt(p, some).id == input.step;
    var from := FirstWith(p, some);
    assert Before(from, at) by {
      assert !Violates(p, OwnProducer(at, k)) && !Violates(p, ProducerNotBefore(at, k));
    }
    EarlierProducerSupplies(p, at, k, from);
  }

  lemma EarlierProducerSupplies(p: Playbook, at: Position, k: nat, from: Position)
    requires Typed(p, at, k) && Introduces(p, from, StepAt(p, at).inputs[k].step) && Before(from, at)
    requires forall issue :: !Violates(p, issue)
    ensures Supplied(p, at, k)
  {
    var input := StepAt(p, at).inputs[k];
    assert !Violates(p, MissingDependency(at, k)) && !Violates(p, UndeclaredOutput(at, k));
    var kind :| Declares(StepAt(p, from).outputs, input.output, kind);
    assert !Violates(p, KindMismatch(at, k));
    assert Supplies(p, from, at, input);
  }

  lemma ValidHasNoViolation(p: Playbook, issue: Issue)
    requires WellFormed(p)
    ensures !Violates(p, issue)
  {
    if InputIssue(issue) {
      if Typed(p, issue.at, issue.index) { SuppliedIsUnviolated(p, issue); }
    } else if IsStep(p, issue.at) {
      assert DistinctOutputs(StepAt(p, issue.at).outputs);
    }
  }

  lemma SuppliedIsUnviolated(p: Playbook, issue: Issue)
    requires WellFormed(p) && InputIssue(issue) && Typed(p, issue.at, issue.index)
    ensures !Violates(p, issue)
  {
    var at, input := issue.at, StepAt(p, issue.at).inputs[issue.index];
    assert Supplied(p, at, issue.index);
    var from :| Supplies(p, from, at, input);
    var outputs := StepAt(p, from).outputs;
    assert DistinctOutputs(outputs);
    var k :| 0 <= k < |outputs| && outputs[k] == Declared(input.output, input.kind);
    assert Declares(outputs, input.output, input.kind);
    assert Introduces(p, from, input.step);
  }

  // ---------------------------------------------------------------- what validity buys

  /** The step at `at` takes a typed input from the step at `from`. */
  ghost predicate Feeds(p: Playbook, from: Position, at: Position) {
    IsStep(p, at) && exists k :: 0 <= k < |StepAt(p, at).inputs| && StepAt(p, at).inputs[k].Binding?
                                 && IsStep(p, from) && StepAt(p, from).id == StepAt(p, at).inputs[k].step
  }

  /** No chain of typed inputs leads back to where it started. */
  lemma {:induction false} TypedInputsAreAcyclic(p: Playbook, chain: seq<Position>)
    requires WellFormed(p) && |chain| >= 2
    requires forall n :: 0 <= n < |chain| - 1 ==> Feeds(p, chain[n], chain[n + 1])
    ensures Before(chain[0], chain[|chain| - 1]) && chain[0] != chain[|chain| - 1]
  {
    assert Feeds(p, chain[0], chain[1]);
    FeedsForward(p, chain[0], chain[1]);
    if |chain| > 2 {
      forall n | 0 <= n < |chain| - 2
        ensures Feeds(p, chain[1..][n], chain[1..][n + 1])
      {
        assert Feeds(p, chain[n + 1], chain[n + 2]);
      }
      TypedInputsAreAcyclic(p, chain[1..]);
    }
  }

  lemma FeedsForward(p: Playbook, from: Position, at: Position)
    requires WellFormed(p) && Feeds(p, from, at)
    ensures Before(from, at)
  {
    var k :| 0 <= k < |StepAt(p, at).inputs| && StepAt(p, at).inputs[k].Binding? && StepAt(p, from).id == StepAt(p, at).inputs[k].step;
    assert Supplied(p, at, k);
  }

  /** In a valid playbook the resolver finds, for every typed input, one step and one
      output, of the declared kind, in an earlier step the consumer depends on. */
  lemma TypedInputsResolve(p: Playbook, at: Position, k: nat)
    requires WellFormed(p) && IsStep(p, at) && k < |StepAt(p, at).inputs| && StepAt(p, at).inputs[k].Binding?
    ensures var input := StepAt(p, at).inputs[k];
            exists from ::
              && Supplies(p, from, at, input) && input.step in StepAt(p, at).dependsOn
              && CanonicalStep(p, input.step) == Ok(from)
              && CanonicalProducer(p, input.step, input.output) == Ok((from, Declared(input.output, input.kind)))
  {
    var input := StepAt(p, at).inputs[k];
    assert Supplied(p, at, k);
    var from :| Supplies(p, from, at, input);
    CanonicalStepIs(p, input.step, from);
    assert DistinctOutputs(StepAt(p, from).outputs);
    OneNamedOutput(StepAt(p, from).outputs, Declared(input.output, input.kind));
  }

  lemma OneNamedOutput(outputs: seq<StepOutput>, output: StepOutput)
    requires DistinctOutputs(outputs) && output.Declared? && output in outputs
    ensures NamedOutputs(outputs, output.name) == [output]
  {
    var rest := outputs[1..];
    assert DistinctOutputs(rest);
    if outputs[0] == output {
      assert forall o <- rest :: !(o.Declared? && o.name == output.name);
      NoMembers(NamedOutputs(rest, output.name));
    } else {
      OneNamedOutput(rest, output);
    }
  }
}
