/** The graph built from structured code runs in step with it. */
module GraphSimulation {
  import opened ControlFlow
  import opened StructuredCode
  import opened UnresolvedGraph
  import opened GraphBuilder

  const START := Builder([NEW_OPEN_BLOCK], map[], 0)

  /** `g` and `labels` stand for `program`, entered at block 0. */
  ghost predicate StandsFor(program: Code, g: OpenGraph, labels: Labels) {
    && Represents(g, 0, 0, Seq(program, Halt))
    && forall name ::
         match Find(program, Halt, name)
         case Some(k) => name in labels && Represents(g, labels[name], 0, k)
         case None => name !in labels
  }

  lemma {:induction false} BuiltStandsFor(program: Code)
    ensures var s := Process(START, program); StandsFor(program, s.blocks, s.labels)
  {
    var s := Process(START, program);
    assert GoesOn(s, s.blocks, Seq([], Halt));
    ProcessRepresents(START, program, s.blocks, [], Halt);
    assert program + [] == program;
    forall name
      ensures Located(START, s, s.blocks, Find(program, Halt, name), name)
    {
      ProcessLocates(START, program, s.blocks, Halt, name);
    }
  }

  ghost predicate InStep(g: OpenGraph, c: Config, r: Running) {
    match r
    case Over(o) => c == Ended(o)
    case Going(k, trace) => c.At? && c.trace == trace && Represents(g, c.block, c.pos, k)
  }

  lemma {:induction false} StepInStep(program: Code, g: OpenGraph, labels: Labels, test: Test, c: Config, r: Running)
    requires StandsFor(program, g, labels) && InStep(g, c, r)
    ensures InStep(g, OpenStep(g, labels, test, c), StructuredStep(program, test, r))
  {
    if r.Going? && r.cont.todo != [] {
      var stmt := r.cont.todo[0];
      if stmt.Goto? || stmt.Jump? {
        var found := Find(program, Halt, stmt.target);
        assert found.None? ==> stmt.target !in labels;
      }
    }
  }

  lemma {:induction false} RunInStep(program: Code, g: OpenGraph, labels: Labels, test: Test, c: Config, r: Running,
      n: nat)
    requires StandsFor(program, g, labels) && InStep(g, c, r)
    ensures InStep(g, OpenRun(g, labels, test, c, n), StructuredRun(program, test, r, n))
    decreases n
  {
    if n > 0 {
      StepInStep(program, g, labels, test, c, r);
      RunInStep(program, g, labels, test, OpenStep(g, labels, test, c), StructuredStep(program, test, r), n - 1);
    }
  }

  /** After every number of steps, the graph has run the same statements with the same outcome. */
  lemma {:induction false} BuiltRunsInStep(program: Code, test: Test, n: nat)
    ensures var s := Process(START, program);
            Observe(OpenRun(s.blocks, s.labels, test, At(0, 0, []), n)) == StructuredShows(program, test, n)
  {
    var s := Process(START, program);
    BuiltStandsFor(program);
    RunInStep(program, s.blocks, s.labels, test, At(0, 0, []), Going(Seq(program, Halt), []), n);
  }
}
