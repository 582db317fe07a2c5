/** From flat JIB code with numeric jump targets to a control flow graph. */
module FlatCode {
  import opened ControlFlow

  /** `Do` is an instruction that does not jump, with the statements it is converted to. */
  datatype Instr =
    | Goto(target: nat)
    | Jump(condition: Condition, target: nat)
    | End
    | Exit(cause: string)
    | Do(statements: seq<Statement>)

  type Code = seq<Instr>

  /** Targets are in range and control cannot fall off the end. */
  predicate InRange(code: Code) {
    && code != [] && (code[|code| - 1].Goto? || code[|code| - 1].End? || code[|code| - 1].Exit?)
    && forall i <- code :: (i.Goto? || i.Jump?) ==> i.target < |code|
  }

  datatype FlatConfig = On(pc: nat, sub: nat, trace: Trace) | Over(observation: Observation)

  function ObserveFlat(c: FlatConfig): Observation {
    match c
    case On(_, _, trace) => Observation(trace, Running)
    case Over(o) => o
  }

  /** One step of the program-counter machine; `sub` counts the statements of the current instruction. */
  function FlatStep(code: Code, test: Test, c: FlatConfig): FlatConfig {
    match c
    case Over(_) => c
    case On(pc, sub, trace) =>
      if pc >= |code| then Over(Observation(trace, Stuck))
      else
        match code[pc]
        case Do(ss) => if sub < |ss| then On(pc, sub + 1, trace + [Ran(ss[sub])]) else On(pc + 1, 0, trace)
        case Goto(t) => On(t, 0, trace)
        case Jump(x, t) =>
          if test(x, trace) then On(t, 0, trace + [Tested(x, true)]) else On(pc + 1, 0, trace + [Tested(x, false)])
        case End => Over(Observation(trace, Returned("return")))
        case Exit(cause) => Over(Observation(trace, Panicked(cause)))
  }

  function FlatRun(code: Code, test: Test, c: FlatConfig, n: nat): FlatConfig
    decreases n
  {
    if n == 0 then c else FlatRun(code, test, FlatStep(code, test, c), n - 1)
  }

  ghost predicate FlatShows(code: Code, test: Test, c: FlatConfig, o: Observation) {
    exists n: nat :: ObserveFlat(FlatRun(code, test, c, n)) == o
  }

  /** Where the code of an instruction begins: a block and the number of statements before it. */
  datatype Spot = Spot(block: nat, offset: nat)

  /** Control at the end of the first `offset` statements of block `b` reaches the start of `spot`. */
  ghost predicate Leads(g: Graph, b: nat, offset: nat, spot: Spot)
    requires b < |g|
  {
    spot == Spot(b, offset) ||
    (offset == |g[b].statements| && g[b].terminator == Unconditional(spot.block) && spot.offset == 0)
  }

  /** Instruction `pc` is in the graph at its spot, and is followed by what may follow it. */
  ghost predicate SpotOk(code: Code, g: Graph, spots: seq<Spot>, pc: nat)
    requires InRange(code) && |spots| == |code| && pc < |code|
  {
    var Spot(b, offset) := spots[pc];
    && b < |g| && offset <= |g[b].statements|
    && match code[pc]
       case Do(ss) =>
         && offset + |ss| <= |g[b].statements| && g[b].statements[offset..offset + |ss|] == ss
         && pc + 1 < |code| && Leads(g, b, offset + |ss|, spots[pc + 1])
       case Goto(t) =>
         offset == |g[b].statements| && t < |code| && spots[t].offset == 0
             && g[b].terminator == Unconditional(spots[t].block)
       case Jump(x, t) =>
         && offset == |g[b].statements| && t < |code| && pc + 1 < |code| && spots[t].offset == 0
              && spots[pc + 1].offset == 0
         && g[b].terminator == Conditional(x, spots[t].block, spots[pc + 1].block)
       case End => offset == |g[b].statements| && g[b].terminator == Return("return")
       case Exit(cause) => offset == |g[b].statements| && g[b].terminator == Panic(cause)
  }

  /** `g` is a graph of `code`. */
  ghost predicate Built(code: Code, g: Graph, entry: nat, spots: seq<Spot>) {
    && InRange(code) && |spots| == |code| && entry < |g|
    && Leads(g, entry, 0, spots[0])
    && forall pc :: 0 <= pc < |code| ==> SpotOk(code, g, spots, pc)
  }

  ghost predicate Same(code: Code, spots: seq<Spot>, c: Config, f: FlatConfig) {
    match f
    case Over(o) => c == Ended(o)
    case On(pc, sub, trace) =>
      && pc < |code| == |spots| && sub <= (if code[pc].Do? then |code[pc].statements| else 0)
      && c == At(spots[pc].block, spots[pc].offset + sub, trace)
  }

  /** The machine goes on to an instruction of the same block, which the graph does not notice. */
  ghost predicate Silent(code: Code, spots: seq<Spot>, f: FlatConfig) {
    && f.On? && f.pc + 1 < |code| == |spots| && code[f.pc].Do? && f.sub == |code[f.pc].statements|
    && spots[f.pc + 1] == Spot(spots[f.pc].block, spots[f.pc].offset + f.sub)
  }

  /** One step of the program-counter machine is one step of the graph, unless it is silent. */
  lemma {:induction false} StepSame(code: Code, g: Graph, entry: nat, spots: seq<Spot>, test: Test, c: Config,
      f: FlatConfig)
    requires Built(code, g, entry, spots) && Same(code, spots, c, f)
    ensures var f' := FlatStep(code, test, f);
            if Silent(code, spots, f) then Same(code, spots, c, f') && f'.On? && f'.pc == f.pc + 1
            else Same(code, spots, Step(g, test, c), f')
  {
    if f.On? {
      assert SpotOk(code, g, spots, f.pc);
      var b, offset := spots[f.pc].block, spots[f.pc].offset;
      if code[f.pc].Do? && f.sub < |code[f.pc].statements| {
        assert g[b].statements[offset + f.sub] == g[b].statements[offset..offset + |code[f.pc].statements|][f.sub];
      }
    }
  }

  lemma {:induction false} GraphFollows(code: Code, g: Graph, entry: nat, spots: seq<Spot>, test: Test, c: Config,
      f: FlatConfig, n: nat)
    returns (m: nat)
    requires Built(code, g, entry, spots) && Same(code, spots, c, f)
    ensures Same(code, spots, Run(g, test, c, m), FlatRun(code, test, f, n))
    decreases n
  {
    m := 0;
    if n > 0 {
      StepSame(code, g, entry, spots, test, c, f);
      if Silent(code, spots, f) {
        m := GraphFollows(code, g, entry, spots, test, c, FlatStep(code, test, f), n - 1);
      } else {
        m := GraphFollows(code, g, entry, spots, test, Step(g, test, c), FlatStep(code, test, f), n - 1);
        m := m + 1;
      }
    }
  }

  lemma {:induction false} FlatFollows(code: Code, g: Graph, entry: nat, spots: seq<Spot>, test: Test, c: Config,
      f: FlatConfig, m: nat)
    returns (n: nat)
    requires Built(code, g, entry, spots) && Same(code, spots, c, f)
    ensures Same(code, spots, Run(g, test, c, m), FlatRun(code, test, f, n))
    decreases m, if f.On? then |code| - f.pc else 0
  {
    n := 0;
    if m > 0 {
      StepSame(code, g, entry, spots, test, c, f);
      if Silent(code, spots, f) {
        n := FlatFollows(code, g, entry, spots, test, c, FlatStep(code, test, f), m);
      } else {
        n := FlatFollows(code, g, entry, spots, test, Step(g, test, c), FlatStep(code, test, f), m - 1);
      }
      n := n + 1;
    }
  }

  lemma {:induction false} SameObservation(code: Code, spots: seq<Spot>, c: Config, f: FlatConfig)
    requires Same(code, spots, c, f)
    ensures Observe(c) == ObserveFlat(f)
  {}

  /** The graph, run from its entry, shows exactly what the program-counter machine shows from
      instruction 0: the same statements in the same order, the same branches, the same end. */
  lemma {:induction false} BuiltSimulates(code: Code, g: Graph, entry: nat, spots: seq<Spot>, test: Test,
      o: Observation)
    requires Built(code, g, entry, spots)
    ensures Shows(g, test, At(entry, 0, []), o) <==> FlatShows(code, test, On(0, 0, []), o)
  {
    var f := On(0, 0, []);
    var start := At(spots[0].block, spots[0].offset, []);
    assert Same(code, spots, start, f);
    if FlatShows(code, test, f, o) {
      var n: nat :| ObserveFlat(FlatRun(code, test, f, n)) == o;
      var m := GraphFollows(code, g, entry, spots, test, start, f, n);
      SameObservation(code, spots, Run(g, test, start, m), FlatRun(code, test, f, n));
      EntryShows(code, g, entry, spots, test, m);
    }
    if Shows(g, test, At(entry, 0, []), o) {
      var m: nat :| Observe(Run(g, test, At(entry, 0, []), m)) == o;
      if At(entry, 0, []) == start {
        var n := FlatFollows(code, g, entry, spots, test, start, f, m);
        SameObservation(code, spots, Run(g, test, start, m), FlatRun(code, test, f, n));
      } else if m == 0 {
        assert ObserveFlat(FlatRun(code, test, f, 0)) == o;
      } else {
        assert Step(g, test, At(entry, 0, [])) == start;
        var n := FlatFollows(code, g, entry, spots, test, start, f, m - 1);
        SameObservation(code, spots, Run(g, test, start, m - 1), FlatRun(code, test, f, n));
      }
    }
  }

  lemma {:induction false} EntryShows(code: Code, g: Graph, entry: nat, spots: seq<Spot>, test: Test, m: nat)
    requires Built(code, g, entry, spots)
    ensures Shows(g, test, At(entry, 0, []), Observe(Run(g, test, At(spots[0].block, spots[0].offset, []), m)))
  {
    var start := At(spots[0].block, spots[0].offset, []);
    if At(entry, 0, []) != start {
      assert Step(g, test, At(entry, 0, [])) == start;
      assert Run(g, test, At(entry, 0, []), m + 1) == Run(g, test, start, m);
    }
  }
}
