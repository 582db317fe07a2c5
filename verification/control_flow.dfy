/** Control flow graphs of BOOM functions and what running one shows.

    Statements and conditions are known by number; a condition may depend on everything
    executed so far, so a run is described by its trace. */
module ControlFlow {
  import opened Wrappers

  type Statement = nat
  type Condition = nat

  datatype Terminator =
    | Return(value: string)
    | Panic(cause: string)
    | Conditional(condition: Condition, target: nat, fallthrough: nat)
    | Unconditional(target: nat)

  datatype Block = Block(name: Option<string>, statements: seq<Statement>, terminator: Terminator)

  /** A block as it is created. */
  const NEW_BLOCK := Block(None, [], Panic("default terminator"))

  type Graph = seq<Block>

  datatype Event = Ran(statement: Statement) | Tested(condition: Condition, taken: bool)

  type Trace = seq<Event>

  type Test = (Condition, Trace) -> bool

  datatype Status = Running | Returned(value: string) | Panicked(cause: string) | Stuck

  datatype Observation = Observation(trace: Trace, status: Status)

  datatype Config = At(block: nat, pos: nat, trace: Trace) | Ended(observation: Observation)

  function Observe(c: Config): Observation {
    match c
    case At(_, _, trace) => Observation(trace, Running)
    case Ended(o) => o
  }

  function Step(g: Graph, test: Test, c: Config): Config {
    match c
    case Ended(_) => c
    case At(b, pos, trace) =>
      if b >= |g| then Ended(Observation(trace, Stuck))
      else if pos < |g[b].statements| then At(b, pos + 1, trace + [Ran(g[b].statements[pos])])
      else
        match g[b].terminator
        case Return(v) => Ended(Observation(trace, Returned(v)))
        case Panic(v) => Ended(Observation(trace, Panicked(v)))
        case Unconditional(t) => At(t, 0, trace)
        case Conditional(x, t, f) =>
          if test(x, trace) then At(t, 0, trace + [Tested(x, true)]) else At(f, 0, trace + [Tested(x, false)])
  }

  function Run(g: Graph, test: Test, c: Config, n: nat): Config
    decreases n
  {
    if n == 0 then c else Run(g, test, Step(g, test, c), n - 1)
  }

  ghost predicate Shows(g: Graph, test: Test, c: Config, o: Observation) {
    exists n: nat :: Observe(Run(g, test, c, n)) == o
  }
}
