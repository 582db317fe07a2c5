/** Code with jumps: block graphs as the emitter leaves them.

    Instructions that do not jump are known by their number only, and a conditional
    jump may depend on everything executed so far, so a run is described completely by
    its trace. */
module JumpCode {
  datatype Instruction =
    | Plain(id: nat)
    | Jmp(target: nat)
    | Jcc(id: nat, target: nat)
    | Stop(id: nat)
    | Dead

  type Graph = seq<seq<Instruction>>

  datatype Event = Ran(id: nat) | Tested(id: nat, taken: bool)

  type Trace = seq<Event>

  /** The outcome of conditional jump `id` after a trace. */
  type Test = (nat, Trace) -> bool

  datatype Status = Running | Stopped(id: nat) | Stuck

  datatype Observation = Observation(trace: Trace, status: Status)

  datatype Config = At(block: nat, pos: nat, trace: Trace) | Ended(observation: Observation)

  function Observe(c: Config): Observation {
    match c
    case At(_, _, trace) => Observation(trace, Running)
    case Ended(o) => o
  }

  /** One instruction of the block graph. */
  function Step(g: Graph, test: Test, c: Config): Config {
    match c
    case Ended(_) => c
    case At(b, pos, trace) =>
      if b >= |g| || pos >= |g[b]| then Ended(Observation(trace, Stuck))
      else
        match g[b][pos]
        case Plain(id) => At(b, pos + 1, trace + [Ran(id)])
        case Dead => At(b, pos + 1, trace)
        case Jmp(t) => At(t, 0, trace)
        case Jcc(id, t) =>
          if test(id, trace) then At(t, 0, trace + [Tested(id, true)])
          else At(b, pos + 1, trace + [Tested(id, false)])
        case Stop(id) => Ended(Observation(trace, Stopped(id)))
  }

  function Run(g: Graph, test: Test, c: Config, n: nat): Config
    decreases n
  {
    if n == 0 then c else Run(g, test, Step(g, test, c), n - 1)
  }

  ghost predicate Shows(g: Graph, test: Test, c: Config, o: Observation) {
    exists n: nat :: Observe(Run(g, test, c, n)) == o
  }

  /** Runs of `g` from `c` and of `g'` from `c'` show the same: whatever one has executed at some
      moment, and whether it has stopped, the other has at some moment too. */
  ghost predicate SameRuns(g: Graph, c: Config, g': Graph, c': Config) {
    forall test: Test, o :: Shows(g, test, c, o) <==> Shows(g', test, c', o)
  }
}
