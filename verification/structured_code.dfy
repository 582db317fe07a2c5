/** BOOM statement lists with nested ifs, labels and jumps, and what running one shows. */
module StructuredCode {
  import opened Wrappers
  import opened ControlFlow

  datatype Stmt =
    | Label(name: string)
    | If(condition: Condition, ifBody: seq<Stmt>, elseBody: seq<Stmt>)
    | Jump(condition: Condition, target: string)
    | Goto(target: string)
    | End(value: string)
    | Undefined
    | Abort(cause: string)
    | Other(statement: Statement)

  type Code = seq<Stmt>

  /** What is left to run: the rest of the innermost list, then the rest of the lists around it. */
  datatype Cont = Halt | Seq(todo: Code, after: Cont)

  datatype Running = Going(cont: Cont, trace: Trace) | Over(observation: Observation)

  /** What is left after the last label `name` of `code`, if it has one. */
  function Find(code: Code, after: Cont, name: string): Option<Cont>
    decreases code
  {
    if code == [] then None
    else
      match Find(code[1..], after, name)
      case Some(k) => Some(k)
      case None =>
        match code[0]
        case Label(l) => if l == name then Some(Seq(code[1..], after)) else None
        case If(_, x, y) =>
          (match Find(y, Seq(code[1..], after), name)
           case Some(k) => Some(k)
           case None => Find(x, Seq(code[1..], after), name))
        case _ => None
  }

  function JumpTo(program: Code, name: string, trace: Trace): Running {
    match Find(program, Halt, name)
    case Some(k) => Going(k, trace)
    case None => Over(Observation(trace, Stuck))
  }

  function StructuredStep(program: Code, test: Test, c: Running): Running {
    match c
    case Over(_) => c
    case Going(Halt, trace) => Over(Observation(trace, Stuck))
    case Going(Seq(todo, after), trace) =>
      if todo == [] then (if after.Halt? then Over(Observation(trace, Stuck)) else Going(after, trace))
      else
        var rest := Seq(todo[1..], after);
        match todo[0]
        case Label(_) => Going(rest, trace)
        case Other(s) => Going(rest, trace + [Ran(s)])
        case If(x, a, b) =>
          if test(x, trace) then Going(Seq(a, rest), trace + [Tested(x, true)])
          else Going(Seq(b, rest), trace + [Tested(x, false)])
        case Jump(x, l) =>
          if test(x, trace) then JumpTo(program, l, trace + [Tested(x, true)])
          else Going(rest, trace + [Tested(x, false)])
        case Goto(l) => JumpTo(program, l, trace)
        case End(v) => Over(Observation(trace, Returned(v)))
        case Undefined => Over(Observation(trace, Panicked("undefined terminator")))
        case Abort(v) => Over(Observation(trace, Panicked(v)))
  }

  function StructuredRun(program: Code, test: Test, c: Running, n: nat): Running
    decreases n
  {
    if n == 0 then c else StructuredRun(program, test, StructuredStep(program, test, c), n - 1)
  }

  /** What `program` shows after `n` steps. */
  function StructuredShows(program: Code, test: Test, n: nat): Observation {
    match StructuredRun(program, test, Going(Seq(program, Halt), []), n)
    case Going(_, trace) => Observation(trace, Status.Running)
    case Over(o) => o
  }
}
