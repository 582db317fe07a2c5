/** Graphs whose jumps may still name labels, as they are before labels are resolved. */
module UnresolvedGraph {
  import opened Wrappers
  import opened ControlFlow

  datatype Target = Resolved(block: nat) | Unresolved(name: string)

  datatype OpenTerminator =
    | OpenReturn(value: string)
    | OpenConditional(condition: Condition, target: Target, fallthrough: Target)
    | OpenUnconditional(target: Target)
    | OpenUndefined
    | OpenPanic(cause: string)
    | Unknown

  datatype OpenBlock = OpenBlock(name: Option<string>, statements: seq<Statement>, terminator: OpenTerminator)

  const NEW_OPEN_BLOCK := OpenBlock(None, [], Unknown)

  type OpenGraph = seq<OpenBlock>
  type Labels = map<string, nat>

  /** The block a jump goes to, if there is one. */
  function Lookup(labels: Labels, t: Target): Option<nat> {
    match t
    case Resolved(b) => Some(b)
    case Unresolved(l) => if l in labels then Some(labels[l]) else None
  }

  function JumpTo(labels: Labels, t: Target, trace: Trace): Config {
    match Lookup(labels, t)
    case Some(b) => At(b, 0, trace)
    case None => Ended(Observation(trace, Stuck))
  }

  /** As `ControlFlow.Step`; a block without a terminator and a missing label have nowhere to go. */
  function OpenStep(g: OpenGraph, labels: Labels, test: Test, c: Config): Config {
    match c
    case Ended(_) => c
    case At(b, pos, trace) =>
      if b >= |g| then Ended(Observation(trace, Stuck))
      else if pos < |g[b].statements| then At(b, pos + 1, trace + [Ran(g[b].statements[pos])])
      else
        match g[b].terminator
        case OpenReturn(v) => Ended(Observation(trace, Returned(v)))
        case OpenPanic(v) => Ended(Observation(trace, Panicked(v)))
        case OpenUndefined => Ended(Observation(trace, Panicked("undefined terminator")))
        case OpenUnconditional(t) => JumpTo(labels, t, trace)
        case OpenConditional(x, t, f) =>
          if test(x, trace) then JumpTo(labels, t, trace + [Tested(x, true)])
          else JumpTo(labels, f, trace + [Tested(x, false)])
        case Unknown => Ended(Observation(trace, Stuck))
  }

  function OpenRun(g: OpenGraph, labels: Labels, test: Test, c: Config, n: nat): Config
    decreases n
  {
    if n == 0 then c else OpenRun(g, labels, test, OpenStep(g, labels, test, c), n - 1)
  }

  lemma {:induction false} OpenRunAdd(g: OpenGraph, labels: Labels, test: Test, c: Config, m: nat, n: nat)
    ensures OpenRun(g, labels, test, c, m + n) == OpenRun(g, labels, test, OpenRun(g, labels, test, c, m), n)
    decreases m
  {
    if m > 0 {
      OpenRunAdd(g, labels, test, OpenStep(g, labels, test, c), m - 1, n);
    }
  }

  function Targets(t: OpenTerminator): seq<Target> {
    match t
    case OpenConditional(_, t, f) => [t, f]
    case OpenUnconditional(t) => [t]
    case _ => []
  }

  /** Resolution cannot get past block `b`. */
  ghost predicate Bad(g: OpenGraph, labels: Labels, b: nat) {
    b >= |g| || g[b].terminator.Unknown? || exists t <- Targets(g[b].terminator) :: Lookup(labels, t) == None
  }

  ghost predicate Edge(g: OpenGraph, labels: Labels, b: nat, c: nat) {
    b < |g| && exists t <- Targets(g[b].terminator) :: Lookup(labels, t) == Some(c)
  }

  ghost predicate ReachesIn(g: OpenGraph, labels: Labels, b: nat, c: nat, n: nat)
    decreases n
  {
    if n == 0 then b == c else exists d: nat :: Edge(g, labels, b, d) && ReachesIn(g, labels, d, c, n - 1)
  }

  ghost predicate Reaches(g: OpenGraph, labels: Labels, b: nat, c: nat) {
    exists n: nat :: ReachesIn(g, labels, b, c, n)
  }

  lemma {:induction false} ReachesSelf(g: OpenGraph, labels: Labels, b: nat)
    ensures Reaches(g, labels, b, b)
  {
    assert ReachesIn(g, labels, b, b, 0);
  }

  lemma {:induction false} ReachesStep(g: OpenGraph, labels: Labels, b: nat, d: nat, c: nat)
    requires Edge(g, labels, b, d) && Reaches(g, labels, d, c)
    ensures Reaches(g, labels, b, c)
  {
    var n: nat :| ReachesIn(g, labels, d, c, n);
    assert ReachesIn(g, labels, b, c, n + 1);
  }

  /** The run of any test from `b` only gets stuck in a bad block that `b` reaches. */
  lemma {:induction false} StuckReachesBad(g: OpenGraph, labels: Labels, test: Test, b: nat, pos: nat, trace: Trace,
      n: nat)
    requires var c := OpenRun(g, labels, test, At(b, pos, trace), n); c.Ended? && c.observation.status.Stuck?
    ensures exists c :: Reaches(g, labels, b, c) && Bad(g, labels, c)
    decreases n
  {
    if Bad(g, labels, b) {
      ReachesSelf(g, labels, b);
    } else {
      var c := OpenStep(g, labels, test, At(b, pos, trace));
      if c.At? {
        StuckReachesBad(g, labels, test, c.block, c.pos, c.trace, n - 1);
        var d :| Reaches(g, labels, c.block, d) && Bad(g, labels, d);
        if c.block != b || c.pos == 0 {
          assert exists t <- Targets(g[b].terminator) :: Lookup(labels, t) == Some(c.block);
          ReachesStep(g, labels, b, c.block, d);
        }
      } else {
        EndedStays(g, labels, test, c, n - 1);
        assert false;
      }
    }
  }

  lemma {:induction false} EndedStays(g: OpenGraph, labels: Labels, test: Test, c: Config, n: nat)
    requires c.Ended?
    ensures OpenRun(g, labels, test, c, n) == c
    decreases n
  {
    if n > 0 {
      EndedStays(g, labels, test, c, n - 1);
    }
  }

  /** The answers of `test` are those of `answers` for traces of the lengths it knows. */
  ghost predicate Obeys(test: Test, answers: map<nat, bool>) {
    forall x, trace :: |trace| in answers ==> test(x, trace) == answers[|trace|]
  }

  function RanAll(ss: seq<Statement>, from: nat): Trace
    requires from <= |ss|
    decreases |ss| - from
  {
    if from == |ss| then [] else [Ran(ss[from])] + RanAll(ss, from + 1)
  }

  lemma {:induction false} RunBlock(g: OpenGraph, labels: Labels, test: Test, b: nat, pos: nat, trace: Trace)
    requires b < |g| && pos <= |g[b].statements|
    ensures OpenRun(g, labels, test, At(b, pos, trace), |g[b].statements| - pos)
         == At(b, |g[b].statements|, trace + RanAll(g[b].statements, pos))
    decreases |g[b].statements| - pos
  {
    var ss := g[b].statements;
    if pos < |ss| {
      RunBlock(g, labels, test, b, pos + 1, trace + [Ran(ss[pos])]);
      assert trace + [Ran(ss[pos])] + RanAll(ss, pos + 1) == trace + RanAll(ss, pos);
    }
  }

  /** Running all of block `b` and its terminator. */
  lemma {:induction false} LeaveBlock(g: OpenGraph, labels: Labels, test: Test, b: nat, trace: Trace)
    requires b < |g|
    ensures OpenRun(g, labels, test, At(b, 0, trace), |g[b].statements| + 1)
         == OpenStep(g, labels, test, At(b, |g[b].statements|, trace + RanAll(g[b].statements, 0)))
  {
    var ss := g[b].statements;
    RunBlock(g, labels, test, b, 0, trace);
    OpenRunAdd(g, labels, test, At(b, 0, trace), |ss|, 1);
    var c := At(b, |ss|, trace + RanAll(ss, 0));
    assert OpenRun(g, labels, test, c, 1) == OpenRun(g, labels, test, OpenStep(g, labels, test, c), 0);
  }

  ghost predicate GetsStuck(g: OpenGraph, labels: Labels, test: Test, c: Config, n: nat) {
    var c' := OpenRun(g, labels, test, c, n);
    c'.Ended? && c'.observation.status.Stuck?
  }

  /** A bad block is where some test gets stuck. */
  lemma {:induction false} BadSticks(g: OpenGraph, labels: Labels, b: nat, trace: Trace)
      returns (answers: map<nat, bool>, n: nat)
    requires Bad(g, labels, b)
    ensures forall k :: k in answers ==> k >= |trace|
    ensures forall test :: Obeys(test, answers) ==> GetsStuck(g, labels, test, At(b, 0, trace), n)
  {
    answers, n := map[], 1;
    if b < |g| {
      var trace' := trace + RanAll(g[b].statements, 0);
      n := |g[b].statements| + 1;
      if g[b].terminator.OpenConditional? {
        answers := map[|trace'| := Lookup(labels, g[b].terminator.target) == None];
      }
      forall test | Obeys(test, answers)
        ensures GetsStuck(g, labels, test, At(b, 0, trace), n)
      {
        LeaveBlock(g, labels, test, b, trace);
      }
    } else {
      forall test
        ensures GetsStuck(g, labels, test, At(b, 0, trace), n)
      {
        EndedStays(g, labels, test, OpenStep(g, labels, test, At(b, 0, trace)), 0);
      }
    }
  }

  /** The trace with which the edge from `b` to `d` is followed. */
  function TraceAfter(g: OpenGraph, labels: Labels, b: nat, d: nat, trace: Trace): Trace
    requires b < |g|
  {
    var t, ran := g[b].terminator, trace + RanAll(g[b].statements, 0);
    if t.OpenConditional? then ran + [Tested(t.condition, Lookup(labels, t.target) == Some(d))] else ran
  }

  lemma {:induction false} FollowEdge(g: OpenGraph, labels: Labels, test: Test, b: nat, d: nat, trace: Trace)
    requires Edge(g, labels, b, d)
    requires g[b].terminator.OpenConditional? ==>
               test(g[b].terminator.condition, trace + RanAll(g[b].statements, 0))
               == (Lookup(labels, g[b].terminator.target) == Some(d))
    ensures OpenRun(g, labels, test, At(b, 0, trace), |g[b].statements| + 1) ==
              At(d, 0, TraceAfter(g, labels, b, d, trace))
  {
    LeaveBlock(g, labels, test, b, trace);
  }

  /** Some test makes the run get stuck in a given bad block that `b` reaches. */
  lemma {:induction false} ReachedBadSticks(g: OpenGraph, labels: Labels, b: nat, c: nat, len: nat, trace: Trace)
    returns (answers: map<nat, bool>, n: nat)
    requires ReachesIn(g, labels, b, c, len) && Bad(g, labels, c)
    ensures forall k :: k in answers ==> k >= |trace|
    ensures forall test :: Obeys(test, answers) ==> GetsStuck(g, labels, test, At(b, 0, trace), n)
    decreases len
  {
    if len == 0 {
      answers, n := BadSticks(g, labels, b, trace);
    } else {
      var d: nat :| Edge(g, labels, b, d) && ReachesIn(g, labels, d, c, len - 1);
      var t, ran := g[b].terminator, trace + RanAll(g[b].statements, 0);
      var next := TraceAfter(g, labels, b, d, trace);
      var later, m := ReachedBadSticks(g, labels, d, c, len - 1, next);
      answers := if t.OpenConditional? then later[|ran| := Lookup(labels, t.target) == Some(d)] else later;
      n := |g[b].statements| + 1 + m;
      forall test | Obeys(test, answers)
        ensures GetsStuck(g, labels, test, At(b, 0, trace), n)
      {
        assert Obeys(test, later);
        FollowEdge(g, labels, test, b, d, trace);
        OpenRunAdd(g, labels, test, At(b, 0, trace), |g[b].statements| + 1, m);
        assert GetsStuck(g, labels, test, At(d, 0, next), m);
      }
    }
  }

  /** A bad block is reachable from `b` exactly when some test gets stuck. */
  lemma {:induction false} BadIffStuck(g: OpenGraph, labels: Labels, b: nat)
    ensures (exists c :: Reaches(g, labels, b, c) && Bad(g, labels, c)) <==>
            exists test, n :: GetsStuck(g, labels, test, At(b, 0, []), n)
  {
    if test, n :| GetsStuck(g, labels, test, At(b, 0, []), n) {
      StuckReachesBad(g, labels, test, b, 0, [], n);
    }
    if c :| Reaches(g, labels, b, c) && Bad(g, labels, c) {
      var len: nat :| ReachesIn(g, labels, b, c, len);
      var answers, n := ReachedBadSticks(g, labels, b, c, len, []);
      var test: Test := (x, trace: Trace) => if |trace| in answers then answers[|trace|] else false;
      assert Obeys(test, answers);
      assert GetsStuck(g, labels, test, At(b, 0, []), n);
    }
  }
}
