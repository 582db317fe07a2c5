/** From structured code to a resolved control flow graph. */
module StructuredBuilder {
  import opened Wrappers
  import opened ControlFlow
  import opened StructuredCode
  import opened UnresolvedGraph
  import opened GraphBuilder
  import opened GraphSimulation
  import opened GraphResolution

  lemma {:induction false} TerminateInBounds(s: Builder, t: OpenTerminator, more: OpenGraph, next: nat)
    requires Open(s) && InBounds(s.blocks, s.labels)
    requires forall d <- Targets(t) :: d.Resolved? ==> d.block < |s.blocks| + |more|
    requires forall b <- more :: b.terminator.Unknown?
    ensures InBounds(Terminate(s, t, more, next).blocks, s.labels)
  {}

  lemma {:induction false} SimpleInBounds(s: Builder, stmt: Stmt)
    requires Open(s) && InBounds(s.blocks, s.labels) && !stmt.If?
    ensures InBounds(ProcessSimple(s, stmt).blocks, ProcessSimple(s, stmt).labels)
  {}

  lemma {:induction false} IfInBounds(s: Builder, stmt: Stmt)
    requires Open(s) && InBounds(s.blocks, s.labels) && stmt.If?
    ensures InBounds(ProcessOne(s, stmt).blocks, ProcessOne(s, stmt).labels)
    decreases stmt, 0
  {
    hide InBounds, Extends;
    var n := |s.blocks|;
    var t := OpenConditional(stmt.condition, Resolved(n), Resolved(n + 1));
    TerminateInBounds(s, t, [NEW_OPEN_BLOCK, NEW_OPEN_BLOCK, NEW_OPEN_BLOCK], n);
    var s1 := Process(BeginIf(s, stmt.condition), stmt.ifBody);
    ProcessInBounds(BeginIf(s, stmt.condition), stmt.ifBody);
    ElseOpen(s, stmt.condition, s1);
    IfRoom(s, stmt.condition, s1);
    TerminateInBounds(s1, OpenUnconditional(Resolved(n + 2)), [], n + 1);
    var s2 := Process(EndBody(s1, n + 2, n + 1), stmt.elseBody);
    ProcessInBounds(EndBody(s1, n + 2, n + 1), stmt.elseBody);
    IfRoomElse(s1, s2, n);
    TerminateInBounds(s2, OpenUnconditional(Resolved(n + 2)), [], n + 2);
  }

  lemma {:induction false} IfRoom(s: Builder, x: Condition, s1: Builder)
    requires Open(s) && Grown(BeginIf(s, x), s1)
    ensures |s.blocks| + 2 < |s1.blocks|
  {}

  lemma {:induction false} IfRoomElse(s1: Builder, s2: Builder, n: nat)
    requires Open(s1) && n + 2 < |s1.blocks| && Open(EndBody(s1, n + 2, n + 1)) && Grown(EndBody(s1, n + 2, n + 1), s2)
    ensures n + 2 < |s2.blocks|
  {}

  /** Jumps go to blocks of the graph. */
  lemma {:induction false} ProcessInBounds(s: Builder, code: Code)
    requires Open(s) && InBounds(s.blocks, s.labels)
    ensures InBounds(Process(s, code).blocks, Process(s, code).labels)
    decreases code, 1
  {
    if code != [] {
      if code[0].If? {
        IfInBounds(s, code[0]);
      } else {
        SimpleInBounds(s, code[0]);
      }
      ProcessInBounds(ProcessOne(s, code[0]), code[1..]);
    }
  }

  /** Some run of `program` falls off its end or jumps to a label it does not have. */
  ghost predicate GoesWrong(program: Code) {
    exists test, n :: StructuredShows(program, test, n).status.Stuck?
  }

  /** A bad block can be reached exactly when some run of the program goes wrong. */
  lemma {:induction false} BadIffGoesWrong(program: Code)
    ensures var s := Process(START, program); ReachesBad(s.blocks, s.labels, 0) <==> GoesWrong(program)
  {
    var s := Process(START, program);
    BadIffStuck(s.blocks, s.labels, 0);
    forall test, n
      ensures GetsStuck(s.blocks, s.labels, test, At(0, 0, []), n) <==> StructuredShows(program, test, n).status.Stuck?
    {
      BuiltRunsInStep(program, test, n);
    }
  }

  /** The resolved graph shows what the program shows, after every number of steps. */
  lemma {:induction false} ResolvedRuns(program: Code, resolved: Copies, graph: Graph)
    requires var s := Process(START, program); Complete(s.blocks, s.labels, resolved, graph, 0)
    ensures forall test, n: nat ::
              Observe(Run(graph, test, At(resolved[0], 0, []), n)) == StructuredShows(program, test, n)
  {
    var s := Process(START, program);
    forall test, n: nat
      ensures Observe(Run(graph, test, At(resolved[0], 0, []), n)) == StructuredShows(program, test, n)
    {
      BuiltRunsInStep(program, test, n);
      CompleteRuns(s.blocks, s.labels, resolved, graph, 0, test, At(0, 0, []), At(resolved[0], 0, []), n);
    }
  }

  lemma {:induction false} IfIs(s: Builder, x: Condition, ifBody: Code, elseBody: Code, s1: Builder, s2: Builder)
    requires Open(s) && s1 == Process(BeginIf(s, x), ifBody) && Open(EndBody(s1, |s.blocks| + 2, |s.blocks| + 1))
    requires s2 == Process(EndBody(s1, |s.blocks| + 2, |s.blocks| + 1), elseBody)
    ensures ProcessOne(s, If(x, ifBody, elseBody)) == EndBody(s2, |s.blocks| + 2, |s.blocks| + 2)
  {
    hide Process, BeginIf, EndBody, Open, Grown;
  }

  class ControlFlowGraphBuilder {
    var blocks: OpenGraph
    var labels: Labels
    var current: nat

    constructor ()
      ensures View() == START
    {
      blocks, labels, current := [NEW_OPEN_BLOCK], map[], 0;
    }

    function View(): Builder
      reads this
    {
      Builder(blocks, labels, current)
    }

    method NewBlock() returns (b: nat)
      modifies this`blocks
      ensures b == |old(blocks)| && blocks == old(blocks) + [NEW_OPEN_BLOCK]
    {
      b := |blocks|;
      blocks := blocks + [NEW_OPEN_BLOCK];
    }

    /** Only called while the current block has no terminator. */
    method SetTerminator(t: OpenTerminator)
      requires Open(View())
      modifies this`blocks
      ensures blocks == old(blocks)[current := old(blocks)[current].(terminator := t)]
    {
      blocks := blocks[current := blocks[current].(terminator := t)];
    }

    method AddStatement(x: Statement)
      requires Open(View())
      modifies this`blocks
      ensures View() == ProcessOne(old(View()), Other(x))
    {
      var b := blocks[current];
      blocks := blocks[current := b.(statements := b.statements + [x])];
    }

    /** End the current block and go on in a new one that nothing leads to. */
    method Detach(t: OpenTerminator)
      requires Open(View())
      modifies this
      ensures View() == Terminate(old(View()), t, [NEW_OPEN_BLOCK], |old(blocks)|)
    {
      SetTerminator(t);
      current := NewBlock();
    }

    method ProcessLabel(l: string)
      requires Open(View())
      modifies this
      ensures View() == ProcessOne(old(View()), Label(l))
    {
      var next := NewBlock();
      labels := labels[l := next];
      blocks := blocks[next := blocks[next].(name := Some(l))];
      SetTerminator(OpenUnconditional(Resolved(next)));
      current := next;
    }

    method ProcessIf(x: Condition, ifBody: Code, elseBody: Code)
      requires Open(View())
      modifies this
      ensures View() == ProcessOne(old(View()), If(x, ifBody, elseBody))
      decreases If(x, ifBody, elseBody), 0
    {
      hide ProcessOne, Process, Extends;
      ghost var s := View();
      var ifBlock := NewBlock();
      var elseBlock := NewBlock();
      var postBlock := NewBlock();
      SetTerminator(OpenConditional(x, Resolved(ifBlock), Resolved(elseBlock)));
      current := ifBlock;
      assert blocks == BeginIf(s, x).blocks;
      ProcessStatements(ifBody);
      ghost var s1 := View();
      ElseOpen(s, x, s1);
      SetTerminator(OpenUnconditional(Resolved(postBlock)));
      current := elseBlock;
      assert blocks == EndBody(s1, postBlock, elseBlock).blocks;
      ProcessStatements(elseBody);
      ghost var s2 := View();
      IfIs(s, x, ifBody, elseBody, s1, s2);
      SetTerminator(OpenUnconditional(Resolved(postBlock)));
      current := postBlock;
      assert blocks == EndBody(s2, postBlock, postBlock).blocks;
    }

    method ProcessStatement(stmt: Stmt)
      requires Open(View())
      modifies this
      ensures View() == ProcessOne(old(View()), stmt)
      decreases stmt, 1
    {
      match stmt
      case Label(l) => ProcessLabel(l);
      case If(x, a, b) => ProcessIf(x, a, b);
      case Jump(x, l) => Detach(OpenConditional(x, Unresolved(l), Resolved(|blocks|)));
      case Goto(l) => Detach(OpenUnconditional(Unresolved(l)));
      case End(v) => Detach(OpenReturn(v));
      case Undefined => Detach(OpenUndefined);
      case Abort(v) => Detach(OpenPanic(v));
      case Other(x) => AddStatement(x);
    }

    method ProcessStatements(code: Code)
      requires Open(View())
      modifies this
      ensures View() == Process(old(View()), code)
      decreases code, 2
    {
      for i := 0 to |code|
        invariant Open(View()) && Process(View(), code[i..]) == Process(old(View()), code)
      {
        assert code[i..][0] == code[i] && code[i..][1..] == code[i + 1..];
        ProcessStatement(code[i]);
      }
      assert code[|code|..] == [];
    }

    /** The graph and its entry; `None` exactly when some run of the program goes wrong. */
    static method FromStatements(program: Code) returns (r: Option<(Graph, nat)>)
      ensures r.None? <==> GoesWrong(program)
      ensures r.Some? ==> forall test, n: nat ::
                Observe(Run(r.value.0, test, At(r.value.1, 0, []), n)) == StructuredShows(program, test, n)
      ensures r.Some? ==> exists copies: Copies ::
                && (forall b :: b in copies <==>
                      var s := Process(START, program); Reaches(s.blocks, s.labels, 0, b))
                && OneToOne(|Process(START, program).blocks|, copies, r.value.0)
    {
      var builder := new ControlFlowGraphBuilder();
      builder.ProcessStatements(program);
      ghost var s := Process(START, program);
      ProcessInBounds(START, program);
      BadIffGoesWrong(program);
      var resolver := new Resolver(builder.blocks, builder.labels);
      var entry := resolver.ResolveBlock(0);
      if entry.None? {
        return None;
      }
      CompleteReached(s.blocks, s.labels, resolver.resolved, resolver.graph, 0);
      ResolvedRuns(program, resolver.resolved, resolver.graph);
      r := Some((resolver.graph, entry.value));
    }
  }
}
