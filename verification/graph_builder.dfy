/** Building an unresolved graph from structured code. */
module GraphBuilder {
  import opened Wrappers
  import opened ControlFlow
  import opened StructuredCode
  import opened UnresolvedGraph

  datatype Builder = Builder(blocks: OpenGraph, labels: Labels, current: nat)

  /** The current block has no terminator yet, so one may be set and statements may be added. */
  predicate Open(s: Builder) {
    s.current < |s.blocks| && s.blocks[s.current].terminator.Unknown?
  }

  /** A block changes only while it has no terminator, and then only by getting more statements or one. */
  ghost predicate BlockExtends(b: OpenBlock, c: OpenBlock) {
    if b.terminator.Unknown? then b.statements <= c.statements else c == b
  }

  ghost predicate Extends(g: OpenGraph, h: OpenGraph) {
    |g| <= |h| && forall b :: 0 <= b < |g| ==> BlockExtends(g[b], h[b])
  }

  /** What processing statements does to the builder: only the current block and new ones change. */
  ghost predicate Grown(s: Builder, s': Builder)
    requires Open(s)
  {
    && Open(s') && Extends(s.blocks, s'.blocks)
    && (s'.current == s.current || s'.current >= |s.blocks|)
    && forall b :: 0 <= b < |s.blocks| && b != s.current ==> s'.blocks[b] == s.blocks[b]
  }

  /** The current block ends in `t`, blocks `more` are created, and `next` becomes current. */
  function Terminate(s: Builder, t: OpenTerminator, more: OpenGraph, next: nat): Builder
    requires Open(s)
  {
    s.(blocks := s.blocks[s.current := s.blocks[s.current].(terminator := t)] + more, current := next)
  }

  /** An if ends the current block; the blocks of its bodies and the one after it are new. */
  function BeginIf(s: Builder, x: Condition): Builder
    requires Open(s)
  {
    var n := |s.blocks|;
    Terminate(s, OpenConditional(x, Resolved(n), Resolved(n + 1)), [NEW_OPEN_BLOCK, NEW_OPEN_BLOCK, NEW_OPEN_BLOCK], n)
  }

  /** The end of a body goes on at `post`. */
  function EndBody(s: Builder, post: nat, next: nat): Builder
    requires Open(s)
  {
    Terminate(s, OpenUnconditional(Resolved(post)), [], next)
  }

  /** After the first body the block of the second is still untouched. */
  lemma {:induction false} ElseOpen(s: Builder, x: Condition, s1: Builder)
    requires Open(s) && Grown(BeginIf(s, x), s1)
    ensures Open(EndBody(s1, |s.blocks| + 2, |s.blocks| + 1))
    ensures Extends(BeginIf(s, x).blocks, EndBody(s1, |s.blocks| + 2, |s.blocks| + 1).blocks)
  {}

  lemma {:induction false} ExtendsTransitive(g: OpenGraph, h: OpenGraph, k: OpenGraph)
    requires Extends(g, h) && Extends(h, k)
    ensures Extends(g, k)
  {
    forall b | 0 <= b < |g|
      ensures BlockExtends(g[b], k[b])
    {
      assert BlockExtends(g[b], h[b]) && BlockExtends(h[b], k[b]);
    }
  }

  lemma {:induction false} IfGrown(s: Builder, x: Condition, s1: Builder, s2: Builder)
    requires Open(s) && Grown(BeginIf(s, x), s1)
    requires Open(EndBody(s1, |s.blocks| + 2, |s.blocks| + 1)) && Grown(EndBody(s1, |s.blocks| + 2, |s.blocks| + 1), s2)
    ensures Grown(s, EndBody(s2, |s.blocks| + 2, |s.blocks| + 2))
  {
    var n := |s.blocks|;
    var t0, t1, t2 := BeginIf(s, x), EndBody(s1, n + 2, n + 1), EndBody(s2, n + 2, n + 2);
    ElseOpen(s, x, s1);
    assert Extends(s.blocks, t0.blocks) && Extends(s2.blocks, t2.blocks);
    ExtendsTransitive(s.blocks, t0.blocks, t1.blocks);
    ExtendsTransitive(s.blocks, t1.blocks, s2.blocks);
    ExtendsTransitive(s.blocks, s2.blocks, t2.blocks);
    forall b | 0 <= b < |s.blocks| && b != s.current
      ensures t2.blocks[b] == s.blocks[b]
    {
      assert t1.blocks[b] == t0.blocks[b];
    }
  }

  /** Every statement but an if. */
  function ProcessSimple(s: Builder, stmt: Stmt): (s': Builder)
    requires Open(s) && !stmt.If?
    ensures Grown(s, s')
  {
    var n := |s.blocks|;
    match stmt
    case Label(l) =>
      Terminate(s, OpenUnconditional(Resolved(n)), [NEW_OPEN_BLOCK.(name := Some(l))], n).(labels := s.labels[l := n])
    case Jump(x, l) => Terminate(s, OpenConditional(x, Unresolved(l), Resolved(n)), [NEW_OPEN_BLOCK], n)
    case Goto(l) => Terminate(s, OpenUnconditional(Unresolved(l)), [NEW_OPEN_BLOCK], n)
    case End(v) => Terminate(s, OpenReturn(v), [NEW_OPEN_BLOCK], n)
    case Undefined => Terminate(s, OpenUndefined, [NEW_OPEN_BLOCK], n)
    case Abort(v) => Terminate(s, OpenPanic(v), [NEW_OPEN_BLOCK], n)
    case Other(x) =>
      var b := s.blocks[s.current];
      s.(blocks := s.blocks[s.current := b.(statements := b.statements + [x])])
  }

  function ProcessOne(s: Builder, stmt: Stmt): (s': Builder)
    requires Open(s)
    ensures Grown(s, s')
    decreases stmt, 0
  {
    if !stmt.If? then ProcessSimple(s, stmt)
    else
      var n := |s.blocks|;
      var s1 := Process(BeginIf(s, stmt.condition), stmt.ifBody);
      ElseOpen(s, stmt.condition, s1);
      var s2 := Process(EndBody(s1, n + 2, n + 1), stmt.elseBody);
      IfGrown(s, stmt.condition, s1, s2);
      EndBody(s2, n + 2, n + 2)
  }

  function Process(s: Builder, code: Code): (s': Builder)
    requires Open(s)
    ensures Grown(s, s')
    decreases code, 1
  {
    if code == [] then s
    else
      var s1 := ProcessOne(s, code[0]);
      var s2 := Process(s1, code[1..]);
      ExtendsTransitive(s.blocks, s1.blocks, s2.blocks);
      s2
  }

  function CodeSize(code: Code): nat
    decreases code, 1
  {
    if code == [] then 0 else StmtSize(code[0]) + CodeSize(code[1..])
  }

  function StmtSize(stmt: Stmt): nat
    decreases stmt, 0
  {
    if stmt.If? then 2 + CodeSize(stmt.ifBody) + CodeSize(stmt.elseBody) else 1
  }

  function ContSize(k: Cont): nat {
    if k.Halt? then 0 else 1 + CodeSize(k.todo) + ContSize(k.after)
  }

  /** The graph, from statement `pos` of block `b`, does what is left to run in `k`. */
  ghost predicate Represents(g: OpenGraph, b: nat, pos: nat, k: Cont)
    decreases ContSize(k)
  {
    b < |g| && k.Seq? &&
    assert k.todo != [] ==> CodeSize(k.todo) == StmtSize(k.todo[0]) + CodeSize(k.todo[1..]);
    if k.todo != [] && k.todo[0].Other? then
      && pos < |g[b].statements| && g[b].statements[pos] == k.todo[0].statement
      && Represents(g, b, pos + 1, Seq(k.todo[1..], k.after))
    else
      pos == |g[b].statements| &&
      var t := g[b].terminator;
      if k.todo == [] then
        if k.after.Halt? then t.Unknown?
        else t.OpenUnconditional? && t.target.Resolved? && Represents(g, t.target.block, 0, k.after)
      else
        var rest := Seq(k.todo[1..], k.after);
        match k.todo[0]
        case Label(_) => t.OpenUnconditional? && t.target.Resolved? && Represents(g, t.target.block, 0, rest)
        case If(x, a, b) =>
          && t.OpenConditional? && t.condition == x && t.target.Resolved? && t.fallthrough.Resolved?
          && Represents(g, t.target.block, 0, Seq(a, rest)) && Represents(g, t.fallthrough.block, 0, Seq(b, rest))
        case Jump(x, l) =>
          && t.OpenConditional? && t.condition == x && t.target == Unresolved(l) && t.fallthrough.Resolved?
          && Represents(g, t.fallthrough.block, 0, rest)
        case Goto(l) => t == OpenUnconditional(Unresolved(l))
        case End(v) => t == OpenReturn(v)
        case Undefined => t == OpenUndefined
        case Abort(v) => t == OpenPanic(v)
  }

  /** From where the builder is now, the finished graph `g` goes on with `k`. */
  ghost predicate GoesOn(s: Builder, g: OpenGraph, k: Cont)
    requires Open(s)
  {
    Extends(s.blocks, g) && Represents(g, s.current, |s.blocks[s.current].statements|, k)
  }

  /** Both bodies of an if end where the code after it goes on. */
  lemma {:induction false} BodiesGoOn(s: Builder, x: Condition, s1: Builder, s2: Builder, g: OpenGraph, k: Cont)
    requires Open(s) && Grown(BeginIf(s, x), s1) && k.Seq?
    requires Open(EndBody(s1, |s.blocks| + 2, |s.blocks| + 1)) && Grown(EndBody(s1, |s.blocks| + 2, |s.blocks| + 1), s2)
    requires GoesOn(EndBody(s2, |s.blocks| + 2, |s.blocks| + 2), g, k)
    ensures GoesOn(s1, g, Seq([], k)) && GoesOn(s2, g, Seq([], k))
    ensures Extends(BeginIf(s, x).blocks, g) && Extends(EndBody(s1, |s.blocks| + 2, |s.blocks| + 1).blocks, g)
  {
    var n := |s.blocks|;
    var t1, t2 := EndBody(s1, n + 2, n + 1), EndBody(s2, n + 2, n + 2);
    assert Extends(s2.blocks, t2.blocks) && Extends(s1.blocks, t1.blocks);
    ExtendsTransitive(s2.blocks, t2.blocks, g);
    ExtendsTransitive(t1.blocks, s2.blocks, g);
    ExtendsTransitive(s1.blocks, t1.blocks, g);
    ExtendsTransitive(BeginIf(s, x).blocks, s1.blocks, g);
    assert BlockExtends(t2.blocks[s2.current], g[s2.current]);
    assert BlockExtends(t1.blocks[s1.current], g[s1.current]);
    assert t2.blocks[n + 2] == NEW_OPEN_BLOCK;
  }

  lemma {:induction false} SimpleRepresents(s: Builder, stmt: Stmt, g: OpenGraph, rest: Code, after: Cont)
    requires Open(s) && !stmt.If? && GoesOn(ProcessSimple(s, stmt), g, Seq(rest, after))
    ensures GoesOn(s, g, Seq([stmt] + rest, after))
  {
    var s' := ProcessSimple(s, stmt);
    var code := [stmt] + rest;
    assert code[0] == stmt && code[1..] == rest;
    ExtendsTransitive(s.blocks, s'.blocks, g);
    assert BlockExtends(s'.blocks[s.current], g[s.current]);
  }

  lemma {:induction false} IfRepresents(s: Builder, stmt: Stmt, g: OpenGraph, rest: Code, after: Cont)
    requires Open(s) && stmt.If? && GoesOn(ProcessOne(s, stmt), g, Seq(rest, after))
    ensures GoesOn(s, g, Seq([stmt] + rest, after))
    decreases stmt, 0
  {
    var s', n := ProcessOne(s, stmt), |s.blocks|;
    var s1 := Process(BeginIf(s, stmt.condition), stmt.ifBody);
    ElseOpen(s, stmt.condition, s1);
    var s2 := Process(EndBody(s1, n + 2, n + 1), stmt.elseBody);
    BodiesGoOn(s, stmt.condition, s1, s2, g, Seq(rest, after));
    ProcessRepresents(BeginIf(s, stmt.condition), stmt.ifBody, g, [], Seq(rest, after));
    ProcessRepresents(EndBody(s1, n + 2, n + 1), stmt.elseBody, g, [], Seq(rest, after));
    BranchRepresents(s, stmt, g, rest, after, s1);
    ExtendsTransitive(s.blocks, s'.blocks, g);
  }

  /** The block an if ends goes on with either body, and then with the rest. */
  lemma {:induction false} BranchRepresents(s: Builder, stmt: Stmt, g: OpenGraph, rest: Code, after: Cont, s1: Builder)
    requires Open(s) && stmt.If? && Grown(BeginIf(s, stmt.condition), s1)
    requires GoesOn(BeginIf(s, stmt.condition), g, Seq(stmt.ifBody + [], Seq(rest, after)))
    requires Open(EndBody(s1, |s.blocks| + 2, |s.blocks| + 1))
    requires GoesOn(EndBody(s1, |s.blocks| + 2, |s.blocks| + 1), g, Seq(stmt.elseBody + [], Seq(rest, after)))
    ensures Represents(g, s.current, |s.blocks[s.current].statements|, Seq([stmt] + rest, after))
  {
    var t0, n := BeginIf(s, stmt.condition), |s.blocks|;
    var code := [stmt] + rest;
    assert code[0] == stmt && code[1..] == rest;
    assert stmt.ifBody + [] == stmt.ifBody && stmt.elseBody + [] == stmt.elseBody;
    assert BlockExtends(t0.blocks[s.current], g[s.current]);
    assert t0.blocks[n] == NEW_OPEN_BLOCK && t0.blocks[n + 1] == NEW_OPEN_BLOCK;
  }

  /** Processing `code` makes the graph do `code` and then what it does at the end of it. */
  lemma {:induction false} ProcessRepresents(s: Builder, code: Code, g: OpenGraph, rest: Code, after: Cont)
    requires Open(s) && GoesOn(Process(s, code), g, Seq(rest, after))
    ensures GoesOn(s, g, Seq(code + rest, after))
    decreases code, 1
  {
    if code == [] {
      assert code + rest == rest;
    } else {
      ProcessRepresents(ProcessOne(s, code[0]), code[1..], g, rest, after);
      if code[0].If? {
        IfRepresents(s, code[0], g, code[1..] + rest, after);
      } else {
        SimpleRepresents(s, code[0], g, code[1..] + rest, after);
      }
      assert [code[0]] + (code[1..] + rest) == code + rest;
    }
  }

  /** What the labels of `code` are mapped to does what follows the last label of that name. */
  ghost predicate Located(s: Builder, s': Builder, g: OpenGraph, found: Option<Cont>, name: string) {
    match found
    case Some(k) => name in s'.labels && Represents(g, s'.labels[name], 0, k)
    case None => (name in s'.labels <==> name in s.labels) && (name in s.labels ==> s'.labels[name] == s.labels[name])
  }

  lemma {:induction false} SimpleLocates(s: Builder, stmt: Stmt, g: OpenGraph, k: Cont, name: string)
    requires Open(s) && !stmt.If? && GoesOn(ProcessSimple(s, stmt), g, k)
    ensures Located(s, ProcessSimple(s, stmt), g, if stmt == Label(name) then Some(k) else None, name)
  {}

  lemma {:induction false} ProcessLocates(s: Builder, code: Code, g: OpenGraph, after: Cont, name: string)
    requires Open(s) && GoesOn(Process(s, code), g, Seq([], after))
    ensures Located(s, Process(s, code), g, Find(code, after, name), name)
    decreases code, 1
  {
    hide Represents, BlockExtends, ProcessSimple, Extends, GoesOn;
    if code != [] {
      var s1 := ProcessOne(s, code[0]);
      ProcessLocates(s1, code[1..], g, after, name);
      ProcessRepresents(s1, code[1..], g, [], after);
      assert code[1..] + [] == code[1..];
      if code[0].If? {
        IfLocates(s, code[0], g, Seq(code[1..], after), name);
      } else {
        SimpleLocates(s, code[0], g, Seq(code[1..], after), name);
      }
    }
  }

  lemma {:induction false} IfLocates(s: Builder, stmt: Stmt, g: OpenGraph, k: Cont, name: string)
    requires Open(s) && stmt.If? && k.Seq? && GoesOn(ProcessOne(s, stmt), g, k)
    ensures var inElse := Find(stmt.elseBody, k, name);
            Located(s, ProcessOne(s, stmt), g, if inElse.Some? then inElse else Find(stmt.ifBody, k, name), name)
    decreases stmt, 0
  {
    var n := |s.blocks|;
    var s1 := Process(BeginIf(s, stmt.condition), stmt.ifBody);
    ElseOpen(s, stmt.condition, s1);
    var s2 := Process(EndBody(s1, n + 2, n + 1), stmt.elseBody);
    BodiesGoOn(s, stmt.condition, s1, s2, g, k);
    ProcessLocates(BeginIf(s, stmt.condition), stmt.ifBody, g, k, name);
    ProcessLocates(EndBody(s1, n + 2, n + 1), stmt.elseBody, g, k, name);
  }
}
