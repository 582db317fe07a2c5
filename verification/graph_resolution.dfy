/** Resolving labels: a copy of the reachable part of an unresolved graph, one block for one block. */
module GraphResolution {
  import opened Wrappers
  import opened ControlFlow
  import opened UnresolvedGraph

  /** The resolved block of each unresolved block met so far. */
  type Copies = map<nat, nat>

  /** Every jump goes to some block or names a label. */
  ghost predicate InBounds(g: OpenGraph, labels: Labels) {
    && (forall l :: l in labels ==> labels[l] < |g|)
    && forall b :: 0 <= b < |g| ==> forall t <- Targets(g[b].terminator) :: t.Resolved? ==> t.block < |g|
  }

  /** Different blocks have different copies, and there are no other blocks. */
  ghost predicate OneToOne(n: nat, resolved: Copies, graph: Graph) {
    && |graph| == |resolved|
    && (forall b :: b in resolved ==> b < n && resolved[b] < |graph|)
    && forall b, c :: b in resolved && c in resolved && resolved[b] == resolved[c] ==> b == c
  }

  ghost predicate More(resolved: Copies, graph: Graph, resolved': Copies, graph': Graph) {
    && (forall b :: b in resolved ==> b in resolved' && resolved'[b] == resolved[b])
    && graph <= graph'
  }

  ghost predicate GoesTo(labels: Labels, resolved: Copies, t: Target, copy: nat) {
    var b := Lookup(labels, t);
    b.Some? && b.value in resolved && resolved[b.value] == copy
  }

  ghost predicate SameTerminator(labels: Labels, resolved: Copies, t: OpenTerminator, copy: Terminator) {
    match t
    case OpenReturn(v) => copy == Return(v)
    case OpenPanic(v) => copy == Panic(v)
    case OpenUndefined => copy == Panic("undefined terminator")
    case OpenUnconditional(t) => copy.Unconditional? && GoesTo(labels, resolved, t, copy.target)
    case OpenConditional(x, t, f) =>
      && copy.Conditional? && copy.condition == x
      && GoesTo(labels, resolved, t, copy.target) && GoesTo(labels, resolved, f, copy.fallthrough)
    case Unknown => false
  }

  ghost predicate Copied(g: OpenGraph, labels: Labels, resolved: Copies, graph: Graph, b: nat) {
    && b < |g| && b in resolved && resolved[b] < |graph|
    && var c := graph[resolved[b]];
    c.name == g[b].name && c.statements == g[b].statements
        && SameTerminator(labels, resolved, g[b].terminator, c.terminator)
  }

  /** Blocks met since `before` have been copied. */
  ghost predicate CopiedSince(g: OpenGraph, labels: Labels, before: Copies, resolved: Copies, graph: Graph) {
    forall b :: b in resolved && b !in before ==> Copied(g, labels, resolved, graph, b)
  }

  ghost predicate ReachedSince(g: OpenGraph, labels: Labels, from: nat, before: Copies, resolved: Copies) {
    forall b :: b in resolved && b !in before ==> Reaches(g, labels, from, b)
  }

  ghost predicate ReachesBad(g: OpenGraph, labels: Labels, from: nat) {
    exists b :: Reaches(g, labels, from, b) && Bad(g, labels, b)
  }

  lemma {:induction false} MoreLater(r0: Copies, g0: Graph, r1: Copies, g1: Graph, r2: Copies, g2: Graph)
    requires More(r0, g0, r1, g1) && More(r1, g1, r2, g2)
    ensures More(r0, g0, r2, g2)
  {}

  /** What has been copied stays copied while more blocks are met. */
  lemma {:induction false} CopiedLater(g: OpenGraph, labels: Labels, r0: Copies, g0: Graph, r1: Copies, g1: Graph,
      r2: Copies, g2: Graph)
    requires More(r0, g0, r1, g1) && More(r1, g1, r2, g2)
    ensures More(r0, g0, r2, g2)
    ensures CopiedSince(g, labels, r0, r1, g1) && CopiedSince(g, labels, r1, r2, g2) ==>
              CopiedSince(g, labels, r0, r2, g2)
  {
    if CopiedSince(g, labels, r0, r1, g1) && CopiedSince(g, labels, r1, r2, g2) {
      forall b | b in r2 && b !in r0
        ensures Copied(g, labels, r2, g2, b)
      {
        if b in r1 {
          assert Copied(g, labels, r1, g1, b);
          assert g2[r2[b]] == g1[r1[b]];
        }
      }
    }
  }

  lemma {:induction false} BeginCopy(n: nat, resolved: Copies, graph: Graph, b: nat, c: Block)
    requires OneToOne(n, resolved, graph) && b < n && b !in resolved
    ensures OneToOne(n, resolved[b := |graph|], graph + [c])
    ensures More(resolved, graph, resolved[b := |graph|], graph + [c])
  {
    var resolved' := resolved[b := |graph|];
    assert |resolved'| == |resolved| + 1;
    forall x, y | x in resolved' && y in resolved' && resolved'[x] == resolved'[y]
      ensures x == y
    {
      assert x != b ==> resolved'[x] == resolved[x];
      assert y != b ==> resolved'[y] == resolved[y];
    }
  }

  /** Fewer blocks are left to be met. */
  lemma {:induction false} FewerLeft(ids: set<nat>, resolved: Copies, b: nat, copy: nat)
    requires b in ids && b !in resolved
    ensures resolved[b := copy].Keys == resolved.Keys + {b}
    ensures ids - resolved[b := copy].Keys < ids - resolved.Keys
  {
    assert b in ids - resolved.Keys;
  }

  /** Setting the terminator of the last copy under way completes it and leaves the others alone. */
  lemma {:induction false} FinishCopy(g: OpenGraph, labels: Labels, before: Copies, graphBefore: Graph,
      inserted: Copies,
                   resolved: Copies, graph: Graph, b: nat, t: Terminator)
    requires b < |g| && b !in before && b in inserted && inserted.Keys == before.Keys + {b} && b in resolved
    requires OneToOne(|g|, resolved, graph) && CopiedSince(g, labels, inserted, resolved, graph)
    requires graph[resolved[b]].name == g[b].name && graph[resolved[b]].statements == g[b].statements
    requires SameTerminator(labels, resolved, g[b].terminator, t)
    requires More(before, graphBefore, resolved, graph) && |graphBefore| <= resolved[b]
    ensures var graph' := graph[resolved[b] := graph[resolved[b]].(terminator := t)];
            && OneToOne(|g|, resolved, graph') && CopiedSince(g, labels, before, resolved, graph')
            && More(before, graphBefore, resolved, graph')
  {
    var graph' := graph[resolved[b] := graph[resolved[b]].(terminator := t)];
    forall c | c in resolved && c !in before
      ensures Copied(g, labels, resolved, graph', c)
    {
      if c != b {
        assert c !in inserted;
        assert Copied(g, labels, resolved, graph, c);
      }
    }
  }

  /** Every block met has been copied, from block `b` on. */
  ghost predicate Complete(g: OpenGraph, labels: Labels, resolved: Copies, graph: Graph, b: nat) {
    b in resolved && CopiedSince(g, labels, map[], resolved, graph)
  }

  lemma {:induction false} CompleteEdge(g: OpenGraph, labels: Labels, resolved: Copies, graph: Graph, b: nat, d: nat)
    requires Complete(g, labels, resolved, graph, b) && Edge(g, labels, b, d)
    ensures Complete(g, labels, resolved, graph, d)
  {
    assert Copied(g, labels, resolved, graph, b);
    hide CopiedSince;
  }

  lemma {:induction false} CompleteCloses(g: OpenGraph, labels: Labels, resolved: Copies, graph: Graph, b: nat,
      c: nat, n: nat)
    requires Complete(g, labels, resolved, graph, b) && ReachesIn(g, labels, b, c, n)
    ensures c in resolved
    decreases n
  {
    hide CopiedSince, Edge;
    if n > 0 {
      var d: nat :| Edge(g, labels, b, d) && ReachesIn(g, labels, d, c, n - 1);
      CompleteEdge(g, labels, resolved, graph, b, d);
      CompleteCloses(g, labels, resolved, graph, d, c, n - 1);
    }
  }

  /** A complete resolution holds exactly the reachable blocks, one copy each, and none of them is bad. */
  lemma {:induction false} CompleteReached(g: OpenGraph, labels: Labels, resolved: Copies, graph: Graph, b: nat)
    requires Complete(g, labels, resolved, graph, b) && ReachedSince(g, labels, b, map[], resolved)
    ensures forall c :: c in resolved <==> Reaches(g, labels, b, c)
    ensures !ReachesBad(g, labels, b)
  {
    forall c: nat | Reaches(g, labels, b, c)
      ensures c in resolved && !Bad(g, labels, c)
    {
      var n: nat :| ReachesIn(g, labels, b, c, n);
      CompleteCloses(g, labels, resolved, graph, b, c, n);
      assert Copied(g, labels, resolved, graph, c);
    }
  }

  ghost predicate SameConfig(resolved: Copies, c: Config, d: Config) {
    if c.Ended? then d == c else d.At? && c.block in resolved && d == c.(block := resolved[c.block])
  }

  /** The resolved graph runs in step with the unresolved one. */
  lemma {:induction false} CompleteRuns(g: OpenGraph, labels: Labels, resolved: Copies, graph: Graph, b: nat,
      test: Test, c: Config, d: Config, n: nat)
    requires Complete(g, labels, resolved, graph, b) && SameConfig(resolved, c, d)
    ensures SameConfig(resolved, OpenRun(g, labels, test, c, n), Run(graph, test, d, n))
    decreases n
  {
    if n > 0 {
      if c.At? {
        assert Copied(g, labels, resolved, graph, c.block);
      }
      CompleteRuns(g, labels, resolved, graph, b, test, OpenStep(g, labels, test, c), Step(graph, test, d), n - 1);
    }
  }

  class Resolver {
    const unresolved: OpenGraph
    const labels: Labels
    var resolved: Copies
    var graph: Graph

    constructor (unresolved: OpenGraph, labels: Labels)
      ensures this.unresolved == unresolved && this.labels == labels && resolved == map[] && graph == []
    {
      this.unresolved, this.labels, this.resolved, this.graph := unresolved, labels, map[], [];
    }

    /** The copy of block `b`, made on the first visit only; `None` where a block has no terminator or a
        label is missing. */
    method ResolveBlock(b: nat) returns (r: Option<nat>)
      requires b < |unresolved| && InBounds(unresolved, labels) && OneToOne(|unresolved|, resolved, graph)
      modifies this
      ensures OneToOne(|unresolved|, resolved, graph) && More(old(resolved), old(graph), resolved, graph)
      ensures r.Some? ==> b in resolved && r.value == resolved[b]
      ensures r.Some? ==> CopiedSince(unresolved, labels, old(resolved), resolved, graph)
      ensures ReachedSince(unresolved, labels, b, old(resolved), resolved)
      ensures r.None? ==> ReachesBad(unresolved, labels, b)
      decreases Below(|unresolved|) - resolved.Keys, 0
    {
      hide Copied, SameTerminator, Reaches, Bad, InBounds, OneToOne;
      if b in resolved {
        return Some(resolved[b]);
      }
      ghost var before, graphBefore := resolved, graph;
      var copy := |graph|;
      var block := NEW_BLOCK.(name := unresolved[b].name, statements := unresolved[b].statements);
      BeginCopy(|unresolved|, resolved, graph, b, block);
      FewerLeft(Below(|unresolved|), resolved, b, copy);
      graph := graph + [block];
      resolved := resolved[b := copy];
      ghost var inserted, graphInserted := resolved, graph;
      ReachesSelf(unresolved, labels, b);
      var terminator := ResolveTerminator(b);
      MoreLater(before, graphBefore, inserted, graphInserted, resolved, graph);
      if terminator.None? {
        return None;
      }
      FinishCopy(unresolved, labels, before, graphBefore, inserted, resolved, graph, b, terminator.value);
      graph := graph[copy := graph[copy].(terminator := terminator.value)];
      r := Some(copy);
    }

    method ResolveTerminator(b: nat) returns (r: Option<Terminator>)
      requires b < |unresolved| && InBounds(unresolved, labels) && OneToOne(|unresolved|, resolved, graph)
      modifies this
      ensures OneToOne(|unresolved|, resolved, graph) && More(old(resolved), old(graph), resolved, graph)
      ensures r.Some? ==> SameTerminator(labels, resolved, unresolved[b].terminator, r.value)
      ensures r.Some? ==> CopiedSince(unresolved, labels, old(resolved), resolved, graph)
      ensures ReachedSince(unresolved, labels, b, old(resolved), resolved)
      ensures r.None? ==> ReachesBad(unresolved, labels, b)
      decreases Below(|unresolved|) - resolved.Keys, 2
    {
      match unresolved[b].terminator
      case OpenReturn(v) => r := Some(Return(v));
      case OpenPanic(v) => r := Some(Panic(v));
      case OpenUndefined => r := Some(Panic("undefined terminator"));
      case OpenUnconditional(t) =>
        var target := ResolveJumpTarget(b, t);
        r := if target.None? then None else Some(Unconditional(target.value));
      case OpenConditional(x, t, f) =>
        ghost var resolved0, graph0 := resolved, graph;
        var target := ResolveJumpTarget(b, t);
        if target.None? {
          return None;
        }
        ghost var resolved1, graph1 := resolved, graph;
        var fallthrough := ResolveJumpTarget(b, f);
        CopiedLater(unresolved, labels, resolved0, graph0, resolved1, graph1, resolved, graph);
        r := if fallthrough.None? then None else Some(Conditional(x, target.value, fallthrough.value));
      case Unknown =>
        ReachesSelf(unresolved, labels, b);
        r := None;
    }

    method ResolveJumpTarget(ghost b: nat, t: Target) returns (r: Option<nat>)
      requires b < |unresolved| && t in Targets(unresolved[b].terminator)
      requires InBounds(unresolved, labels) && OneToOne(|unresolved|, resolved, graph)
      modifies this
      ensures OneToOne(|unresolved|, resolved, graph) && More(old(resolved), old(graph), resolved, graph)
      ensures r.Some? ==> GoesTo(labels, resolved, t, r.value)
      ensures r.Some? ==> CopiedSince(unresolved, labels, old(resolved), resolved, graph)
      ensures ReachedSince(unresolved, labels, b, old(resolved), resolved)
      ensures r.None? ==> ReachesBad(unresolved, labels, b)
      decreases Below(|unresolved|) - resolved.Keys, 1
    {
      match Lookup(labels, t)
      case None =>
        ReachesSelf(unresolved, labels, b);
        r := None;
      case Some(d) =>
        ghost var before := resolved;
        r := ResolveBlock(d);
        assert Edge(unresolved, labels, b, d);
        forall c: nat | Reaches(unresolved, labels, d, c)
          ensures Reaches(unresolved, labels, b, c)
        {
          ReachesStep(unresolved, labels, b, d, c);
        }
    }
  }
}
