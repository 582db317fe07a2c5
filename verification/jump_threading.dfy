/** Jump threading: a jump to a block that only jumps on may go straight to the end of the chain. */
module JumpThreading {
  import opened JumpCode

  /** The graph with the last jump of `b` redirected. */
  function Redirect(g: Graph, b: nat, target: nat): Graph
    requires b < |g| && g[b] != []
  {
    g[b := g[b][|g[b]| - 1 := Jmp(target)]]
  }

  ghost predicate CanThread(g: Graph, b: nat, child: nat, grandchild: nat) {
    && b < |g| && child < |g| && b != child
    && g[b] != [] && g[b][|g[b]| - 1] == Jmp(child) && g[child] == [Jmp(grandchild)]
  }

  lemma {:induction false} ThreadedShows(g: Graph, test: Test, b: nat, child: nat, grandchild: nat, c: Config, n: nat)
      returns (m: nat)
    requires CanThread(g, b, child, grandchild)
    ensures Observe(Run(Redirect(g, b, grandchild), test, c, m)) == Observe(Run(g, test, c, n))
    decreases n
  {
    var g' := Redirect(g, b, grandchild);
    if n == 0 {
      m := 0;
    } else if c.At? && c.block == b && c.pos == |g[b]| - 1 {
      var c1 := At(child, 0, c.trace);
      if n == 1 {
        m := 0;
      } else {
        assert Run(g, test, c1, n - 1) == Run(g, test, At(grandchild, 0, c.trace), n - 2);
        m := ThreadedShows(g, test, b, child, grandchild, At(grandchild, 0, c.trace), n - 2);
        m := m + 1;
      }
    } else {
      assert Step(g', test, c) == Step(g, test, c);
      m := ThreadedShows(g, test, b, child, grandchild, Step(g, test, c), n - 1);
      m := m + 1;
    }
  }

  lemma {:induction false} UnthreadedShows(g: Graph, test: Test, b: nat, child: nat, grandchild: nat, c: Config,
      m: nat) returns (n: nat)
    requires CanThread(g, b, child, grandchild)
    ensures Observe(Run(g, test, c, n)) == Observe(Run(Redirect(g, b, grandchild), test, c, m))
    decreases m
  {
    var g' := Redirect(g, b, grandchild);
    if m == 0 {
      n := 0;
    } else if c.At? && c.block == b && c.pos == |g[b]| - 1 {
      var c1 := At(grandchild, 0, c.trace);
      n := UnthreadedShows(g, test, b, child, grandchild, c1, m - 1);
      assert Run(g, test, c, n + 2) == Run(g, test, At(child, 0, c.trace), n + 1) == Run(g, test, c1, n);
      n := n + 2;
    } else {
      assert Step(g', test, c) == Step(g, test, c);
      n := UnthreadedShows(g, test, b, child, grandchild, Step(g, test, c), m - 1);
      n := n + 1;
    }
  }

  /** Threading one jump changes no run from any block. */
  lemma {:induction false} ThreadingSameRuns(g: Graph, b: nat, child: nat, grandchild: nat, c: Config)
    requires CanThread(g, b, child, grandchild)
    ensures SameRuns(g, c, Redirect(g, b, grandchild), c)
  {
    var g' := Redirect(g, b, grandchild);
    forall test: Test, o ensures Shows(g, test, c, o) <==> Shows(g', test, c, o) {
      if Shows(g, test, c, o) {
        var n: nat :| Observe(Run(g, test, c, n)) == o;
        var m := ThreadedShows(g, test, b, child, grandchild, c, n);
      }
      if Shows(g', test, c, o) {
        var m: nat :| Observe(Run(g', test, c, m)) == o;
        var n := UnthreadedShows(g, test, b, child, grandchild, c, m);
      }
    }
  }

  /** Every block runs the same in both graphs. */
  ghost predicate SameGraphs(g: Graph, g': Graph) {
    forall c :: SameRuns(g, c, g', c)
  }

  lemma {:induction false} ThreadingSameGraphs(g: Graph, b: nat, child: nat, grandchild: nat)
    requires CanThread(g, b, child, grandchild)
    ensures SameGraphs(g, Redirect(g, b, grandchild))
  {
    forall c ensures SameRuns(g, c, Redirect(g, b, grandchild), c) {
      ThreadingSameRuns(g, b, child, grandchild, c);
    }
  }

  lemma {:induction false} SameGraphsTransitive(g: Graph, g1: Graph, g2: Graph)
    requires SameGraphs(g, g1) && SameGraphs(g1, g2)
    ensures SameGraphs(g, g2)
  {
    forall c ensures SameRuns(g, c, g2, c) {
      assert SameRuns(g, c, g1, c) && SameRuns(g1, c, g2, c);
    }
  }
}
