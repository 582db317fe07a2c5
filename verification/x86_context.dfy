/** `compile` up to the assembler: block discovery with jump threading in place, layout, dead
    fall-through jumps and labels. */
module X86Context {
  import opened Wrappers
  import opened JumpCode
  import opened JumpThreading
  import opened BlockLayout

  datatype X86Block = X86Block(instructions: seq<Instruction>, next: seq<nat>, linked: bool)

  type Arena = seq<X86Block>

  function GraphOf(blocks: Arena): (g: Graph)
    ensures |g| == |blocks| && forall b :: 0 <= b < |g| ==> g[b] == blocks[b].instructions
  {
    seq(|blocks|, b requires 0 <= b < |blocks| => blocks[b].instructions)
  }

  predicate OnlyJumps(b: X86Block) {
    |b.instructions| == 1 && b.instructions[0].Jmp?
  }

  /** A block ends in a jump or a stop, jumps only to its successors and to the panic block, and its
      successors are in `live`. */
  ghost predicate BlockOk(b: X86Block, panic: nat, live: set<nat>) {
    && Terminated(b.instructions)
    && (forall i :: 0 <= i < |b.instructions| && (b.instructions[i].Jmp? || b.instructions[i].Jcc?) ==>
          b.instructions[i].target == panic || b.instructions[i].target in b.next)
    && (forall c <- b.next :: c in live)
  }

  /** Block `b` has one successor, which only jumps on. */
  predicate Threads(blocks: Arena, b: nat)
    requires b < |blocks|
  {
    |blocks[b].next| == 1 && blocks[b].next[0] < |blocks| && OnlyJumps(blocks[blocks[b].next[0]])
  }

  /** Where a jump is threaded, it is the last one of its block, and no other goes to the successor. */
  ghost predicate Threadable(blocks: Arena, b: nat, panic: nat)
    requires b < |blocks|
  {
    var instructions := blocks[b].instructions;
    Threads(blocks, b) ==>
      && instructions != [] && instructions[|instructions| - 1] == Jmp(blocks[b].next[0])
      && forall i :: 0 <= i < |instructions| - 1 && (instructions[i].Jmp? || instructions[i].Jcc?) ==>
           instructions[i].target == panic
  }

  /** The blocks of `live`, which nothing leads out of, are fit to be compiled.  Blocks outside it, such as
      those an abandoned translation leaves behind, may be anything. */
  ghost predicate ArenaOk(blocks: Arena, panic: nat, live: set<nat>) {
    && panic in live
    && forall b <- live :: b < |blocks| && BlockOk(blocks[b], panic, live) && Threadable(blocks, b, panic)
  }

  /** No cycle in `live` consists only of blocks that are a single jump: every such jump goes down in `rank`. */
  ghost predicate Ranked(blocks: Arena, rank: seq<nat>, live: set<nat>) {
    && |rank| == |blocks|
    && forall c <- live :: c < |blocks| && OnlyJumps(blocks[c]) ==>
         blocks[c].instructions[0].target < |blocks| && rank[blocks[c].instructions[0].target] < rank[c]
  }

  /** The same blocks are single jumps. */
  ghost predicate SameShapes(blocks: Arena, blocks': Arena) {
    |blocks| == |blocks'| && forall c :: 0 <= c < |blocks| ==> (OnlyJumps(blocks'[c]) <==> OnlyJumps(blocks[c]))
  }

  /** No block of `order` has a single successor that only jumps on. */
  ghost predicate AllThreaded(blocks: Arena, order: seq<nat>) {
    forall b <- order :: b < |blocks| && !Threads(blocks, b)
  }

  lemma {:induction false} ThreadedNext(blocks: Arena, blocks': Arena, order: seq<nat>, b: nat)
    requires AllThreaded(blocks, order) && SameShapes(blocks, blocks') && b < |blocks| && !Threads(blocks', b)
    requires forall c :: 0 <= c < |blocks| && c != b ==> blocks'[c] == blocks[c]
    ensures AllThreaded(blocks', order + [b])
  {
    hide OnlyJumps;
  }

  /** The arena with the last jump of `b` redirected to where its successor jumps. */
  function Threaded(blocks: Arena, b: nat): Arena
    requires b < |blocks| && Threads(blocks, b) && blocks[b].instructions != []
  {
    var target := blocks[blocks[b].next[0]].instructions[0].target;
    var instructions := blocks[b].instructions;
    blocks[b := X86Block(instructions[|instructions| - 1 := Jmp(target)], [target], blocks[b].linked)]
  }

  /** The successor of a live block that threads, and where that jumps, are live; the chain goes down in rank. */
  lemma {:induction false} ThreadsLive(blocks: Arena, panic: nat, rank: seq<nat>, live: set<nat>, b: nat)
    requires ArenaOk(blocks, panic, live) && Ranked(blocks, rank, live)
    requires b in live && b < |blocks| && Threads(blocks, b)
    ensures blocks[b].instructions != []
    ensures var child := blocks[b].next[0];
            var target := blocks[child].instructions[0].target;
            && target in live && target < |blocks| && rank[target] < rank[child]
            && CanThread(GraphOf(blocks), b, child, target)
  {
    hide GraphOf;
    assert Threadable(blocks, b, panic) && BlockOk(blocks[b], panic, live);
    var child := blocks[b].next[0];
    assert BlockOk(blocks[child], panic, live);
    assert blocks[child].instructions[0].target == panic || blocks[child].instructions[0].target in blocks[child].next;
  }

  lemma {:induction false} ThreadedBlockOk(blocks: Arena, panic: nat, live: set<nat>, b: nat)
    requires b < |blocks| && Threads(blocks, b) && BlockOk(blocks[b], panic, live) && Threadable(blocks, b, panic)
    requires blocks[blocks[b].next[0]].instructions[0].target in live
    ensures BlockOk(Threaded(blocks, b)[b], panic, live)
  {}

  lemma {:induction false} ThreadedThreadable(blocks: Arena, panic: nat, b: nat, c: nat)
    requires b < |blocks| && c < |blocks| && Threads(blocks, b)
    requires Threadable(blocks, b, panic) && Threadable(blocks, c, panic)
    ensures Threadable(Threaded(blocks, b), c, panic)
  {
    var blocks' := Threaded(blocks, b);
    assert forall d :: 0 <= d < |blocks| ==> (OnlyJumps(blocks'[d]) <==> OnlyJumps(blocks[d]));
  }

  /** Threading a live block keeps what compiling needs of the live blocks. */
  lemma {:induction false} ThreadedOk(blocks: Arena, panic: nat, rank: seq<nat>, live: set<nat>, b: nat)
    requires ArenaOk(blocks, panic, live) && Ranked(blocks, rank, live)
    requires b in live && b < |blocks| && Threads(blocks, b)
    ensures blocks[b].instructions != []
    ensures ArenaOk(Threaded(blocks, b), panic, live) && Ranked(Threaded(blocks, b), rank, live)
    ensures var child := blocks[b].next[0];
            var target := blocks[child].instructions[0].target;
            && rank[target] < rank[child] && CanThread(GraphOf(blocks), b, child, target)
            && GraphOf(Threaded(blocks, b)) == JumpThreading.Redirect(GraphOf(blocks), b, target)
  {
    ThreadsLive(blocks, panic, rank, live, b);
    var blocks' := Threaded(blocks, b);
    assert Ranked(blocks', rank, live);
    hide BlockOk, Threadable, Ranked;
    ThreadedBlockOk(blocks, panic, live, b);
    forall c | c in live
      ensures BlockOk(blocks'[c], panic, live) && Threadable(blocks', c, panic)
    {
      ThreadedThreadable(blocks, panic, b, c);
    }
  }

  class TranslationContext {
    var blocks: Arena
    const initial: nat
    const panic: nat

    constructor (blocks: Arena, initial: nat, panic: nat)
      ensures this.blocks == blocks && this.initial == initial && this.panic == panic
    {
      this.blocks, this.initial, this.panic := blocks, initial, panic;
    }

    /** Redirects the last jump of block `b` past its successor. */
    method Redirect(b: nat, ghost rank: seq<nat>, ghost live: set<nat>)
      requires ArenaOk(blocks, panic, live) && Ranked(blocks, rank, live)
      requires b in live && b < |blocks| && Threads(blocks, b)
      modifies this`blocks
      ensures old(blocks[b].instructions) != [] && blocks == Threaded(old(blocks), b)
      ensures ArenaOk(blocks, panic, live) && Ranked(blocks, rank, live)
      ensures |blocks[b].next| == 1 && blocks[b].next[0] < |rank| == |blocks|
      ensures rank[blocks[b].next[0]] < rank[old(blocks[b].next[0])]
      ensures SameGraphs(GraphOf(old(blocks)), GraphOf(blocks))
    {
      ThreadedOk(blocks, panic, rank, live, b);
      var child := blocks[b].next[0];
      var grandchild := blocks[child].instructions[0].target;
      ThreadingSameGraphs(GraphOf(blocks), b, child, grandchild);
      hide ArenaOk, SameGraphs, GraphOf;
      var instructions := blocks[b].instructions;
      blocks := blocks[b := X86Block(instructions[|instructions| - 1 := Jmp(grandchild)], [grandchild],
                                     blocks[b].linked)];
    }

    /** Follows the chain of single jumps behind block `b`, rewriting its last jump. */
    method EmptyBlockJumpThreading(b: nat, ghost rank: seq<nat>, ghost live: set<nat>)
      requires ArenaOk(blocks, panic, live) && Ranked(blocks, rank, live) && b in live && b < |blocks|
      modifies this`blocks
      ensures |blocks| == |old(blocks)| && ArenaOk(blocks, panic, live) && Ranked(blocks, rank, live)
      ensures forall c :: 0 <= c < |blocks| && c != b ==> blocks[c] == old(blocks[c])
      ensures blocks[b].linked == old(blocks[b].linked)
      ensures !Threads(blocks, b) && SameShapes(old(blocks), blocks)
      ensures SameGraphs(GraphOf(old(blocks)), GraphOf(blocks))
      decreases if |blocks[b].next| == 1 && blocks[b].next[0] < |rank| then rank[blocks[b].next[0]] else 0
    {
      assert |rank| == |blocks|;
      hide ArenaOk, Ranked, SameGraphs, GraphOf;
      ghost var g := GraphOf(blocks);
      if Threads(blocks, b) {
        Redirect(b, rank, live);
        ghost var g1 := GraphOf(blocks);
        EmptyBlockJumpThreading(b, rank, live);
        SameGraphsTransitive(g, g1, GraphOf(blocks));
      } else {
        SameGraphsReflexive(g);
      }
    }

    /** Marks a block as found and threads it. */
    method Link(b: nat, ghost rank: seq<nat>, ghost live: set<nat>)
      requires ArenaOk(blocks, panic, live) && Ranked(blocks, rank, live) && b in live && b < |blocks|
      modifies this`blocks
      ensures |blocks| == |old(blocks)| && ArenaOk(blocks, panic, live) && Ranked(blocks, rank, live)
                && blocks[b].linked
      ensures forall c :: 0 <= c < |blocks| && c != b ==> blocks[c] == old(blocks[c])
      ensures !Threads(blocks, b) && SameShapes(old(blocks), blocks)
      ensures SameGraphs(GraphOf(old(blocks)), GraphOf(blocks))
    {
      ghost var g := GraphOf(blocks);
      LinkedOk(blocks, panic, rank, live, b);
      blocks := blocks[b := blocks[b].(linked := true)];
      hide BlockOk, Threadable, Ranked, SameGraphs, ArenaOk;
      EmptyBlockJumpThreading(b, rank, live);
    }

    /** Finds the blocks reachable from the initial and the panic block, threading each as it is found. */
    method Discover(ghost rank: seq<nat>, ghost live: set<nat>) returns (order: seq<nat>)
      requires ArenaOk(blocks, panic, live) && Ranked(blocks, rank, live) && initial in live
      requires forall b :: 0 <= b < |blocks| ==> !blocks[b].linked
      modifies this`blocks
      ensures |blocks| == |old(blocks)| && ArenaOk(blocks, panic, live)
      ensures SameGraphs(GraphOf(old(blocks)), GraphOf(blocks))
      ensures Discovered(blocks, order, []) && (forall b <- order :: b in live)
      ensures order != [] && order[0] == initial && panic in order
      ensures forall b <- order :: b < |blocks| && !Threads(blocks, b)
    {
      hide SameGraphs, Ranked, BlockOk, Threadable, GraphOf, SameShapes, Threads;
      order := [];
      var queue := [panic, initial];
      ghost var g := GraphOf(blocks);
      SameGraphsReflexive(g);
      ghost var found: set<nat> := {};
      while queue != []
        invariant |blocks| == |old(blocks)| && ArenaOk(blocks, panic, live) && Ranked(blocks, rank, live)
        invariant SameGraphs(g, GraphOf(blocks))
        invariant Discovered(blocks, order, queue)
        invariant (forall b <- order + queue :: b in live)
        invariant AllThreaded(blocks, order)
        invariant panic in order || panic in queue
        invariant if order == [] then queue != [] && queue[|queue| - 1] == initial else order[0] == initial
        invariant found == (set b | b in order) && found <= Below(|blocks|)
        decreases Below(|blocks|) - found, |queue|
      {
        var b := queue[|queue| - 1];
        ghost var waiting := queue;
        queue := queue[..|queue| - 1];
        assert waiting == queue + [b] && b in waiting;
        if !blocks[b].linked {
          ghost var before := blocks;
          Link(b, rank, live);
          SameGraphsTransitive(g, GraphOf(before), GraphOf(blocks));
          DiscoveredNext(before, blocks, order, queue, b, panic, live);
          ThreadedNext(before, blocks, order, b);
          order := order + [b];
          found := found + {b};
          queue := queue + blocks[b].next;
        } else {
          DiscoveredSkip(blocks, order, queue, b);
        }
      }
    }

    /** Places the blocks one after the other. */
    static method Place(g: Graph, order: seq<nat>) returns (code: seq<Instruction>, place: map<nat, nat>)
      requires InGraph(g, order)
      requires forall i, j :: 0 <= i < j < |order| ==> order[i] != order[j]
      ensures code == Flatten(g, order) && Places(g, order, place)
    {
      code, place := [], map[];
      for i := 0 to |order|
        invariant InGraph(g, order[..i]) && code == Flatten(g, order[..i]) && Places(g, order[..i], place)
      {
        hide Flatten, Places;
        FlattenSnoc(g, order, i);
        PlacesSnoc(g, order, i, place);
        place := place[order[i] := |code|];
        code := code + g[order[i]];
      }
      assert order[..|order|] == order;
    }

    /** Kills jumps to the next instruction. */
    method KillFallThroughJumps(code: seq<Instruction>, place: map<nat, nat>) returns (code': seq<Instruction>)
      ensures code' == Thinned(code, place)
    {
      code' := code;
      for i := 0 to |code|
        invariant |code'| == |code|
        invariant forall j :: 0 <= j < i ==> code'[j] == Thinned(code, place)[j]
        invariant forall j :: i <= j < |code| ==> code'[j] == code[j]
      {
        if code[i].Jmp? && code[i].target in place && place[code[i].target] == i + 1 {
          code' := code'[i := Dead];
        }
      }
    }

    /** Gives every target of a live jump the first live instruction from its block's place on, which has
        to be there. */
    method CollapseLabels(code: seq<Instruction>, place: map<nat, nat>) returns (labels: map<nat, nat>)
      requires Reachable(code, place)
      ensures Labelled(code, place, labels)
    {
      labels := map[];
      for k := 0 to |code|
        invariant forall i <- code[..k] :: (i.Jmp? || i.Jcc?) ==> i.target in labels
        invariant forall t :: t in labels ==> t in place && labels[t] == NextLive(code, place[t]) < |code|
      {
        assert code[..k + 1] == code[..k] + [code[k]];
        assert code[k] in code;
        if code[k].Jmp? || code[k].Jcc? {
          labels := labels[code[k].target := NextLive(code, place[code[k].target])];
        }
      }
      assert code[..|code|] == code;
    }

    /** The instruction list and labels handed to the assembler.  Running the list from its start shows,
        for all outcomes of the conditional jumps, exactly what running the original blocks from the
        initial block shows. */
    method Compile(ghost rank: seq<nat>, ghost live: set<nat>)
      returns (code: seq<Instruction>, labels: map<nat, nat>, ghost order: seq<nat>, ghost place: map<nat, nat>)
      requires ArenaOk(blocks, panic, live) && Ranked(blocks, rank, live) && initial in live
      requires forall b :: 0 <= b < |blocks| ==> !blocks[b].linked
      modifies this`blocks
      ensures LaidOut(GraphOf(blocks), order, place, code, labels) && order != [] && order[0] == initial
                && panic in order
      ensures forall b :: 0 <= b < |blocks| && b in order ==> forall c <- blocks[b].next :: c in order
      ensures forall b :: 0 <= b < |blocks| && b in order && |blocks[b].next| == 1 ==>
                var c := blocks[b].next[0];
                c < |blocks| && !(|blocks[c].instructions| == 1 && blocks[c].instructions[0].Jmp?)
      ensures forall test: Test, o :: Shows(GraphOf(old(blocks)), test, At(initial, 0, []), o) <==>
                                      FlatShows(code, labels, test, On(NextLive(code, 0), []), o)
    {
      hide Flatten, SameGraphs, BlockOk;
      ghost var g := GraphOf(blocks);
      var found := Discover(rank, live);
      ghost var g1 := GraphOf(blocks);
      DiscoveredCanPlace(blocks, found, panic, live);
      var flat, places := Place(GraphOf(blocks), found);
      FlatTargets(g1, found, places);
      code := KillFallThroughJumps(flat, places);
      ThinnedTargets(g1, found, places);
      labels := CollapseLabels(code, places);
      order, place := found, places;
      CompiledSame(g, g1, order, place, code, labels, initial);
    }
  }

  lemma {:induction false} LinkedOk(blocks: Arena, panic: nat, rank: seq<nat>, live: set<nat>, b: nat)
    requires ArenaOk(blocks, panic, live) && Ranked(blocks, rank, live) && b in live && b < |blocks|
    ensures var blocks' := blocks[b := blocks[b].(linked := true)];
            ArenaOk(blocks', panic, live) && Ranked(blocks', rank, live) && GraphOf(blocks') == GraphOf(blocks)
  {
    var blocks' := blocks[b := blocks[b].(linked := true)];
    forall c | c in live
      ensures BlockOk(blocks'[c], panic, live) && Threadable(blocks', c, panic)
    {
      assert BlockOk(blocks[c], panic, live) && Threadable(blocks, c, panic);
    }
  }

  lemma {:induction false} DiscoveredCanPlace(blocks: Arena, order: seq<nat>, panic: nat, live: set<nat>)
    requires ArenaOk(blocks, panic, live) && Discovered(blocks, order, []) && panic in order
               && forall b <- order :: b in live
    ensures CanPlace(GraphOf(blocks), order) && InGraph(GraphOf(blocks), order)
  {
    var g := GraphOf(blocks);
    forall i | 0 <= i < |order| ensures TargetsIn(g[order[i]], set c | c in order) {
      var b := blocks[order[i]];
      assert order[i] in order;
      assert BlockOk(b, panic, live);
      forall x | x in b.instructions && (x.Jmp? || x.Jcc?) ensures x.target in order {
        var k :| 0 <= k < |b.instructions| && b.instructions[k] == x;
        assert x.target == panic || x.target in b.next;
      }
    }
  }

  lemma {:induction false} FlatTargets(g: Graph, order: seq<nat>, place: map<nat, nat>)
    requires CanPlace(g, order) && InGraph(g, order) && place.Keys == (set b | b in order)
    ensures forall i <- Flatten(g, order) :: (i.Jmp? || i.Jcc?) ==> i.target in place
  {
    FlatTargetsUpTo(g, order, place, |order|);
    assert order[..|order|] == order;
  }

  lemma {:induction false} FlatTargetsUpTo(g: Graph, order: seq<nat>, place: map<nat, nat>, n: nat)
    requires CanPlace(g, order) && InGraph(g, order) && place.Keys == (set b | b in order) && n <= |order|
    ensures InGraph(g, order[..n])
    ensures forall i <- Flatten(g, order[..n]) :: (i.Jmp? || i.Jcc?) ==> i.target in place
  {
    if n > 0 {
      FlatTargetsUpTo(g, order, place, n - 1);
      assert order[..n][..n - 1] == order[..n - 1];
      assert TargetsIn(g[order[n - 1]], set c | c in order);
    }
  }

  /** Every jump of the thinned list has a live instruction to go to. */
  lemma {:induction false} ThinnedTargets(g: Graph, order: seq<nat>, place: map<nat, nat>)
    requires CanPlace(g, order) && InGraph(g, order) && Places(g, order, place)
    requires forall i <- Flatten(g, order) :: (i.Jmp? || i.Jcc?) ==> i.target in place
    ensures Reachable(Thinned(Flatten(g, order), place), place)
  {
    var flat := Flatten(g, order);
    var code := Thinned(flat, place);
    forall i | i in code && (i.Jmp? || i.Jcc?)
      ensures i.target in place && NextLive(code, place[i.target]) < |code|
    {
      var k :| 0 <= k < |code| && code[k] == i;
      assert flat[k] in flat;
      LastIsLive(g, order, place, i.target);
    }
  }

  lemma {:induction false} CompiledSame(g: Graph, g1: Graph, order: seq<nat>, place: map<nat, nat>,
      code: seq<Instruction>, labels: map<nat, nat>, initial: nat)
    requires SameGraphs(g, g1) && LaidOut(g1, order, place, code, labels)
    requires order != [] && order[0] == initial
    ensures forall test: Test, o :: Shows(g, test, At(initial, 0, []), o) <==>
                                    FlatShows(code, labels, test, On(NextLive(code, 0), []), o)
  {
    assert order[0] in order;
    assert order[..0] == [];
    assert place[initial] == 0;
    assert SameRuns(g, At(initial, 0, []), g1, At(initial, 0, []));
    forall test: Test, o
      ensures Shows(g, test, At(initial, 0, []), o) <==> FlatShows(code, labels, test, On(NextLive(code, 0), []), o)
    {
      LayoutSimulates(g1, order, place, code, labels, initial, test, o);
    }
  }

  lemma {:induction false} DiscoveredNext(blocks: Arena, blocks': Arena, order: seq<nat>, queue: seq<nat>, b: nat,
                                          panic: nat, live: set<nat>)
    requires Discovered(blocks, order, queue + [b]) && b < |blocks| == |blocks'| && !blocks[b].linked
    requires blocks'[b].linked && forall c :: 0 <= c < |blocks| && c != b ==> blocks'[c] == blocks[c]
    requires BlockOk(blocks'[b], panic, live) && forall c <- live :: c < |blocks|
    ensures Discovered(blocks', order + [b], queue + blocks'[b].next)
    ensures (forall c <- order + (queue + [b]) :: c in live) ==>
              forall c <- order + [b] + (queue + blocks'[b].next) :: c in live
  {
    var order', queue' := order + [b], queue + blocks'[b].next;
    forall c | c in order' + queue' ensures c in order + (queue + [b]) || c in live {
      assert c in order' || c in queue';
    }
    forall i | 0 <= i < |order'| ensures forall c <- blocks'[order'[i]].next :: c in order' || c in queue' {
      if i < |order| {
        assert order[i] in order;
        forall c | c in blocks[order[i]].next ensures c in order' || c in queue' {
          assert c in order || c in queue + [b];
        }
      }
    }
    forall c | 0 <= c < |blocks'| ensures blocks'[c].linked <==> c in order' {}
    forall c | c in queue' ensures c < |blocks| {
      if c in queue {
        assert c in queue + [b];
      }
    }
  }

  lemma {:induction false} DiscoveredSkip(blocks: Arena, order: seq<nat>, queue: seq<nat>, b: nat)
    requires Discovered(blocks, order, queue + [b]) && b < |blocks| && blocks[b].linked
    ensures Discovered(blocks, order, queue)
  {
    forall c | c in queue ensures c < |blocks| {
      assert c in queue + [b];
    }
    forall i | 0 <= i < |order| ensures forall c <- blocks[order[i]].next :: c in order || c in queue {
      forall c | c in blocks[order[i]].next ensures c in order || c in queue {
        assert c in order || c in queue + [b];
      }
    }
  }

  /** The blocks in `order` are the linked ones, each once, and what they lead to is found or waiting. */
  ghost predicate Discovered(blocks: Arena, order: seq<nat>, queue: seq<nat>) {
    && (forall i :: 0 <= i < |order| ==> order[i] < |blocks|)
    && (forall i, j :: 0 <= i < j < |order| ==> order[i] != order[j])
    && (forall b :: 0 <= b < |blocks| ==> (blocks[b].linked <==> b in order))
    && (forall b <- queue :: b < |blocks|)
    && (forall i :: 0 <= i < |order| ==> forall c <- blocks[order[i]].next :: c in order || c in queue)
  }

  lemma {:induction false} SameGraphsReflexive(g: Graph)
    ensures SameGraphs(g, g)
  {}

  /** A panic block, an initial block that tests and leaves through an indirect jump, the block it tests for, and
      a block that an abandoned translation left empty. */
  function LeavingBlocks(): Arena {
    [X86Block([Stop(0)], [], false), X86Block([Plain(1), Jcc(2, 2), Stop(3)], [2], false),
     X86Block([Stop(4)], [], false), X86Block([], [], false)]
  }

  /** Such blocks can be compiled. */
  lemma {:induction false} LeavingBlocksReady()
    ensures ArenaOk(LeavingBlocks(), 0, {0, 1, 2}) && Ranked(LeavingBlocks(), [0, 0, 0, 0], {0, 1, 2})
  {
    var blocks := LeavingBlocks();
    assert blocks[1].instructions[1].target == blocks[1].next[0];
    forall b | b in {0, 1, 2} ensures b < |blocks| && BlockOk(blocks[b], 0, {0, 1, 2}) && Threadable(blocks, b, 0) {}
  }
}
