/** Laying a block graph out as one instruction list.

    Blocks are placed one after the other, a jump to the instruction that follows it
    dies, and a jump target is the first instruction at or after its block's place that
    is still alive. */
module BlockLayout {
  import opened JumpCode

  /** Each block ends in a jump or a stop. */
  predicate Terminated(block: seq<Instruction>) {
    block != [] && (block[|block| - 1].Jmp? || block[|block| - 1].Stop?)
  }

  predicate TargetsIn(block: seq<Instruction>, placed: set<nat>) {
    forall i <- block :: (i.Jmp? || i.Jcc?) ==> i.target in placed
  }

  /** What can be laid out: distinct terminated blocks that jump only among themselves. */
  ghost predicate CanPlace(g: Graph, order: seq<nat>) {
    && (forall i, j :: 0 <= i < j < |order| ==> order[i] != order[j])
    && forall i :: 0 <= i < |order| ==>
         order[i] < |g| && Terminated(g[order[i]]) && TargetsIn(g[order[i]], set c | c in order)
  }

  predicate InGraph(g: Graph, order: seq<nat>) {
    forall i :: 0 <= i < |order| ==> order[i] < |g|
  }

  function Flatten(g: Graph, order: seq<nat>): seq<Instruction>
    requires InGraph(g, order)
  {
    if order == [] then [] else Flatten(g, order[..|order| - 1]) + g[order[|order| - 1]]
  }

  lemma {:induction false} FlattenSnoc(g: Graph, order: seq<nat>, i: nat)
    requires InGraph(g, order) && i < |order|
    ensures Flatten(g, order[..i + 1]) == Flatten(g, order[..i]) + g[order[i]]
  {
    assert order[..i + 1][..i] == order[..i];
  }

  /** `place` says where each block of `order` starts. */
  ghost predicate Places(g: Graph, order: seq<nat>, place: map<nat, nat>)
    requires InGraph(g, order)
  {
    && place.Keys == (set b | b in order)
    && forall i :: 0 <= i < |order| ==> place[order[i]] == |Flatten(g, order[..i])|
  }

  lemma {:induction false} PlacesSnoc(g: Graph, order: seq<nat>, i: nat, place: map<nat, nat>)
    requires InGraph(g, order) && i < |order| && Places(g, order[..i], place)
    requires forall i, j :: 0 <= i < j < |order| ==> order[i] != order[j]
    ensures Places(g, order[..i + 1], place[order[i] := |Flatten(g, order[..i])|])
  {
    hide Flatten;
    var place' := place[order[i] := |Flatten(g, order[..i])|];
    var front := order[..i + 1];
    assert front == order[..i] + [order[i]];
    forall j | 0 <= j < |front| ensures place'[front[j]] == |Flatten(g, front[..j])| {
      assert front[..j] == order[..j];
      if j < i {
        assert order[..i][..j] == order[..j];
        assert place[order[..i][j]] == |Flatten(g, order[..i][..j])|;
      }
    }
  }

  lemma {:induction false} FlattenPrefix(g: Graph, order: seq<nat>, i: nat)
    requires InGraph(g, order) && i <= |order|
    ensures Flatten(g, order[..i]) <= Flatten(g, order)
  {
    if i < |order| {
      FlattenPrefix(g, order[..|order| - 1], i);
      assert order[..|order| - 1][..i] == order[..i];
    } else {
      assert order[..i] == order;
    }
  }

  /** A placed block is found in the list, instruction by instruction. */
  lemma {:induction false} PlacedCode(g: Graph, order: seq<nat>, i: nat, pos: nat)
    requires InGraph(g, order) && i < |order| && pos < |g[order[i]]|
    ensures var p := |Flatten(g, order[..i])| + pos;
            p < |Flatten(g, order)| && Flatten(g, order)[p] == g[order[i]][pos]
  {
    FlattenPrefix(g, order, i + 1);
    FlattenSnoc(g, order, i);
  }

  /** The list once jumps to the next instruction are dead. */
  function Thinned(code: seq<Instruction>, place: map<nat, nat>): (r: seq<Instruction>)
    ensures |r| == |code|
  {
    seq(|code|, i requires 0 <= i < |code| =>
      if code[i].Jmp? && code[i].target in place && place[code[i].target] == i + 1 then Dead else code[i])
  }

  /** The first live instruction at or after `i`. */
  function NextLive(code: seq<Instruction>, i: nat): (r: nat)
    ensures i <= |code| ==> i <= r <= |code| && forall j :: i <= j < r ==> code[j].Dead?
    ensures r < |code| ==> !code[r].Dead?
    decreases |code| - i
  {
    if i >= |code| || !code[i].Dead? then i else NextLive(code, i + 1)
  }

  lemma {:induction false} PlacedInside(g: Graph, order: seq<nat>, place: map<nat, nat>, b: nat)
    requires CanPlace(g, order) && Places(g, order, place) && b in place
    ensures b in order && place[b] < |Flatten(g, order)|
  {
    hide Flatten;
    var i :| 0 <= i < |order| && order[i] == b;
    assert Terminated(g[order[i]]);
    PlacedCode(g, order, i, 0);
  }

  /** The last instruction of a layout never dies, so behind every placed block there is a live one. */
  lemma {:induction false} LastIsLive(g: Graph, order: seq<nat>, place: map<nat, nat>, b: nat)
    requires CanPlace(g, order) && Places(g, order, place) && b in place
    ensures NextLive(Thinned(Flatten(g, order), place), place[b]) < |Flatten(g, order)|
  {
    hide Flatten, TargetsIn, Places;
    PlacedInside(g, order, place, b);
    var flat, n := Flatten(g, order), |order| - 1;
    var block := g[order[n]];
    assert Terminated(block);
    PlacedCode(g, order, n, |block| - 1);
    assert order[..n + 1] == order;
    FlattenSnoc(g, order, n);
    var last := flat[|flat| - 1];
    assert last == block[|block| - 1];
    if last.Jmp? && last.target in place {
      PlacedInside(g, order, place, last.target);
    }
    assert !Thinned(flat, place)[|flat| - 1].Dead?;
  }

  datatype FlatConfig = On(index: nat, trace: Trace) | Over(observation: Observation)

  function ObserveFlat(c: FlatConfig): Observation {
    match c
    case On(_, trace) => Observation(trace, Running)
    case Over(o) => o
  }

  /** One emitted instruction: dead ones take no step, and a jump goes to its target's label. */
  function FlatStep(code: seq<Instruction>, labels: map<nat, nat>, test: Test, c: FlatConfig): FlatConfig {
    match c
    case Over(_) => c
    case On(i, trace) =>
      if i >= |code| then Over(Observation(trace, Stuck))
      else
        match code[i]
        case Plain(id) => On(NextLive(code, i + 1), trace + [Ran(id)])
        case Dead => On(NextLive(code, i + 1), trace)
        case Jmp(t) => if t in labels then On(labels[t], trace) else Over(Observation(trace, Stuck))
        case Jcc(id, t) =>
          if !test(id, trace) then On(NextLive(code, i + 1), trace + [Tested(id, false)])
          else if t in labels then On(labels[t], trace + [Tested(id, true)])
          else Over(Observation(trace, Stuck))
        case Stop(id) => Over(Observation(trace, Stopped(id)))
  }

  function FlatRun(code: seq<Instruction>, labels: map<nat, nat>, test: Test, c: FlatConfig, n: nat): FlatConfig
    decreases n
  {
    if n == 0 then c else FlatRun(code, labels, test, FlatStep(code, labels, test, c), n - 1)
  }

  ghost predicate FlatShows(code: seq<Instruction>, labels: map<nat, nat>, test: Test, c: FlatConfig, o: Observation) {
    exists n: nat :: ObserveFlat(FlatRun(code, labels, test, c, n)) == o
  }

  /** Every jump's target is placed before some live instruction. */
  ghost predicate Reachable(code: seq<Instruction>, place: map<nat, nat>) {
    forall i <- code :: (i.Jmp? || i.Jcc?) ==> i.target in place && NextLive(code, place[i.target]) < |code|
  }

  /** `labels` has every target of a live jump, at the first live instruction of its block's place. */
  ghost predicate Labelled(code: seq<Instruction>, place: map<nat, nat>, labels: map<nat, nat>) {
    && (forall i <- code :: (i.Jmp? || i.Jcc?) ==> i.target in labels)
    && (forall t :: t in labels ==> t in place && labels[t] == NextLive(code, place[t]) < |code|)
  }

  /** A finished layout of `order`. */
  ghost predicate LaidOut(g: Graph, order: seq<nat>, place: map<nat, nat>, code: seq<Instruction>, labels: map<nat,
      nat>) {
    && CanPlace(g, order) && Places(g, order, place)
    && code == Thinned(Flatten(g, order), place) && Labelled(code, place, labels)
  }

  /** What the layout makes of instruction `pos` of block `b`. */
  ghost predicate EmbeddedAt(g: Graph, place: map<nat, nat>, code: seq<Instruction>, labels: map<nat, nat>, b: nat,
      pos: nat)
    requires b in place && b < |g| && pos < |g[b]|
  {
    var p, i := place[b] + pos, g[b][pos];
    && p < |code|
    && (i.Jmp? || i.Jcc? ==> i.target in place && i.target < |g| && |g[i.target]| > 0)
    && code[p] == (if i.Jmp? && place[i.target] == p + 1 then Dead else i)
    && (code[p].Jmp? || code[p].Jcc? ==> i.target in labels && labels[i.target] == NextLive(code, place[i.target]))
    && (i.Plain? || i.Dead? || i.Jcc? ==> pos + 1 < |g[b]|)
  }

  ghost predicate Embedded(g: Graph, place: map<nat, nat>, code: seq<Instruction>, labels: map<nat, nat>) {
    forall b :: b in place ==> b < |g| && forall pos :: 0 <= pos < |g[b]| ==> EmbeddedAt(g, place, code, labels, b, pos)
  }

  lemma {:induction false} EmbedOne(g: Graph, order: seq<nat>, place: map<nat, nat>, code: seq<Instruction>,
      labels: map<nat, nat>, k: nat, pos: nat)
    requires LaidOut(g, order, place, code, labels) && k < |order| && pos < |g[order[k]]|
    ensures order[k] in place && EmbeddedAt(g, place, code, labels, order[k], pos)
  {
    hide Flatten;
    var b := order[k];
    PlacedCode(g, order, k, pos);
    var p, i := place[b] + pos, g[b][pos];
    assert Terminated(g[b]) && TargetsIn(g[b], set c | c in order);
    assert i in g[b];
    assert code[p] in code;
    if i.Jmp? || i.Jcc? {
      var t :| 0 <= t < |order| && order[t] == i.target;
      assert Terminated(g[order[t]]);
    }
  }

  lemma {:induction false} LaidOutEmbedded(g: Graph, order: seq<nat>, place: map<nat, nat>, code: seq<Instruction>,
      labels: map<nat, nat>)
    requires LaidOut(g, order, place, code, labels)
    ensures Embedded(g, place, code, labels)
  {
    forall b | b in place
      ensures b < |g| && forall pos :: 0 <= pos < |g[b]| ==> EmbeddedAt(g, place, code, labels, b, pos)
    {
      var k :| 0 <= k < |order| && order[k] == b;
      forall pos | 0 <= pos < |g[b]| ensures EmbeddedAt(g, place, code, labels, b, pos) {
        EmbedOne(g, order, place, code, labels, k, pos);
      }
    }
  }

  /** The graph is at an instruction of a placed block and the list at the first live one from there on. */
  ghost predicate Same(g: Graph, place: map<nat, nat>, code: seq<Instruction>, c: Config, f: FlatConfig) {
    match c
    case Ended(o) => f == Over(o)
    case At(b, pos, trace) =>
      b in place && b < |g| && pos < |g[b]| && f == On(NextLive(code, place[b] + pos), trace)
  }

  /** Where the graph is in the list. */
  ghost function Here(place: map<nat, nat>, c: Config): nat {
    if c.At? && c.block in place then place[c.block] + c.pos else 0
  }

  /** At a dead instruction the graph takes a step the list does not need. */
  lemma {:induction false} StepDead(g: Graph, place: map<nat, nat>, code: seq<Instruction>, labels: map<nat, nat>,
      test: Test, c: Config, f: FlatConfig)
    requires Embedded(g, place, code, labels) && Same(g, place, code, c, f)
    requires c.At? && Here(place, c) < |code| && code[Here(place, c)].Dead?
    ensures var c' := Step(g, test, c);
            Same(g, place, code, c', f) && c'.At? && Here(place, c') == Here(place, c) + 1 && Observe(c') == Observe(c)
  {
    assert EmbeddedAt(g, place, code, labels, c.block, c.pos);
  }

  /** At a live instruction both do the same. */
  lemma {:induction false} StepLive(g: Graph, place: map<nat, nat>, code: seq<Instruction>, labels: map<nat, nat>,
      test: Test, c: Config, f: FlatConfig)
    requires Embedded(g, place, code, labels) && Same(g, place, code, c, f)
    requires c.At? && Here(place, c) < |code| && !code[Here(place, c)].Dead?
    ensures Same(g, place, code, Step(g, test, c), FlatStep(code, labels, test, f))
  {
    assert EmbeddedAt(g, place, code, labels, c.block, c.pos);
  }

  lemma {:induction false} FlatFollows(g: Graph, place: map<nat, nat>, code: seq<Instruction>, labels: map<nat, nat>,
      test: Test,
                                       c: Config, f: FlatConfig, n: nat) returns (m: nat)
    requires Embedded(g, place, code, labels) && Same(g, place, code, c, f)
    ensures Same(g, place, code, Run(g, test, c, n), FlatRun(code, labels, test, f, m))
    decreases n
  {
    m := 0;
    if n > 0 {
      if c.Ended? {
        m := FlatFollows(g, place, code, labels, test, c, f, n - 1);
      } else {
        assert EmbeddedAt(g, place, code, labels, c.block, c.pos);
        if code[Here(place, c)].Dead? {
          StepDead(g, place, code, labels, test, c, f);
          m := FlatFollows(g, place, code, labels, test, Step(g, test, c), f, n - 1);
        } else {
          StepLive(g, place, code, labels, test, c, f);
          m := FlatFollows(g, place, code, labels, test, Step(g, test, c), FlatStep(code, labels, test, f), n - 1);
          m := m + 1;
        }
      }
    }
  }

  lemma {:induction false} GraphFollows(g: Graph, place: map<nat, nat>, code: seq<Instruction>, labels: map<nat, nat>,
      test: Test,
                                        c: Config, f: FlatConfig, m: nat) returns (n: nat)
    requires Embedded(g, place, code, labels) && Same(g, place, code, c, f)
    ensures Same(g, place, code, Run(g, test, c, n), FlatRun(code, labels, test, f, m))
    decreases m, |code| - Here(place, c)
  {
    n := 0;
    if m > 0 {
      if c.Ended? {
        n := GraphFollows(g, place, code, labels, test, c, f, m - 1);
      } else {
        assert EmbeddedAt(g, place, code, labels, c.block, c.pos);
        if code[Here(place, c)].Dead? {
          StepDead(g, place, code, labels, test, c, f);
          n := GraphFollows(g, place, code, labels, test, Step(g, test, c), f, m);
        } else {
          StepLive(g, place, code, labels, test, c, f);
          n := GraphFollows(g, place, code, labels, test, Step(g, test, c), FlatStep(code, labels, test, f), m - 1);
        }
        n := n + 1;
      }
    }
  }

  lemma {:induction false} SameObservation(g: Graph, place: map<nat, nat>, code: seq<Instruction>, c: Config,
      f: FlatConfig)
    requires Same(g, place, code, c, f)
    ensures Observe(c) == ObserveFlat(f)
  {}

  /** Running the list from the label of a placed block shows exactly what running the graph from that
      block shows: the same instructions in the same order, the same branches, the same end. */
  lemma {:induction false} LayoutSimulates(g: Graph, order: seq<nat>, place: map<nat, nat>, code: seq<Instruction>,
      labels: map<nat, nat>,
                        b: nat, test: Test, o: Observation)
    requires LaidOut(g, order, place, code, labels) && b in order
    ensures b in place
    ensures Shows(g, test, At(b, 0, []), o) <==> FlatShows(code, labels, test, On(NextLive(code, place[b]), []), o)
  {
    LaidOutEmbedded(g, order, place, code, labels);
    var c, f := At(b, 0, []), On(NextLive(code, place[b]), []);
    var k :| 0 <= k < |order| && order[k] == b;
    assert Terminated(g[order[k]]);
    assert Same(g, place, code, c, f);
    if Shows(g, test, c, o) {
      var n: nat :| Observe(Run(g, test, c, n)) == o;
      var m := FlatFollows(g, place, code, labels, test, c, f, n);
      SameObservation(g, place, code, Run(g, test, c, n), FlatRun(code, labels, test, f, m));
    }
    if FlatShows(code, labels, test, f, o) {
      var m: nat :| ObserveFlat(FlatRun(code, labels, test, f, m)) == o;
      var n := GraphFollows(g, place, code, labels, test, c, f, m);
      SameObservation(g, place, code, Run(g, test, c, n), FlatRun(code, labels, test, f, m));
    }
  }
}
