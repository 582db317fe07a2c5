/** Building the control flow graph of flat code, block by block. */
module FlatCodeBuilder {
  import opened ControlFlow
  import opened FlatCode

  /** The block numbers given to jump targets and to what follows a jump. */
  type Locations = map<nat, nat>

  /** Every location has a block of its own. */
  ghost predicate Fresh(locations: Locations, entry: nat, end: nat) {
    && (forall k :: k in locations ==> locations[k] < end && locations[k] != entry)
    && (forall k, l :: k in locations && l in locations && locations[k] == locations[l] ==> k == l)
  }

  /** The block being filled is `cur`; its statements so far are `open`. */
  datatype Building = Building(g: Graph, cur: nat, open: seq<Statement>)

  ghost function Content(s: Building, b: nat): seq<Statement>
    requires b < |s.g|
  {
    if b == s.cur then s.open else s.g[b].statements
  }

  ghost predicate Closed(s: Building, b: nat, offset: nat, t: Terminator)
    requires b < |s.g|
  {
    b != s.cur && offset == |s.g[b].statements| && s.g[b].terminator == t
  }

  ghost predicate LeadsTo(s: Building, b: nat, offset: nat, spot: Spot)
    requires b < |s.g|
  {
    spot == Spot(b, offset) || (Closed(s, b, offset, Unconditional(spot.block)) && spot.offset == 0)
  }

  /** Block `b` is the entry or starts at some location up to `pc`. */
  ghost predicate Opened(locations: Locations, entry: nat, b: nat, pc: nat) {
    b == entry || exists k :: 0 <= k <= pc && k in locations && locations[k] == b
  }

  /** The spot of instruction `pc` is in an earlier block than any location still ahead. */
  ghost predicate InPlace(code: Code, locations: Locations, entry: nat, s: Building, spots: seq<Spot>, pc: nat)
    requires pc < |spots|
  {
    && spots[pc].block < |s.g| && spots[pc].offset <= |Content(s, spots[pc].block)|
    && Opened(locations, entry, spots[pc].block, pc)
    && (pc in locations ==> spots[pc] == Spot(locations[pc], 0))
  }

  ghost predicate HoldsStatements(code: Code, s: Building, spots: seq<Spot>, pc: nat)
    requires pc < |spots| && pc < |code| && code[pc].Do? && spots[pc].block < |s.g|
  {
    var Spot(b, offset) := spots[pc];
    var ss := code[pc].statements;
    offset + |ss| <= |Content(s, b)| && Content(s, b)[offset..offset + |ss|] == ss
  }

  /** Instruction `pc` is in the graph, but for where the graph goes after it when it falls through. */
  ghost predicate Placed(code: Code, locations: Locations, entry: nat, s: Building, spots: seq<Spot>, pc: nat)
    requires pc < |spots| && pc < |code|
  {
    && InPlace(code, locations, entry, s, spots, pc)
    && var Spot(b, offset) := spots[pc];
       match code[pc]
       case Do(ss) => HoldsStatements(code, s, spots, pc)
       case Goto(t) => t in locations && Closed(s, b, offset, Unconditional(locations[t]))
       case Jump(x, t) =>
         t in locations && pc + 1 in locations && Closed(s, b, offset, Conditional(x, locations[t], locations[pc + 1]))
       case End => Closed(s, b, offset, Return("return"))
       case Exit(cause) => Closed(s, b, offset, Panic(cause))
  }

  ghost predicate Follows(code: Code, s: Building, spots: seq<Spot>, pc: nat)
    requires pc + 1 < |spots| && pc < |code| && spots[pc].block < |s.g|
  {
    code[pc].Do? ==> LeadsTo(s, spots[pc].block, spots[pc].offset + |code[pc].statements|, spots[pc + 1])
  }

  /** Instructions before `i` are in the graph; instruction `i` will start where the open block ends. */
  ghost predicate Ready(code: Code, locations: Locations, entry: nat, s: Building, spots: seq<Spot>, i: nat) {
    && i < |code| && |spots| == i + 1 && s.cur < |s.g| && entry < |s.g|
    && (forall pc :: 0 <= pc < i ==> Placed(code, locations, entry, s, spots, pc) && Follows(code, s, spots, pc))
    && InPlace(code, locations, entry, s, spots, i) && spots[i] == Spot(s.cur, |s.open|)
    && LeadsTo(s, entry, 0, spots[0])
  }

  /** Instructions before `i` are in the graph; the one before `i` may still lack a successor. */
  ghost predicate Pending(code: Code, locations: Locations, entry: nat, s: Building, spots: seq<Spot>, i: nat) {
    && i <= |code| && |spots| == i && s.cur < |s.g| && entry < |s.g|
    && (forall pc :: 0 <= pc < i ==>
         Placed(code, locations, entry, s, spots, pc) && (pc + 1 < i ==> Follows(code, s, spots, pc)))
    && (if i == 0 then s.cur == entry && s.open == []
        else
          && LeadsTo(s, entry, 0, spots[0])
          && if code[i - 1].Do? then
               s.cur == spots[i - 1].block && |s.open| == spots[i - 1].offset + |code[i - 1].statements|
             else i in locations && s.cur == locations[i] && s.open == [])
  }

  /** The open block gets its statements and a terminator, and `next` is opened. */
  function Close(s: Building, t: Terminator, next: nat): Building
    requires s.cur < |s.g|
  {
    Building(s.g[s.cur := s.g[s.cur].(statements := s.open, terminator := t)], next, [])
  }

  /** The state in which instruction `i` is looked at. */
  function Begin(s: Building, locations: Locations, i: nat): Building
    requires s.cur < |s.g|
  {
    if i in locations && locations[i] != s.cur then Close(s, Unconditional(locations[i]), locations[i]) else s
  }

  /** A location still ahead has a block that no instruction so far is in. */
  lemma {:induction false} BlocksDiffer(code: Code, locations: Locations, entry: nat, s: Building, spots: seq<Spot>,
      pc: nat, k: nat)
    requires Fresh(locations, entry, |s.g|) && pc < |spots| && InPlace(code, locations, entry, s, spots, pc)
    requires k in locations && pc < k
    ensures spots[pc].block != locations[k]
  {}

  /** Closing the open block and opening one no instruction is in yet keeps what is in place. */
  lemma {:induction false} CloseKeeps(code: Code, locations: Locations, entry: nat, s: Building, spots: seq<Spot>,
      t: Terminator, next: nat, pc: nat)
    requires Fresh(locations, entry, |s.g|) && s.cur < |s.g| && next < |s.g| && next != s.cur && entry < |s.g|
    requires pc < |spots| && pc < |code| && Placed(code, locations, entry, s, spots, pc) && spots[pc].block != next
    ensures Placed(code, locations, entry, Close(s, t, next), spots, pc)
    ensures pc + 1 < |spots| && Follows(code, s, spots, pc) ==> Follows(code, Close(s, t, next), spots, pc)
  {
    assert Content(Close(s, t, next), spots[pc].block) == Content(s, spots[pc].block);
  }

  lemma {:induction false} SpotAppended(code: Code, locations: Locations, entry: nat, s: Building, spots: seq<Spot>,
      spot: Spot, i: nat)
    requires Pending(code, locations, entry, s, spots, i)
    ensures forall pc :: 0 <= pc < i ==>
                           && Placed(code, locations, entry, s, spots + [spot], pc)
                           && (pc + 1 < i ==> Follows(code, s, spots + [spot], pc))
  {
    forall pc | 0 <= pc < i
      ensures Placed(code, locations, entry, s, spots + [spot], pc)
      ensures pc + 1 < i ==> Follows(code, s, spots + [spot], pc)
    {
      assert Placed(code, locations, entry, s, spots, pc) && (pc + 1 < i ==> Follows(code, s, spots, pc));
    }
  }

  /** Before instruction `i` is looked at, the one before it gets its successor. */
  lemma {:induction false} BeginReady(code: Code, locations: Locations, entry: nat, s: Building, spots: seq<Spot>,
      i: nat)
    requires Fresh(locations, entry, |s.g|) && Pending(code, locations, entry, s, spots, i) && i < |code|
    ensures var s' := Begin(s, locations, i); Ready(code, locations, entry, s', spots + [Spot(s'.cur, |s'.open|)], i)
  {
    var s' := Begin(s, locations, i);
    var spots' := spots + [Spot(s'.cur, |s'.open|)];
    SpotAppended(code, locations, entry, s, spots, spots'[i], i);
    if s' != s {
      forall pc | 0 <= pc < i
        ensures Placed(code, locations, entry, s', spots', pc) && Follows(code, s', spots', pc)
      {
        assert Placed(code, locations, entry, s, spots', pc);
        BlocksDiffer(code, locations, entry, s, spots', pc, i);
        CloseKeeps(code, locations, entry, s, spots', Unconditional(locations[i]), locations[i], pc);
      }
    } else if i > 0 && code[i - 1].Do? {
      assert Placed(code, locations, entry, s, spots', i - 1);
      assert InPlace(code, locations, entry, s, spots', i);
    }
  }

  lemma {:induction false} StartPending(code: Code, locations: Locations, entry: nat, g: Graph)
    requires |g| > 0 && entry == |g| - 1 && Fresh(locations, entry, entry)
    ensures Fresh(locations, entry, |g|) && Pending(code, locations, entry, Building(g, entry, []), [], 0)
    ensures forall k :: k in locations ==> locations[k] < |g|
  {}

  /** An instruction that does not jump adds its statements to the open block. */
  lemma {:induction false} AppendPending(code: Code, locations: Locations, entry: nat, s: Building, spots: seq<Spot>,
      i: nat)
    requires Fresh(locations, entry, |s.g|) && Ready(code, locations, entry, s, spots, i) && code[i].Do?
    ensures Pending(code, locations, entry, s.(open := s.open + code[i].statements), spots, i + 1)
  {
    var s' := s.(open := s.open + code[i].statements);
    forall pc | 0 <= pc < i
      ensures Placed(code, locations, entry, s', spots, pc) && Follows(code, s', spots, pc)
    {
      assert Placed(code, locations, entry, s, spots, pc) && Follows(code, s, spots, pc);
      if code[pc].Do? {
        var Spot(b, offset) := spots[pc];
        var end := offset + |code[pc].statements|;
        assert Content(s', b)[offset..end] == Content(s, b)[offset..end];
      }
    }
    assert s'.open[|s.open|..] == code[i].statements;
    assert HoldsStatements(code, s', spots, i);
  }

  /** The terminator that instruction `i` gives the open block. */
  function Terminates(code: Code, locations: Locations, i: nat): Terminator
    requires i < |code| && !code[i].Do?
    requires code[i].Goto? || code[i].Jump? ==> code[i].target in locations && i + 1 in locations
  {
    match code[i]
    case Goto(t) => Unconditional(locations[t])
    case Jump(x, t) => Conditional(x, locations[t], locations[i + 1])
    case End => Return("return")
    case Exit(cause) => Panic(cause)
  }

  /** An instruction that ends a block closes the open one; the next instruction has one of its own. */
  lemma {:induction false} ClosePending(code: Code, locations: Locations, entry: nat, s: Building, spots: seq<Spot>,
      i: nat)
    requires Fresh(locations, entry, |s.g|) && Ready(code, locations, entry, s, spots, i) && !code[i].Do?
    requires i + 1 in locations && (code[i].Goto? || code[i].Jump? ==> code[i].target in locations)
    ensures Pending(code, locations, entry, Close(s, Terminates(code, locations, i), locations[i + 1]), spots, i + 1)
  {
    var t, next := Terminates(code, locations, i), locations[i + 1];
    var s' := Close(s, t, next);
    BlocksDiffer(code, locations, entry, s, spots, i, i + 1);
    forall pc | 0 <= pc < i
      ensures Placed(code, locations, entry, s', spots, pc) && Follows(code, s', spots, pc)
    {
      assert Placed(code, locations, entry, s, spots, pc) && Follows(code, s, spots, pc);
      BlocksDiffer(code, locations, entry, s, spots, pc, i + 1);
      CloseKeeps(code, locations, entry, s, spots, t, next, pc);
    }
    assert Placed(code, locations, entry, s', spots, i);
  }

  /** When no instruction is left, the graph is built. */
  lemma {:induction false} PendingBuilt(code: Code, locations: Locations, entry: nat, s: Building, spots: seq<Spot>)
    requires Fresh(locations, entry, |s.g|) && InRange(code) && Pending(code, locations, entry, s, spots, |code|)
    ensures Built(code, s.g, entry, spots)
  {
    forall pc | 0 <= pc < |code|
      ensures SpotOk(code, s.g, spots, pc)
    {
      assert Placed(code, locations, entry, s, spots, pc);
      BlocksDiffer(code, locations, entry, s, spots, pc, |code|);
      if code[pc].Goto? || code[pc].Jump? {
        assert code[pc] in code;
        assert Placed(code, locations, entry, s, spots, code[pc].target);
      }
      if pc + 1 < |code| {
        assert Placed(code, locations, entry, s, spots, pc + 1) && Follows(code, s, spots, pc);
      }
    }
  }

  lemma {:induction false} BuiltShows(code: Code, g: Graph, entry: nat, spots: seq<Spot>)
    requires Built(code, g, entry, spots)
    ensures forall test, o :: Shows(g, test, At(entry, 0, []), o) <==> FlatShows(code, test, On(0, 0, []), o)
  {
    forall test, o
      ensures Shows(g, test, At(entry, 0, []), o) <==> FlatShows(code, test, On(0, 0, []), o)
    {
      BuiltSimulates(code, g, entry, spots, test, o);
    }
  }

  /** Every block start of the first `n` instructions has a block. */
  ghost predicate Located(code: Code, locations: Locations, n: nat)
    requires n <= |code|
  {
    forall i :: 0 <= i < n && !code[i].Do? ==>
      i + 1 in locations && (code[i].Goto? || code[i].Jump? ==> code[i].target in locations)
  }

  /** Holds the blocks of the functions converted so far; blocks are shared and changed in place. */
  class BoomEmitter {
    var blocks: Graph

    constructor ()
      ensures blocks == []
    {
      blocks := [];
    }

    method NewBlock() returns (b: nat)
      modifies this
      ensures b == |old(blocks)| && blocks == old(blocks) + [NEW_BLOCK]
    {
      b := |blocks|;
      blocks := blocks + [NEW_BLOCK];
    }

    /** A block for every jump target and for what follows a jump, an end or an exit. */
    method FindLocations(code: Code) returns (locations: Locations)
      modifies this
      ensures Located(code, locations, |code|)
      ensures Fresh(locations, |blocks|, |blocks|) && old(blocks) <= blocks
      ensures forall k :: k in locations ==> |old(blocks)| <= locations[k]
    {
      locations := map[];
      for i := 0 to |code|
        invariant Located(code, locations, i)
        invariant Fresh(locations, |blocks|, |blocks|) && old(blocks) <= blocks
        invariant forall k :: k in locations ==> |old(blocks)| <= locations[k]
      {
        if code[i].Goto? || code[i].Jump? {
          var target := NewBlock();
          locations := locations[code[i].target := target];
        }
        if !code[i].Do? {
          var next := NewBlock();
          locations := locations[i + 1 := next];
        }
      }
    }

    method CloseBlock(b: nat, statements: seq<Statement>, t: Terminator)
      requires b < |blocks|
      modifies this
      ensures blocks == old(blocks)[b := old(blocks)[b].(statements := statements, terminator := t)]
      ensures forall p :: 0 <= p <= b ==> blocks[..p] == old(blocks)[..p]
    {
      blocks := blocks[b := blocks[b].(statements := statements, terminator := t)];
    }

    /** If a block starts at `i`, the open block runs on into it. */
    method EnterBlock(locations: Locations, i: nat, current: nat, statements: seq<Statement>)
      returns (current': nat, statements': seq<Statement>)
      requires current < |blocks|
      modifies this
      ensures Building(blocks, current', statements') == Begin(Building(old(blocks), current, statements), locations, i)
      ensures forall p :: 0 <= p <= current ==> blocks[..p] == old(blocks)[..p]
    {
      current', statements' := current, statements;
      if i in locations && locations[i] != current {
        CloseBlock(current, statements, Unconditional(locations[i]));
        current', statements' := locations[i], [];
      }
    }

    /** The blocks built for `code` show what `code` shows; blocks of other functions stay as they are. */
    method ConvertBody(code: Code) returns (entry: nat)
      requires InRange(code)
      modifies this
      ensures old(blocks) <= blocks && |old(blocks)| <= entry
      ensures exists spots :: Built(code, blocks, entry, spots)
      ensures forall test, o :: Shows(blocks, test, At(entry, 0, []), o) <==> FlatShows(code, test, On(0, 0, []), o)
    {
      hide Placed, Follows, InPlace, LeadsTo, Built, Shows, FlatShows, InRange, Fresh, Pending, Ready;
      ghost var before := blocks;
      var locations := FindLocations(code);
      entry := NewBlock();
      var current: nat, statements := entry, [];
      StartPending(code, locations, entry, blocks);
      ghost var spots: seq<Spot> := [];
      for i := 0 to |code|
        invariant Fresh(locations, entry, |blocks|)
        invariant Pending(code, locations, entry, Building(blocks, current, statements), spots, i)
        invariant forall k :: k in locations ==> |before| <= locations[k] < |blocks|
        invariant |before| <= current < |blocks| && before == blocks[..|before|]
      {
        ghost var s := Building(blocks, current, statements);
        BeginReady(code, locations, entry, s, spots, i);
        current, statements := EnterBlock(locations, i, current, statements);
        s := Building(blocks, current, statements);
        spots := spots + [Spot(current, |statements|)];
        match code[i]
        case Do(ss) =>
          AppendPending(code, locations, entry, s, spots, i);
          statements := statements + ss;
        case _ =>
          ClosePending(code, locations, entry, s, spots, i);
          CloseBlock(current, statements, Terminates(code, locations, i));
          current, statements := locations[i + 1], [];
      }
      PendingBuilt(code, locations, entry, Building(blocks, current, statements), spots);
      BuiltShows(code, blocks, entry, spots);
    }
  }
}
