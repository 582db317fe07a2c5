/** Progress of the translator's block queue: no panic on well-formed functions, an end on forward ones. */
module QueueProgress {
  import opened Wrappers
  import opened Rudder
  import opened Specialisation
  import opened WellFormedness
  import opened Worklist

  /** Every waiting block can be translated with the variables it is given. */
  ghost predicate QueueWell(f: Function, defined: seq<set<Name>>, queue: seq<Job>)
    requires WellFormed(f, defined)
  {
    forall i :: 0 <= i < |queue| ==>
      && queue[i].block < |f.blocks| && Definite(queue[i].store)
      && defined[queue[i].block] <= queue[i].store.Keys
  }

  /** A waiting block of a well-formed function is translated without panic, and hands on enough variables. */
  lemma {:induction false} JobWell(f: Function, defined: seq<set<Name>>, b: nat, store: VariableStore)
    requires WellFormed(f, defined) && b < |f.blocks| && defined[b] <= store.Keys
    ensures BlockOk(f.blocks[b], 0, store.Keys, {})
    ensures forall c: nat :: Successor(f, b, c) ==>
              c < |f.blocks| && defined[c] <= VarsAtEnd(f.blocks[b], 0, store.Keys)
  {
    MoreVars(f.blocks[b], 0, defined[b], store.Keys, {});
  }

  /** A bound on the length of the queue from now on, for `n` blocks that only jump forward. */
  function Weight(queue: seq<Job>, n: nat): nat {
    if queue == [] then 0
    else Weight(queue[..|queue| - 1], n) + JobWeight(queue[|queue| - 1].block, n)
  }

  function JobWeight(b: nat, n: nat): nat {
    if b < n then Pow2(n - b - 1) else 1
  }

  /** A bound on the turns still to be taken. */
  function ToDo(queue: seq<Job>, n: nat): int {
    2 * Weight(queue, n) - |queue|
  }

  lemma {:induction false} WeightAppend(a: seq<Job>, b: seq<Job>, n: nat)
    ensures Weight(a + b, n) == Weight(a, n) + Weight(b, n)
    decreases |b|
  {
    if b == [] {
      assert a + b == a;
    } else {
      var last := |b| - 1;
      assert (a + b)[..|a + b| - 1] == a + b[..last] && (a + b)[|a + b| - 1] == b[last];
      WeightAppend(a, b[..last], n);
    }
  }

  lemma {:induction false} WeightBounds(queue: seq<Job>, n: nat)
    ensures |queue| <= Weight(queue, n)
    decreases |queue|
  {
    if queue != [] {
      WeightBounds(queue[..|queue| - 1], n);
    }
  }

  lemma {:induction false} WeightOne(j: Job, n: nat)
    ensures Weight([j], n) == JobWeight(j.block, n)
  {
    assert [j][..0] == [];
  }

  lemma {:induction false} WeightForward(b: nat, c: nat, n: nat)
    requires b < c < n
    ensures 2 * JobWeight(c, n) <= JobWeight(b, n)
  {
    Pow2Grows(n - c - 1, n - b - 2);
  }

  lemma {:induction false} WeightFirst(queue: seq<Job>, n: nat)
    requires queue != []
    ensures Weight(queue, n) == JobWeight(queue[0].block, n) + Weight(queue[1..], n)
    ensures Weight(queue[1..], n) < Weight(queue, n) && ToDo(queue[1..], n) < ToDo(queue, n)
  {
    assert queue == [queue[0]] + queue[1..];
    WeightAppend([queue[0]], queue[1..], n);
    WeightOne(queue[0], n);
  }

  /** Replacing the first job by one for a later block, or by two, leaves less to do and the bound on the
      queue's length as it was. */
  lemma {:induction false} StaticDrops(queue: seq<Job>, j: Job, n: nat)
    requires queue != [] && queue[0].block < j.block < n
    ensures Weight([j] + queue[1..], n) <= Weight(queue, n) && ToDo([j] + queue[1..], n) < ToDo(queue, n)
  {
    WeightFirst(queue, n);
    WeightAppend([j], queue[1..], n);
    WeightOne(j, n);
    WeightForward(queue[0].block, j.block, n);
  }

  lemma {:induction false} DynamicDrops(queue: seq<Job>, j0: Job, j1: Job, n: nat)
    requires queue != [] && queue[0].block < j0.block < n && queue[0].block < j1.block < n
    ensures Weight(queue[1..] + [j0, j1], n) <= Weight(queue, n) && ToDo(queue[1..] + [j0, j1], n) < ToDo(queue, n)
  {
    WeightFirst(queue, n);
    WeightAppend(queue[1..], [j0, j1], n);
    assert [j0, j1] == [j0] + [j1];
    WeightAppend([j0], [j1], n);
    WeightOne(j0, n);
    WeightOne(j1, n);
    WeightForward(queue[0].block, j0.block, n);
    WeightForward(queue[0].block, j1.block, n);
  }

  /** All waiting blocks exist and there will be at most `bound` of them at once. */
  ghost predicate QueueLight(queue: seq<Job>, n: nat, bound: nat) {
    (forall i :: 0 <= i < |queue| ==> queue[i].block < n) && Weight(queue, n) <= bound
  }

  lemma {:induction false} QueueBounds(queue: seq<Job>, n: nat, bound: nat)
    ensures |queue| <= Weight(queue, n) && |queue| <= ToDo(queue, n)
    ensures QueueLight(queue, n, bound) ==> |queue| <= bound
  {
    WeightBounds(queue, n);
  }

  lemma {:induction false} DropWell(f: Function, defined: seq<set<Name>>, queue: seq<Job>, bound: nat)
    requires queue != []
    ensures WellFormed(f, defined) && QueueWell(f, defined, queue) ==> QueueWell(f, defined, queue[1..])
    ensures QueueLight(queue, |f.blocks|, bound) ==> QueueLight(queue[1..], |f.blocks|, bound)
    ensures ToDo(queue[1..], |f.blocks|) < ToDo(queue, |f.blocks|)
  {
    WeightFirst(queue, |f.blocks|);
  }

  /** A job for block `c` may follow the first one. */
  ghost predicate MayFollow(f: Function, defined: seq<set<Name>>, first: Job, j: Job) {
    && Successor(f, first.block, j.block)
    && (WellFormed(f, defined) && first.block < |f.blocks| && defined[first.block] <= first.store.Keys
         && Definite(first.store) ==>
          Definite(j.store) && j.store.Keys == VarsAtEnd(f.blocks[first.block], 0, first.store.Keys))
  }

  lemma {:induction false} FollowWell(f: Function, defined: seq<set<Name>>, first: Job, j: Job)
    requires MayFollow(f, defined, first, j) && WellFormed(f, defined)
    requires first.block < |f.blocks| && defined[first.block] <= first.store.Keys && Definite(first.store)
    ensures j.block < |f.blocks| && Definite(j.store) && defined[j.block] <= j.store.Keys
  {
    JobWell(f, defined, first.block, first.store);
  }

  lemma {:induction false} StaticWell(f: Function, defined: seq<set<Name>>, queue: seq<Job>, bound: nat, j: Job)
    requires queue != [] && MayFollow(f, defined, queue[0], j)
    ensures WellFormed(f, defined) && QueueWell(f, defined, queue) ==> QueueWell(f, defined, [j] + queue[1..])
    ensures Forward(f) && QueueLight(queue, |f.blocks|, bound) ==>
              QueueLight([j] + queue[1..], |f.blocks|, bound)
                  && ToDo([j] + queue[1..], |f.blocks|) < ToDo(queue, |f.blocks|)
  {
    if WellFormed(f, defined) && QueueWell(f, defined, queue) {
      FollowWell(f, defined, queue[0], j);
    }
    if Forward(f) && QueueLight(queue, |f.blocks|, bound) {
      StaticDrops(queue, j, |f.blocks|);
    }
  }

  lemma {:induction false} DynamicWell(f: Function, defined: seq<set<Name>>, queue: seq<Job>, bound: nat, j0: Job,
      j1: Job)
    requires queue != [] && MayFollow(f, defined, queue[0], j0) && MayFollow(f, defined, queue[0], j1)
    ensures WellFormed(f, defined) && QueueWell(f, defined, queue) ==> QueueWell(f, defined, queue[1..] + [j0, j1])
    ensures Forward(f) && QueueLight(queue, |f.blocks|, bound) ==>
              && QueueLight(queue[1..] + [j0, j1], |f.blocks|, bound)
              && ToDo(queue[1..] + [j0, j1], |f.blocks|) < ToDo(queue, |f.blocks|)
  {
    if WellFormed(f, defined) && QueueWell(f, defined, queue) {
      FollowWell(f, defined, queue[0], j0);
      FollowWell(f, defined, queue[0], j1);
    }
    if Forward(f) && QueueLight(queue, |f.blocks|, bound) {
      DynamicDrops(queue, j0, j1, |f.blocks|);
    }
  }

  /** The first waiting block of a well-formed function can be translated. */
  lemma {:induction false} FirstWell(f: Function, defined: seq<set<Name>>, queue: seq<Job>)
    requires queue != []
    ensures WellFormed(f, defined) && QueueWell(f, defined, queue) ==>
              && queue[0].block < |f.blocks| && Definite(queue[0].store)
              && BlockOk(f.blocks[queue[0].block], 0, queue[0].store.Keys, {})
  {
    if WellFormed(f, defined) && QueueWell(f, defined, queue) {
      JobWell(f, defined, queue[0].block, queue[0].store);
    }
  }
}
