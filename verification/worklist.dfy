/** The invariant of the translator's block queue. */
module Worklist {
  import opened Wrappers
  import opened Rudder
  import opened Specialisation
  import opened Certificate
  import opened TranslatorState

  /** A block waiting to be translated. */
  datatype Job = Job(isDynamic: bool, block: nat, x86: nat, store: VariableStore)

  ghost predicate Waiting(queue: seq<Job>, e: nat) {
    exists i :: 0 <= i < |queue| && queue[i].x86 == e
  }

  ghost predicate JobOk(j: Job, v: View) {
    && j.x86 in v.keys && j.x86 < |v.blocks| && v.keys[j.x86] == Key(j.block, j.store)
    && (!j.isDynamic ==>
          v.blocks[j.x86] == [] && forall key :: key in v.dynamicBlocks ==> v.dynamicBlocks[key] != j.x86)
  }

  /** Jobs are for blocks with keys, and a static job is the only one for its block. */
  ghost predicate JobsOk(queue: seq<Job>, v: View) {
    && (forall i :: 0 <= i < |queue| ==> JobOk(queue[i], v))
    && (forall i, j :: 0 <= i < |queue| && 0 <= j < |queue| && i != j && !queue[i].isDynamic ==>
          queue[j].x86 != queue[i].x86)
  }

  /** Besides, every block still empty is waiting. */
  ghost predicate QueueOk(queue: seq<Job>, v: View) {
    && JobsOk(queue, v)
    && (forall e :: e in v.keys && e < |v.blocks| && v.blocks[e] == [] ==> Waiting(queue, e))
  }

  lemma {:induction false} SkipJob(queue: seq<Job>, v: View)
    requires queue != [] && QueueOk(queue, v) && v.blocks[queue[0].x86] != []
    ensures QueueOk(queue[1..], v)
  {
    forall e | e in v.keys && e < |v.blocks| && v.blocks[e] == [] ensures Waiting(queue[1..], e) {
      var i :| 0 <= i < |queue| && queue[i].x86 == e;
      assert queue[1..][i - 1].x86 == e;
    }
  }

  /** What is left of the queue after its first job is done. */
  lemma {:induction false} RestOfQueue(queue: seq<Job>, v: View, v': View, flow: Flow)
    requires queue != [] && QueueOk(queue, v) && v.blocks[queue[0].x86] == []
    requires Leaves(v, v', queue[0].x86, flow)
    ensures JobsOk(queue[1..], v') && forall j <- queue[1..] :: j.x86 in v.keys
    ensures forall e :: e in v.keys && e < |v'.blocks| && v'.blocks[e] == [] ==> Waiting(queue[1..], e)
  {
    forall i | 0 < i < |queue| ensures JobOk(queue[i], v') && queue[i].x86 in v.keys {
      assert JobOk(queue[i], v) && JobOk(queue[0], v);
    }
    forall e | e in v.keys && e < |v'.blocks| && v'.blocks[e] == [] ensures Waiting(queue[1..], e) {
      assert Waiting(queue, e);
      var i :| 0 <= i < |queue| && queue[i].x86 == e;
      assert queue[1..][i - 1].x86 == e;
    }
  }

  lemma {:induction false} FinishJob(queue: seq<Job>, v: View, v': View)
    requires queue != [] && QueueOk(queue, v) && v.blocks[queue[0].x86] == []
    requires Leaves(v, v', queue[0].x86, Finished)
    ensures QueueOk(queue[1..], v')
  {
    RestOfQueue(queue, v, v', Finished);
  }

  lemma {:induction false} StaticJob(queue: seq<Job>, v: View, v': View, b: nat, x86: nat, store: VariableStore)
    requires queue != [] && QueueOk(queue, v) && v.blocks[queue[0].x86] == []
    requires Leaves(v, v', queue[0].x86, Static(b, x86, store))
    requires forall key :: key in v'.dynamicBlocks ==> v'.dynamicBlocks[key] in v'.keys
    requires forall key :: key in v.dynamicBlocks ==> v.dynamicBlocks[key] in v.keys
    ensures QueueOk([Job(false, b, x86, store)] + queue[1..], v')
  {
    RestOfQueue(queue, v, v', Static(b, x86, store));
    var rest, j := queue[1..], Job(false, b, x86, store);
    assert JobOk(j, v');
    hide JobsOk, JobOk;
    AddStatic(j, rest, v');
    forall e | e in v'.keys && e < |v'.blocks| && v'.blocks[e] == []
      ensures Waiting([j] + rest, e)
    {
      StillWaiting([j], rest, e);
      assert e !in v.keys ==> [j][0].x86 == e;
    }
  }

  lemma {:induction false} AddStatic(j: Job, rest: seq<Job>, v: View)
    requires JobsOk(rest, v) && JobOk(j, v) && forall k <- rest :: k.x86 != j.x86
    ensures JobsOk([j] + rest, v)
  {
    hide JobOk;
  }

  lemma {:induction false} AddDynamic(rest: seq<Job>, j: Job, v: View, key: Key)
    requires JobsOk(rest, v) && JobOk(j, v) && j.isDynamic && key in v.dynamicBlocks && v.dynamicBlocks[key] == j.x86
    ensures JobsOk(rest + [j], v)
  {}

  lemma {:induction false} StillWaiting(a: seq<Job>, b: seq<Job>, e: nat)
    ensures Waiting(a + b, e) <==> Waiting(a, e) || Waiting(b, e)
  {
    if Waiting(a, e) {
      var i :| 0 <= i < |a| && a[i].x86 == e;
      assert (a + b)[i].x86 == e;
    }
    if Waiting(b, e) {
      var i :| 0 <= i < |b| && b[i].x86 == e;
      assert (a + b)[|a| + i].x86 == e;
    }
  }

  lemma {:induction false} DynamicJobs(queue: seq<Job>, v: View, v': View, b0: nat, b1: nat, store: VariableStore)
    requires queue != [] && QueueOk(queue, v) && v.blocks[queue[0].x86] == []
    requires Leaves(v, v', queue[0].x86, Dynamic(b0, b1, store))
    requires forall key :: key in v'.dynamicBlocks ==>
               v'.dynamicBlocks[key] in v'.keys && v'.keys[v'.dynamicBlocks[key]] == key
    requires forall e :: e in v'.keys ==> e < |v'.blocks|
    ensures QueueOk(queue[1..] + [Job(true, b0, v'.dynamicBlocks[Key(b0, store)], store),
                                  Job(true, b1, v'.dynamicBlocks[Key(b1, store)], store)], v')
  {
    RestOfQueue(queue, v, v', Dynamic(b0, b1, store));
    var rest := queue[1..];
    var j0 := Job(true, b0, v'.dynamicBlocks[Key(b0, store)], store);
    var j1 := Job(true, b1, v'.dynamicBlocks[Key(b1, store)], store);
    assert JobOk(j0, v') && JobOk(j1, v');
    hide JobsOk, JobOk;
    AddDynamic(rest, j0, v', Key(b0, store));
    AddDynamic(rest + [j0], j1, v', Key(b1, store));
    assert rest + [j0] + [j1] == rest + [j0, j1];
    forall e | e in v'.keys && e < |v'.blocks| && v'.blocks[e] == []
      ensures Waiting(rest + [j0, j1], e)
    {
      StillWaiting(rest, [j0, j1], e);
      assert e !in v.keys ==> [j0, j1][0].x86 == e || [j0, j1][1].x86 == e;
    }
  }

  /** When nothing waits, every emitted block is correct. */
  lemma {:induction false} EmptyQueueCertified(meaning: Meaning, f: Function, v: View, exit: nat)
    requires Consistent(meaning, f, v, exit, exit) && QueueOk([], v)
    ensures Certified(meaning, f, v.blocks, v.keys, exit, v.results)
  {
    forall e | e in v.keys
      ensures BlockCorrect(meaning, f, v.blocks[e], v.keys[e], v.keys, exit, Some(v.results))
    {
      assert !Waiting([], e);
      assert Done(meaning, f, v, exit, e);
      if !Exits(v.blocks[e], exit) {
        NeverReturnsAnyResults(meaning, f, v.blocks[e], v.keys[e], v.keys, exit, v.results);
      }
    }
  }
}
