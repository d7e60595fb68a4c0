/** The render pipeline's stage scheduler.

    A stage names the resources it needs (`inputs`) and the ones it
    produces (`outputs`). The runner keeps a FIFO of stages ready to run, a
    list of stages still waiting for inputs, and the set of resources made
    available so far. Committing a finished stage's outputs moves every
    waiting stage whose inputs are now all available to the back of the
    ready queue. The stage's work is a function of a context, so running a
    stage is a pure context update. */
module Pipeline {
  import opened Wrappers
  import opened Seqs

  /** A stage over resources `T` and a context `C`. */
  datatype Stage<!T, !C> = Stage(name: string, inputs: seq<T>, outputs: seq<T>, func: (C, seq<T>) -> C)

  /** `execute`: the stage's function applied to the context and its inputs. */
  function Execute<T, C>(s: Stage<T, C>, ctx: C): C {
    s.func(ctx, s.inputs)
  }

  /** The stages in the order they were queued. */
  datatype Pipe<!T, !C> = Pipe(queue: seq<Stage<T, C>>)

  /** `Pipeline::new`: no stages. */
  function NewPipe<T, C>(): (p: Pipe<T, C>)
    ensures |p.queue| == 0
  {
    Pipe([])
  }

  /** `queue`: appends the stage at the end, keeping the earlier ones. */
  function Queue<T, C>(p: Pipe<T, C>, s: Stage<T, C>): (r: Pipe<T, C>)
    ensures |r.queue| == |p.queue| + 1 && r.queue[|p.queue|] == s
    ensures r.queue[..|p.queue|] == p.queue
  {
    Pipe(p.queue + [s])
  }

  /** The runner's state. */
  datatype Runner<!T, !C> = Runner(available: set<T>, ready: seq<Stage<T, C>>, wait: seq<Stage<T, C>>)

  /** The fold `true && contains(i0) && contains(i1) && ...` the runner
      evaluates for a stage: are all inputs available? */
  function AllAvailable<T(==)>(inputs: seq<T>, available: set<T>): (b: bool)
    ensures b <==> forall k :: 0 <= k < |inputs| ==> inputs[k] in available
  {
    if inputs == [] then true
    else (inputs[0] in available) && AllAvailable(inputs[1..], available)
  }

  /** A stage is satisfied by the available set. */
  predicate Satisfied<T(==), C>(s: Stage<T, C>, available: set<T>) {
    AllAvailable(s.inputs, available)
  }

  /** Stages without inputs. */
  predicate NoInputs<T, C>(s: Stage<T, C>) {
    |s.inputs| == 0
  }

  /** `Runner::new`: the ready queue holds the stages without inputs and the
      wait list the others, each in queue order; nothing is available. */
  function NewRunner<T(==), C>(p: Pipe<T, C>): (r: Runner<T, C>)
    ensures r.available == {}
    ensures forall s :: s in r.ready ==> |s.inputs| == 0
    ensures forall s :: s in r.wait ==> |s.inputs| > 0
    ensures Subsequence(r.ready, p.queue) && Subsequence(r.wait, p.queue)
    ensures multiset(r.ready) + multiset(r.wait) == multiset(p.queue)
  {
    var (ready, wait) := Partition(p.queue, NoInputs);
    Runner({}, ready, wait)
  }

  /** `pop`: the front of the ready queue, or `None` when it is empty. */
  function Pop<T, C>(r: Runner<T, C>): (o: Option<(Stage<T, C>, Runner<T, C>)>)
    ensures o.None? <==> |r.ready| == 0
    ensures o.Some? ==> [o.value.0] + o.value.1.ready == r.ready
    ensures o.Some? ==> o.value.1.wait == r.wait && o.value.1.available == r.available
  {
    if |r.ready| == 0 then None
    else Some((r.ready[0], Runner(r.available, r.ready[1..], r.wait)))
  }

  /** `commit`: the outputs join the available set, and every waiting stage
      whose inputs are now all available moves, in wait order, to the back
      of the ready queue. No stage is lost or duplicated. */
  function Commit<T(==), C>(r: Runner<T, C>, outputs: seq<T>): (r': Runner<T, C>)
    ensures r'.available == r.available + set o | o in outputs
    ensures |r'.ready| >= |r.ready| && r'.ready[..|r.ready|] == r.ready
    ensures forall k :: |r.ready| <= k < |r'.ready| ==> Satisfied(r'.ready[k], r'.available)
    ensures forall s :: s in r'.wait ==> !Satisfied(s, r'.available)
    ensures Subsequence(r'.ready[|r.ready|..], r.wait) && Subsequence(r'.wait, r.wait)
    ensures multiset(r'.ready) + multiset(r'.wait) == multiset(r.ready) + multiset(r.wait)
  {
    var available := r.available + set o | o in outputs;
    var (now, still) := Partition(r.wait, (s: Stage<T, C>) => Satisfied(s, available));
    var ready := r.ready + now;
    assert ready[|r.ready|..] == now && ready[..|r.ready|] == r.ready;
    assert forall k :: |r.ready| <= k < |ready| ==> ready[k] == now[k - |r.ready|] && ready[k] in now;
    Runner(available, ready, still)
  }

  /** When the waiting stages are `released` followed by `blocked`, and the
      outputs make available exactly `available`, which satisfies every
      released stage and no blocked one, committing moves `released` to the
      ready queue and keeps `blocked` waiting. */
  lemma CommitReleases<T, C>(r: Runner<T, C>, outputs: seq<T>, available: set<T>,
                             released: seq<Stage<T, C>>, blocked: seq<Stage<T, C>>)
    requires available == r.available + set o | o in outputs
    requires r.wait == released + blocked
    requires forall s :: s in released ==> Satisfied(s, available)
    requires forall s :: s in blocked ==> !Satisfied(s, available)
    ensures Commit(r, outputs) == Runner(available, r.ready + released, blocked)
  {
    var n := |released|;
    assert r.wait[..n] == released && r.wait[n..] == blocked;
    forall k | 0 <= k < |r.wait| ensures (k < n) == Satisfied(r.wait[k], available) {
      if k < n {
        assert r.wait[k] == released[k];
      } else {
        assert r.wait[k] == blocked[k - n];
      }
    }
    PartitionPrefix(r.wait, (s: Stage<T, C>) => Satisfied(s, available), n);
  }

  /** `is_done`: nothing is waiting. */
  predicate IsDone<T, C>(r: Runner<T, C>) {
    |r.wait| == 0
  }

  /** Every ready stage can run and every waiting stage is still blocked. */
  ghost predicate Consistent<T, C>(r: Runner<T, C>) {
    && (forall s :: s in r.ready ==> Satisfied(s, r.available))
    && (forall s :: s in r.wait ==> !Satisfied(s, r.available))
  }

  /** A stage stays satisfied when more resources become available. */
  lemma SatisfiedMonotone<T, C>(s: Stage<T, C>, a: set<T>, b: set<T>)
    requires a <= b && Satisfied(s, a)
    ensures Satisfied(s, b)
  {
  }

  /** A new runner is consistent, popping keeps it so, and committing keeps
      it so. */
  lemma ConsistentSteps<T, C>(p: Pipe<T, C>, r: Runner<T, C>, outputs: seq<T>)
    ensures Consistent(NewRunner(p))
    ensures Consistent(r) && Pop(r).Some? ==> Consistent(Pop(r).value.1)
    ensures Consistent(r) ==> Consistent(Commit(r, outputs))
  {
    var n := NewRunner(p);
    forall s | s in n.wait ensures !Satisfied(s, n.available) {
      assert s.inputs[0] !in n.available;
    }
    if Consistent(r) {
      var r' := Commit(r, outputs);
      forall s | s in r'.ready ensures Satisfied(s, r'.available) {
        var k :| 0 <= k < |r'.ready| && r'.ready[k] == s;
        if k < |r.ready| {
          assert s == r.ready[k];
          SatisfiedMonotone(s, r.available, r'.available);
        }
      }
      if Pop(r).Some? {
        forall s | s in Pop(r).value.1.ready ensures s in r.ready {
        }
      }
    }
  }

  /** What draining the runner leaves: the runner, the context, and the
      stages run in order. */
  datatype Drained<!T, !C> = Drained(runner: Runner<T, C>, ctx: C, trace: seq<Stage<T, C>>)

  /** Committing moves stages between the two lists but keeps their total. */
  lemma CommitKeepsCount<T, C>(r: Runner<T, C>, outputs: seq<T>)
    ensures |Commit(r, outputs).ready| + |Commit(r, outputs).wait| == |r.ready| + |r.wait|
  {
    var r' := Commit(r, outputs);
    assert |multiset(r'.ready) + multiset(r'.wait)| == |multiset(r.ready) + multiset(r.wait)|;
  }

  /** The test loop: while a stage is ready, pop it, run it on the context
      and commit its outputs. It stops with an empty ready queue. */
  function Drain<T(==), C>(r: Runner<T, C>, ctx: C): (d: Drained<T, C>)
    ensures |d.runner.ready| == 0
    decreases |r.ready| + |r.wait|
  {
    if |r.ready| == 0 then Drained(r, ctx, [])
    else
      var s := r.ready[0];
      CommitKeepsCount(Runner(r.available, r.ready[1..], r.wait), s.outputs);
      var d := Drain(Step(r), Execute(s, ctx));
      Drained(d.runner, d.ctx, [s] + d.trace)
  }

  /** The runner after popping its first ready stage and committing that
      stage's outputs. */
  function Step<T(==), C>(r: Runner<T, C>): (next: Runner<T, C>)
    requires |r.ready| > 0
    ensures multiset(next.ready) + multiset(next.wait) + multiset{r.ready[0]} == multiset(r.ready) + multiset(r.wait)
  {
    var rest := Runner(r.available, r.ready[1..], r.wait);
    assert r.ready == [r.ready[0]] + rest.ready;
    Commit(rest, r.ready[0].outputs)
  }

  /** One turn of the loop: the first ready stage runs, then the rest. */
  lemma DrainUnfold<T, C>(r: Runner<T, C>, ctx: C)
    requires |r.ready| > 0
    ensures Drain(r, ctx).trace == [r.ready[0]] + Drain(Step(r), Execute(r.ready[0], ctx)).trace
    ensures Drain(r, ctx).runner == Drain(Step(r), Execute(r.ready[0], ctx)).runner
  {
  }

  /** Draining loses and duplicates no stage: every stage the runner held
      was either run (once) or is still waiting. */
  lemma {:induction false} DrainKeepsStages<T, C>(r: Runner<T, C>, ctx: C)
    ensures multiset(Drain(r, ctx).trace) + multiset(Drain(r, ctx).runner.wait)
         == multiset(r.ready) + multiset(r.wait)
    decreases |r.ready| + |r.wait|
  {
    if |r.ready| > 0 {
      var s, next := r.ready[0], Step(r);
      CommitKeepsCount(Runner(r.available, r.ready[1..], r.wait), s.outputs);
      DrainKeepsStages(next, Execute(s, ctx));
      DrainUnfold(r, ctx);
      var d := Drain(next, Execute(s, ctx));
      assert multiset([s] + d.trace) == multiset{s} + multiset(d.trace);
    }
  }

  /** The stages of `trace` executed one after the other on `ctx`. */
  function RunAll<T, C>(trace: seq<Stage<T, C>>, ctx: C): C
    decreases |trace|
  {
    if |trace| == 0 then ctx else RunAll(trace[1..], Execute(trace[0], ctx))
  }

  /** The context draining leaves is each stage run, executed on the context
      in the order the trace records. */
  lemma {:induction false} DrainRunsTrace<T, C>(r: Runner<T, C>, ctx: C)
    ensures Drain(r, ctx).ctx == RunAll(Drain(r, ctx).trace, ctx)
    decreases |r.ready| + |r.wait|
  {
    if |r.ready| > 0 {
      var s, next := r.ready[0], Step(r);
      CommitKeepsCount(Runner(r.available, r.ready[1..], r.wait), s.outputs);
      DrainRunsTrace(next, Execute(s, ctx));
      DrainUnfold(r, ctx);
      var t := Drain(r, ctx).trace;
      assert t[0] == s && t[1..] == Drain(next, Execute(s, ctx)).trace;
    }
  }

  /** The run is done exactly when every stage the runner held was run. */
  lemma DoneIffAllRan<T, C>(r: Runner<T, C>, ctx: C)
    ensures IsDone(Drain(r, ctx).runner) <==> |Drain(r, ctx).trace| == |r.ready| + |r.wait|
  {
    DrainKeepsStages(r, ctx);
    var d := Drain(r, ctx);
    assert |multiset(d.trace) + multiset(d.runner.wait)| == |multiset(r.ready) + multiset(r.wait)|;
  }

  /** Draining a consistent runner leaves it consistent: every stage left
      waiting is still blocked on the resources produced. */
  lemma {:induction false} DrainConsistent<T, C>(r: Runner<T, C>, ctx: C)
    requires Consistent(r)
    ensures Consistent(Drain(r, ctx).runner)
    decreases |r.ready| + |r.wait|
  {
    if |r.ready| > 0 {
      var s, rest := r.ready[0], Runner(r.available, r.ready[1..], r.wait);
      CommitKeepsCount(rest, s.outputs);
      ConsistentSteps(Pipe([]), r, s.outputs);
      ConsistentSteps(Pipe([]), rest, s.outputs);
      DrainConsistent(Commit(rest, s.outputs), Execute(s, ctx));
    }
  }

  /** A stage with no work on the context. */
  function Noop<T>(ctx: nat, inputs: seq<T>): nat {
    ctx
  }

  /** The resources of the `pipeline` unit test, named `"a"` to `"d"` there. */
  datatype Res = ResA | ResB | ResC | ResD

  /** The diamond of the `pipeline` unit test: `a` feeds `b` and `c`, which
      feed `d`, and the last stage needs `a` and `d`. */
  function StageA(): Stage<Res, nat> { Stage("stage", [], [ResA], Noop) }
  function StageB(): Stage<Res, nat> { Stage("stage", [ResA], [ResB], Noop) }
  function StageC(): Stage<Res, nat> { Stage("stage", [ResA], [ResC], Noop) }
  function StageD(): Stage<Res, nat> { Stage("stage", [ResC, ResB], [ResD], Noop) }
  function StageE(): Stage<Res, nat> { Stage("stage", [ResA, ResD], [], Noop) }

  function Diamond(): Pipe<Res, nat> {
    Pipe([StageA(), StageB(), StageC(), StageD(), StageE()])
  }

  /** Only the source stage of the diamond starts ready. */
  lemma DiamondStart()
    ensures NewRunner(Diamond()) == Runner({}, [StageA()], [StageB(), StageC(), StageD(), StageE()])
  {
    PartitionPrefix(Diamond().queue, NoInputs, 1);
  }

  /** Producing `a` releases `b` and `c`. */
  lemma DiamondFirstStep()
    ensures Step(Runner({}, [StageA()], [StageB(), StageC(), StageD(), StageE()]))
         == Runner({ResA}, [StageB(), StageC()], [StageD(), StageE()])
  {
    DiamondAfterA();
    CommitReleases(Runner({}, [], [StageB(), StageC(), StageD(), StageE()]), [ResA], {ResA},
                   [StageB(), StageC()], [StageD(), StageE()]);
  }

  lemma DiamondAfterA()
    ensures Satisfied(StageB(), {ResA}) && Satisfied(StageC(), {ResA})
    ensures !Satisfied(StageD(), {ResA}) && !Satisfied(StageE(), {ResA})
  {
    assert StageD().inputs[0] !in {ResA};
    assert StageE().inputs[1] !in {ResA};
  }

  /** Producing `b` releases nothing: `d` still needs `c`. */
  lemma DiamondSecondStep()
    ensures Step(Runner({ResA}, [StageB(), StageC()], [StageD(), StageE()]))
         == Runner({ResA, ResB}, [StageC()], [StageD(), StageE()])
  {
    DiamondAfterB();
    CommitReleases(Runner({ResA}, [StageC()], [StageD(), StageE()]), [ResB], {ResA, ResB},
                   [], [StageD(), StageE()]);
  }

  lemma DiamondAfterB()
    ensures !Satisfied(StageD(), {ResA, ResB}) && !Satisfied(StageE(), {ResA, ResB})
  {
    assert StageD().inputs[0] !in {ResA, ResB};
    assert StageE().inputs[1] !in {ResA, ResB};
  }

  /** Producing `c` releases `d`. */
  lemma DiamondThirdStep()
    ensures Step(Runner({ResA, ResB}, [StageC()], [StageD(), StageE()]))
         == Runner({ResA, ResB, ResC}, [StageD()], [StageE()])
  {
    DiamondAfterC();
    CommitReleases(Runner({ResA, ResB}, [], [StageD(), StageE()]), [ResC], {ResA, ResB, ResC},
                   [StageD()], [StageE()]);
  }

  lemma DiamondAfterC()
    ensures Satisfied(StageD(), {ResA, ResB, ResC}) && !Satisfied(StageE(), {ResA, ResB, ResC})
  {
    assert StageE().inputs[1] !in {ResA, ResB, ResC};
  }

  /** Producing `d` releases the last stage. */
  lemma DiamondFourthStep()
    ensures Step(Runner({ResA, ResB, ResC}, [StageD()], [StageE()]))
         == Runner({ResA, ResB, ResC, ResD}, [StageE()], [])
  {
    CommitReleases(Runner({ResA, ResB, ResC}, [], [StageE()]), [ResD], {ResA, ResB, ResC, ResD},
                   [StageE()], []);
  }

  /** The diamond drains completely. */
  lemma DiamondDrains()
    ensures IsDone(Drain(NewRunner(Diamond()), 0).runner)
  {
    DiamondStart();
    DiamondFirstStep();
    DiamondSecondStep();
    DiamondThirdStep();
    DiamondFourthStep();
  }

  /** The stages of the `mutable_state` unit test: set the state to 1, then
      increment it twice, each stage waiting for the previous one. */
  function SetOne(ctx: nat, inputs: seq<nat>): nat { 1 }
  function Increment(ctx: nat, inputs: seq<nat>): nat { ctx + 1 }

  function SetStage(): Stage<nat, nat> { Stage("stage", [], [1], SetOne) }
  function SecondStage(): Stage<nat, nat> { Stage("stage", [1], [2], Increment) }
  function ThirdStage(): Stage<nat, nat> { Stage("stage", [2], [3], Increment) }

  function Chain(): Pipe<nat, nat> {
    Pipe([SetStage(), SecondStage(), ThirdStage()])
  }

  /** Only the first stage of the chain starts ready. */
  lemma ChainStart()
    ensures NewRunner(Chain()) == Runner({}, [SetStage()], [SecondStage(), ThirdStage()])
  {
  }

  /** Each committed output releases the next stage of the chain. */
  lemma ChainFirstStep()
    ensures Step(Runner({}, [SetStage()], [SecondStage(), ThirdStage()])) == Runner({1}, [SecondStage()], [ThirdStage()])
  {
    ThirdBlocked();
    CommitReleases(Runner({}, [], [SecondStage(), ThirdStage()]), [1], {1}, [SecondStage()], [ThirdStage()]);
  }

  /** The third stage is still blocked once only resource 1 exists. */
  lemma ThirdBlocked()
    ensures !Satisfied(ThirdStage(), {1})
  {
    assert ThirdStage().inputs[0] !in {1};
  }

  lemma ChainSecondStep()
    ensures Step(Runner({1}, [SecondStage()], [ThirdStage()])) == Runner({1, 2}, [ThirdStage()], [])
  {
  }

  lemma ChainThirdStep()
    ensures Step(Runner({1, 2}, [ThirdStage()], [])) == Runner({1, 2, 3}, [], [])
  {
  }

  /** The chain drains completely and leaves the state at 3. */
  lemma ChainCounts()
    ensures IsDone(Drain(NewRunner(Chain()), 0).runner)
    ensures Drain(NewRunner(Chain()), 0).ctx == 3
  {
    ChainStart();
    ChainFirstStep();
    ChainSecondStep();
    ChainThirdStep();
  }
}
