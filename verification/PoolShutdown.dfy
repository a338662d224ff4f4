/** How runs of the writer pool end: what is left in the channel, what was never written, and
    that every orderly run can be brought to its end. */
module PoolShutdown {
  import opened Sequences
  import opened WriterPool

  /** Every worker was launched and has left. */
  ghost predicate AllGone(c: Config, p: Pool) {
    |p.workers| == c.workerNum && forall w | 0 <= w < |p.workers| :: p.workers[w].Exited?
  }

  lemma AllGoneCounts(c: Config, p: Pool)
    ensures AllGone(c, p) <==> |p.workers| == c.workerNum && LiveCount(p.workers) == 0
  {
    LiveCountZero(p.workers);
  }

  // ---------- Tasks that come too late ----------

  function Produced(actions: seq<Action>): seq<nat> {
    if actions == [] then []
    else (if actions[0].Produce? then [actions[0].task] else []) + Produced(actions[1..])
  }

  lemma StepAfterAllGone(c: Config, p: Pool, a: Action)
    requires AllGone(c, p) && Enabled(c, p, a)
    ensures var q := Apply(c, p, a);
            && q.workers == p.workers && q.executed == p.executed
            && q.channel == p.channel + (if a.Produce? then [a.task] else [])
            && q.accepted == p.accepted + (if a.Produce? then [a.task] else [])
  {}

  /** Once all workers are gone nothing is received or executed any more: on every run, with
      or without a cancel or a close, the channel grows by exactly the tasks produced. */
  lemma {:induction false} NothingReceivedAfterLastExit(c: Config, p: Pool, actions: seq<Action>, q: Pool)
    requires AllGone(c, p) && Runs(c, p, actions, q)
    ensures q.workers == p.workers && q.executed == p.executed
    ensures q.channel == p.channel + Produced(actions)
    ensures q.accepted == p.accepted + Produced(actions)
    decreases |actions|
  {
    if actions == [] {
    } else {
      var first := if actions[0].Produce? then [actions[0].task] else [];
      StepAfterAllGone(c, p, actions[0]);
      NothingReceivedAfterLastExit(c, Apply(c, p, actions[0]), actions[1..], q);
      Regroup(p.channel, first, Produced(actions[1..]));
      Regroup(p.accepted, first, Produced(actions[1..]));
    }
  }

  /** Tasks produced when all workers were gone already. */
  ghost function LateTasks(c: Config, p: Pool, actions: seq<Action>, q: Pool): seq<nat>
    requires Runs(c, p, actions, q)
    decreases |actions|
  {
    if actions == [] then []
    else (if AllGone(c, p) && actions[0].Produce? then [actions[0].task] else []) +
         LateTasks(c, Apply(c, p, actions[0]), actions[1..], q)
  }

  lemma {:induction false} AllLateAfterLastExit(c: Config, p: Pool, actions: seq<Action>, q: Pool)
    requires AllGone(c, p) && Runs(c, p, actions, q)
    ensures LateTasks(c, p, actions, q) == Produced(actions)
    decreases |actions|
  {
    if actions == [] {
    } else {
      StepAfterAllGone(c, p, actions[0]);
      AllLateAfterLastExit(c, Apply(c, p, actions[0]), actions[1..], q);
    }
  }

  ghost predicate CancelFree(actions: seq<Action>) {
    forall k | 0 <= k < |actions| :: !actions[k].Cancel?
  }

  /** Without a cancel the last worker leaves an empty channel. */
  lemma LastExitLeavesEmpty(c: Config, p: Pool, a: Action)
    requires !p.cancelled && !AllGone(c, p) && Enabled(c, p, a)
    ensures AllGone(c, Apply(c, p, a)) ==> Apply(c, p, a).channel == []
  {
    var q := Apply(c, p, a);
    if a.Launch? {
      assert q.workers[|p.workers|] == AtTest([]);
    } else if a.Receive? || a.Execute? {
      assert !q.workers[a.w].Exited?;
    } else if a.Test? || a.Tick? {
      assert Finished(p) || !q.workers[a.w].Exited?;
    }
  }

  /** So a run without a cancel that ends with all workers gone leaves in the channel exactly
      the tasks produced after the last exit. */
  lemma {:induction false} ChannelHoldsLateTasks(c: Config, p: Pool, actions: seq<Action>, q: Pool)
    requires !p.cancelled && CancelFree(actions) && Runs(c, p, actions, q) && AllGone(c, q)
    ensures q.channel == (if AllGone(c, p) then p.channel else []) + LateTasks(c, p, actions, q)
    decreases |actions|
  {
    if AllGone(c, p) {
      NothingReceivedAfterLastExit(c, p, actions, q);
      AllLateAfterLastExit(c, p, actions, q);
    } else {
      assert !actions[0].Cancel?;
      var next := Apply(c, p, actions[0]);
      ChannelHoldsLateTasks(c, next, actions[1..], q);
      if AllGone(c, next) {
        LastExitLeavesEmpty(c, p, actions[0]);
      }
    }
  }

  // ---------- What is never written ----------

  lemma {:induction false} FlattenSize(batches: seq<seq<nat>>, size: nat)
    requires forall b | 0 <= b < |batches| :: |batches[b]| == size
    ensures |Flatten(batches)| == |batches| * size
  {
    if batches == [] {
    } else {
      var n := |batches| - 1;
      FlattenSize(batches[..n], size);
      OneMore(n, size);
    }
  }

  /** Tasks accepted and never handed to the database. */
  function Lost(p: Pool): int {
    |p.accepted| - |Flatten(p.executed)|
  }

  lemma LostIsPending(c: Config, p: Pool)
    requires Inv(c, p)
    ensures Lost(p) == |Pending(p.workers)| + |p.channel|
  {
    assert |p.accepted| == |multiset(p.accepted)| && |Flatten(p.executed)| == |multiset(Flatten(p.executed))|;
  }

  lemma PendingOfGone(c: Config, p: Pool)
    requires Inv(c, p) && AllGone(c, p)
    ensures |Pending(p.workers)| <= c.workerNum * (c.BatchSize() - 1)
  {
    PendingSize(p.workers, c.BatchSize() - 1);
  }

  lemma SameRemainder(whole: nat, batches: nat, size: nat)
    requires size > 0 && batches * size <= whole
    ensures (whole - batches * size) % size == whole % size
  {
    var rest := whole - batches * size;
    var d := rest / size;
    assert (batches + d) * size == batches * size + d * size;
    SameQuotient(whole / size, whole % size, batches + d, rest % size, size);
  }

  lemma SmallRemainder(n: nat, size: nat)
    requires size > 0
    ensures n % size <= n
    ensures n < size ==> n % size == n
  {
    if n < size {
      SameQuotient(0, n, n / size, n % size, size);
    }
  }

  lemma SameQuotient(q: nat, r: nat, q': nat, r': nat, size: nat)
    requires r < size && r' < size && q * size + r == q' * size + r'
    ensures r == r'
  {
    if q > q' {
      OneSizeMore(q, q', size);
    } else if q < q' {
      OneSizeMore(q', q, size);
    }
  }

  lemma OneSizeMore(q: nat, q': nat, size: nat)
    requires q > q'
    ensures q * size >= q' * size + size
  {
    assert q * size == (q' + 1) * size + (q - q' - 1) * size;
    OneMore(q', size);
  }

  /** What a run without a cancel never writes: the late tasks, and less than a full batch for
      every worker. Only full batches are written, so at least the remainder of the accepted
      tasks is lost, and a single worker without late tasks loses exactly that. */
  lemma ShutdownLoss(c: Config, actions: seq<Action>, p: Pool)
    requires CancelFree(actions) && Runs(c, INITIAL, actions, p) && AllGone(c, p)
    ensures p.channel == LateTasks(c, INITIAL, actions, p)
    ensures |p.channel| <= Lost(p) <= |p.channel| + c.workerNum * (c.BatchSize() - 1)
    ensures Lost(p) >= |p.accepted| % c.BatchSize() == Lost(p) % c.BatchSize()
    ensures c.workerNum == 1 && p.channel == [] ==> Lost(p) == |p.accepted| % c.BatchSize()
  {
    ChannelHoldsLateTasks(c, INITIAL, actions, p);
    RunKeepsInv(c, INITIAL, actions, p);
    LostIsPending(c, p);
    PendingOfGone(c, p);
    FlattenSize(p.executed, c.BatchSize());
    SameRemainder(|p.accepted|, |p.executed|, c.BatchSize());
    SmallRemainder(Lost(p), c.BatchSize());
  }

  lemma {:induction false} OrderlyHasNoLateTasks(c: Config, p: Pool, actions: seq<Action>, q: Pool)
    requires c.workerNum > 0 && LeavesEmpty(p) && OrderlyRuns(c, p, actions, q)
    ensures CancelFree(actions) && Runs(c, p, actions, q) && LateTasks(c, p, actions, q) == []
    decreases |actions|
  {
    if actions == [] {
    } else {
      StepLeavesEmpty(c, p, actions[0]);
      OrderlyHasNoLateTasks(c, Apply(c, p, actions[0]), actions[1..], q);
      forall k | 0 < k < |actions| ensures !actions[k].Cancel? {
        assert actions[1..][k - 1] == actions[k];
      }
      assert AllGone(c, p) ==> p.workers[0].Exited?;
    }
  }

  /** So after an orderly run of a single worker the tasks lost are the remainder of the
      accepted tasks by the batch size. */
  lemma OneWorkerLosesRemainder(c: Config, actions: seq<Action>, p: Pool)
    requires c.workerNum == 1 && OrderlyRuns(c, INITIAL, actions, p) && AllGone(c, p)
    ensures Lost(p) == |p.accepted| % c.BatchSize()
  {
    OrderlyHasNoLateTasks(c, INITIAL, actions, p);
    ShutdownLoss(c, actions, p);
  }

  // ---------- A task is stranded ----------

  lemma {:induction false} ComposeRuns(c: Config, p: Pool, a: seq<Action>, q: Pool, b: seq<Action>, r: Pool)
    requires Runs(c, p, a, q) && Runs(c, q, b, r)
    ensures Runs(c, p, a + b, r)
    decreases |a|
  {
    if a == [] {
      assert a + b == b;
    } else {
      assert (a + b)[0] == a[0] && (a + b)[1..] == a[1..] + b;
      ComposeRuns(c, Apply(c, p, a[0]), a[1..], q, b, r);
    }
  }

  lemma {:induction false} LaunchAll(c: Config, n: nat) returns (actions: seq<Action>, p: Pool)
    requires n <= c.workerNum
    ensures OrderlyRuns(c, INITIAL, actions, p)
    ensures |p.workers| == n && forall w | 0 <= w < n :: p.workers[w] == AtTest([])
    ensures p == INITIAL.(workers := p.workers, waiting := p.waiting)
  {
    if n == 0 {
      actions, p := [], INITIAL;
    } else {
      var before, launched := LaunchAll(c, n - 1);
      p := Apply(c, launched, Launch);
      assert OrderlyRuns(c, launched, [Launch], p);
      Compose(c, INITIAL, before, launched, [Launch], p);
      actions := before + [Launch];
    }
  }

  /** For any number of workers there is a run in which all of them leave after DoneTasks. */
  lemma EveryoneLeaves(c: Config) returns (actions: seq<Action>, p: Pool)
    ensures Runs(c, INITIAL, actions, p) && AllGone(c, p) && p.waiting == 0
    ensures p.channel == [] && p.accepted == [] && p.executed == []
  {
    var launch, launched := LaunchAll(c, c.workerNum);
    var done := Apply(c, launched, DoneTasks);
    assert OrderlyRuns(c, launched, [DoneTasks], done);
    Compose(c, INITIAL, launch, launched, [DoneTasks], done);
    var leave;
    leave, p := AllWorkersLeave(c, done, 0);
    Compose(c, INITIAL, launch + [DoneTasks], done, leave, p);
    actions := launch + [DoneTasks] + leave;
    OrderlyIsRun(c, INITIAL, actions, p);
    RunKeepsInv(c, INITIAL, actions, p);
    LiveCountZero(p.workers);
  }

  /** A task accepted between the last exit and the close is never written, for any number of
      workers: the pool is closed with the task in its channel. */
  lemma LateTaskIsStranded(c: Config, task: nat) returns (actions: seq<Action>, p: Pool)
    requires c.capacity > 0
    ensures Runs(c, INITIAL, actions, p)
    ensures p.closed && p.channel == [task] == p.accepted && p.executed == []
  {
    var leave, gone := EveryoneLeaves(c);
    var late := Apply(c, gone, Produce(task));
    p := Apply(c, late, ClosePool);
    var last := [Produce(task), ClosePool];
    assert last[1..] == [ClosePool] && Runs(c, late, [ClosePool], p);
    assert Runs(c, gone, last, p);
    ComposeRuns(c, INITIAL, leave, gone, last, p);
    actions := leave + last;
  }

  // ---------- Every orderly run can end ----------

  lemma {:induction false} OrderlyKeepsInv(c: Config, p: Pool, actions: seq<Action>, q: Pool)
    requires Inv(c, p) && p.endProcess >= 1 && OrderlyRuns(c, p, actions, q)
    ensures Inv(c, q) && q.endProcess >= 1
    decreases |actions|
  {
    if actions == [] {
    } else {
      StepKeepsInv(c, p, actions[0]);
      OrderlyKeepsInv(c, Apply(c, p, actions[0]), actions[1..], q);
    }
  }

  /** Some orderly steps from here lower the measure, unless all workers are gone. */
  lemma Progresses(c: Config, p: Pool) returns (steps: seq<Action>, q: Pool)
    requires Inv(c, p) && p.endProcess >= 1 && !AllGone(c, p)
    ensures OrderlyRuns(c, p, steps, q) && Measure(c, q) < Measure(c, p)
  {
    if |p.workers| < c.workerNum {
      MeasureDecreases(c, p, Launch);
      steps, q := [Launch], Apply(c, p, Launch);
      assert steps[1..] == [];
    } else {
      var w: nat :| w < |p.workers| && p.workers[w].Live();
      steps, q := LiveWorkerProgresses(c, p, w);
    }
  }

  /** After DoneTasks every state can be brought to its end without a cancel: some orderly run
      launches the remaining workers, drains the channel and lets all workers leave. */
  lemma {:induction false} ShutdownIsAlwaysPossible(c: Config, p: Pool) returns (actions: seq<Action>, q: Pool)
    requires Inv(c, p) && p.endProcess >= 1
    ensures OrderlyRuns(c, p, actions, q) && AllGone(c, q)
    decreases Measure(c, p)
  {
    if AllGone(c, p) {
      actions, q := [], p;
    } else {
      var steps, next := Progresses(c, p);
      OrderlyKeepsInv(c, p, steps, next);
      var rest;
      rest, q := ShutdownIsAlwaysPossible(c, next);
      Compose(c, p, steps, next, rest, q);
      actions := steps + rest;
    }
  }

  /** So the end of `OrderlyShutdown` can be reached from every state of an orderly run in which
      DoneTasks was called. */
  lemma OrderlyRunCanFinish(c: Config, actions: seq<Action>, p: Pool) returns (more: seq<Action>, q: Pool)
    requires c.workerNum > 0 && OrderlyRuns(c, INITIAL, actions, p) && p.endProcess >= 1
    ensures OrderlyRuns(c, INITIAL, actions + more, q) && AllGone(c, q)
    ensures q.channel == [] && Lost(q) <= c.workerNum * (c.BatchSize() - 1)
  {
    OrderlyIsRun(c, INITIAL, actions, p);
    RunKeepsInv(c, INITIAL, actions, p);
    more, q := ShutdownIsAlwaysPossible(c, p);
    Compose(c, INITIAL, actions, p, more, q);
    AllGoneCounts(c, q);
    OrderlyShutdown(c, actions + more, q);
  }
}
