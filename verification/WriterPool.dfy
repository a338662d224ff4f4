/** The pool of database writers: producers, a bounded channel, workers that each fill a
    batch of their own, a finish counter, a context cancel, the wait group and the pool close,
    as a transition system over all interleavings. */
module WriterPool {
  import opened Sequences

  /** Where a worker stands: about to test the finish condition, waiting in the select, about
      to execute a full batch, or gone. A worker that leaves keeps the batch it did not flush. */
  datatype Worker =
    | AtTest(batch: seq<nat>)
    | AtSelect(batch: seq<nat>)
    | Executing(batch: seq<nat>)
    | Exited(batch: seq<nat>)
  {
    predicate Live() { !Exited? }
  }

  datatype Config = Config(workerNum: nat, maxBatchQueue: nat, capacity: nat)
  {
    /** Tasks in a batch when it is executed; the test comes after queueing a task. */
    function BatchSize(): nat { if maxBatchQueue == 0 then 1 else maxBatchQueue }
  }

  /** `accepted` and `executed` are the histories of the tasks taken by the channel and of the
      batches handed to the database. Tasks are numbered. */
  datatype Pool = Pool(workers: seq<Worker>, channel: seq<nat>, endProcess: nat, cancelled: bool,
                       waiting: nat, closed: bool, accepted: seq<nat>, executed: seq<seq<nat>>)

  const INITIAL: Pool := Pool([], [], 0, false, 0, false, [], [])

  datatype Action =
    | Produce(task: nat)
    | DoneTasks
    | Cancel
    | Launch
    | Test(w: nat)
    | Receive(w: nat)
    | Execute(w: nat)
    | SeeCancel(w: nat)
    | Tick(w: nat)
    | ClosePool

  predicate Finished(p: Pool) {
    p.endProcess >= 1 && p.channel == []
  }

  predicate Enabled(c: Config, p: Pool, a: Action) {
    match a
    case Produce(_) => |p.channel| < c.capacity
    case DoneTasks => true
    case Cancel => true
    case Launch => |p.workers| < c.workerNum
    case Test(w) => w < |p.workers| && p.workers[w].AtTest?
    case Receive(w) => w < |p.workers| && p.workers[w].AtSelect? && p.channel != []
    case Execute(w) => w < |p.workers| && p.workers[w].Executing?
    case SeeCancel(w) => w < |p.workers| && p.workers[w].AtSelect? && p.cancelled
    case Tick(w) => w < |p.workers| && p.workers[w].AtSelect?
    case ClosePool => |p.workers| == c.workerNum && p.waiting == 0
  }

  function Leave(p: Pool, w: nat): Pool
    requires w < |p.workers|
  {
    p.(workers := p.workers[w := Exited(p.workers[w].batch)], waiting := if p.waiting > 0 then p.waiting - 1 else 0)
  }

  function Apply(c: Config, p: Pool, a: Action): Pool
    requires Enabled(c, p, a)
  {
    match a
    case Produce(task) => p.(channel := p.channel + [task], accepted := p.accepted + [task])
    case DoneTasks => p.(endProcess := p.endProcess + 1)
    case Cancel => p.(cancelled := true)
    case Launch => p.(workers := p.workers + [AtTest([])], waiting := p.waiting + 1)
    case Test(w) =>
      if Finished(p) then Leave(p, w) else p.(workers := p.workers[w := AtSelect(p.workers[w].batch)])
    case Receive(w) =>
      var batch := p.workers[w].batch + [p.channel[0]];
      p.(channel := p.channel[1..],
         workers := p.workers[w := if |batch| >= c.maxBatchQueue then Executing(batch) else AtTest(batch)])
    case Execute(w) =>
      p.(executed := p.executed + [p.workers[w].batch], workers := p.workers[w := AtTest([])])
    case SeeCancel(w) => Leave(p, w)
    case Tick(w) =>
      if Finished(p) then Leave(p, w) else p.(workers := p.workers[w := AtTest(p.workers[w].batch)])
    case ClosePool => p.(closed := true)
  }

  /** The pool after a sequence of actions, each enabled when it happens. */
  ghost predicate Runs(c: Config, p: Pool, actions: seq<Action>, q: Pool)
    decreases |actions|
  {
    if actions == [] then p == q
    else Enabled(c, p, actions[0]) && Runs(c, Apply(c, p, actions[0]), actions[1..], q)
  }

  ghost predicate Reachable(c: Config, p: Pool) {
    exists actions :: Runs(c, INITIAL, actions, p)
  }

  // ---------- Where the tasks are ----------

  function Pending(workers: seq<Worker>): multiset<nat> {
    if workers == [] then multiset{}
    else Pending(workers[..|workers| - 1]) + multiset(workers[|workers| - 1].batch)
  }

  lemma {:induction false} PendingUpdate(workers: seq<Worker>, w: nat, new_: Worker)
    requires w < |workers|
    ensures Pending(workers[w := new_]) + multiset(workers[w].batch) == Pending(workers) + multiset(new_.batch)
  {
    var n := |workers| - 1;
    var updated := workers[w := new_];
    if w == n {
      assert updated[..n] == workers[..n];
    } else {
      assert updated[..n] == workers[..n][w := new_];
      PendingUpdate(workers[..n], w, new_);
      AddTerm(Pending(updated[..n]), Pending(workers[..n]),
              multiset(workers[w].batch), multiset(new_.batch), multiset(workers[n].batch));
    }
  }

  lemma AddTerm(a: multiset<nat>, b: multiset<nat>, x: multiset<nat>, y: multiset<nat>, last: multiset<nat>)
    requires a + x == b + y
    ensures a + last + x == b + last + y
  {
    assert a + last + x == a + x + last;
    assert b + last + y == b + y + last;
  }

  lemma PendingKept(workers: seq<Worker>, w: nat, new_: Worker)
    requires w < |workers| && new_.batch == workers[w].batch
    ensures Pending(workers[w := new_]) == Pending(workers)
  {
    PendingUpdate(workers, w, new_);
    CancelTerm(Pending(workers[w := new_]), Pending(workers), multiset(new_.batch));
  }

  lemma CancelTerm(a: multiset<nat>, b: multiset<nat>, x: multiset<nat>)
    requires a + x == b + x
    ensures a == b
  {
    assert a == a + x - x;
    assert b == b + x - x;
  }

  /** Every accepted task is in exactly one place: handed to the database, in the batch of a
      worker (also of one that has left), or still in the channel. */
  ghost predicate Conserved(p: Pool) {
    multiset(p.accepted) == multiset(Flatten(p.executed)) + Pending(p.workers) + multiset(p.channel)
  }

  // ---------- Shape ----------

  /** A batch is full exactly while it is being executed, and only full ones are executed. */
  ghost predicate Batched(c: Config, p: Pool) {
    && (forall w | 0 <= w < |p.workers| ::
          if p.workers[w].Executing? then |p.workers[w].batch| == c.BatchSize()
          else |p.workers[w].batch| < c.BatchSize())
    && (forall b | 0 <= b < |p.executed| :: |p.executed[b]| == c.BatchSize())
    && |p.channel| <= c.capacity
  }

  function LiveCount(workers: seq<Worker>): nat {
    if workers == [] then 0
    else LiveCount(workers[..|workers| - 1]) + if workers[|workers| - 1].Live() then 1 else 0
  }

  lemma {:induction false} LiveCountUpdate(workers: seq<Worker>, w: nat, new_: Worker)
    requires w < |workers|
    ensures LiveCount(workers[w := new_]) ==
            LiveCount(workers) - (if workers[w].Live() then 1 else 0) + (if new_.Live() then 1 else 0)
  {
    var n := |workers| - 1;
    if w == n {
      assert workers[w := new_][..n] == workers[..n];
    } else {
      assert workers[w := new_][..n] == workers[..n][w := new_];
      LiveCountUpdate(workers[..n], w, new_);
    }
  }

  lemma {:induction false} LiveCountZero(workers: seq<Worker>)
    ensures LiveCount(workers) == 0 <==> forall w | 0 <= w < |workers| :: workers[w].Exited?
    ensures LiveCount(workers) <= |workers|
  {
    if workers == [] {
    } else {
      LiveCountZero(workers[..|workers| - 1]);
    }
  }

  /** The wait group counts the live workers, and the pool is closed only when every worker
      was launched and has left. */
  ghost predicate Counted(c: Config, p: Pool) {
    && |p.workers| <= c.workerNum
    && p.waiting == LiveCount(p.workers)
    && (p.closed ==> |p.workers| == c.workerNum && p.waiting == 0)
  }

  ghost predicate Inv(c: Config, p: Pool) {
    Conserved(p) && Batched(c, p) && Counted(c, p)
  }

  /** Moving one task of the channel into a batch. */
  lemma ReceiveConserves(c: Config, p: Pool, w: nat)
    requires Conserved(p) && Enabled(c, p, Receive(w))
    ensures Conserved(Apply(c, p, Receive(w)))
  {
    var q := Apply(c, p, Receive(w));
    var task, held := p.channel[0], multiset(p.workers[w].batch);
    PendingUpdate(p.workers, w, q.workers[w]);
    assert multiset(q.workers[w].batch) == held + multiset{task};
    MovedTask(multiset(Flatten(p.executed)), Pending(p.workers), Pending(q.workers), held, multiset(q.channel), task);
    assert p.channel == [task] + q.channel;
    assert multiset(p.channel) == multiset{task} + multiset(q.channel);
  }

  lemma MovedTask(done: multiset<nat>, before: multiset<nat>, after: multiset<nat>, held: multiset<nat>,
                  rest: multiset<nat>, task: nat)
    requires after + held == before + (held + multiset{task})
    ensures done + after + rest == done + before + (multiset{task} + rest)
  {
    CancelTerm(after, before + multiset{task}, held);
  }

  /** Moving a batch to the database. */
  lemma ExecuteConserves(c: Config, p: Pool, w: nat)
    requires Conserved(p) && Enabled(c, p, Execute(w))
    ensures Conserved(Apply(c, p, Execute(w)))
  {
    var q := Apply(c, p, Execute(w));
    var batch := p.workers[w].batch;
    PendingUpdate(p.workers, w, q.workers[w]);
    assert Pending(q.workers) + multiset(batch) == Pending(p.workers);
    assert q.executed[..|p.executed|] == p.executed;
    assert Flatten(q.executed) == Flatten(p.executed) + batch;
    assert multiset(Flatten(q.executed)) == multiset(Flatten(p.executed)) + multiset(batch);
  }

  lemma StepConserves(c: Config, p: Pool, a: Action)
    requires Conserved(p) && Enabled(c, p, a)
    ensures Conserved(Apply(c, p, a))
  {
    var q := Apply(c, p, a);
    if a.Receive? {
      ReceiveConserves(c, p, a.w);
    } else if a.Execute? {
      ExecuteConserves(c, p, a.w);
    } else if a.Produce? {
      assert multiset(q.accepted) == multiset(p.accepted) + multiset{a.task};
      assert multiset(q.channel) == multiset(p.channel) + multiset{a.task};
    } else if a.Launch? {
      assert q.workers[..|p.workers|] == p.workers;
    } else if a.Test? || a.SeeCancel? || a.Tick? {
      PendingKept(p.workers, a.w, q.workers[a.w]);
    }
  }

  lemma StepKeepsBatches(c: Config, p: Pool, a: Action)
    requires Batched(c, p) && Enabled(c, p, a)
    ensures Batched(c, Apply(c, p, a))
  {}

  lemma StepKeepsCount(c: Config, p: Pool, a: Action)
    requires Counted(c, p) && Enabled(c, p, a)
    ensures Counted(c, Apply(c, p, a))
  {
    var q := Apply(c, p, a);
    if a.Launch? {
      assert q.workers[..|p.workers|] == p.workers;
    } else if a.Test? || a.Receive? || a.Execute? || a.SeeCancel? || a.Tick? {
      LiveCountUpdate(p.workers, a.w, q.workers[a.w]);
      LiveCountZero(p.workers);
    }
  }

  lemma StepKeepsInv(c: Config, p: Pool, a: Action)
    requires Inv(c, p) && Enabled(c, p, a)
    ensures Inv(c, Apply(c, p, a))
  {
    StepConserves(c, p, a);
    StepKeepsBatches(c, p, a);
    StepKeepsCount(c, p, a);
  }

  lemma {:induction false} RunKeepsInv(c: Config, p: Pool, actions: seq<Action>, q: Pool)
    requires Inv(c, p) && Runs(c, p, actions, q)
    ensures Inv(c, q)
    decreases |actions|
  {
    if actions == [] {
    } else {
      StepKeepsInv(c, p, actions[0]);
      RunKeepsInv(c, Apply(c, p, actions[0]), actions[1..], q);
    }
  }

  /** A batch is executed as soon as it holds `maxBatchQueue` tasks, or one if that is zero. */
  lemma BatchSizeMeaning(c: Config)
    ensures c.maxBatchQueue >= 1 ==> c.BatchSize() == c.maxBatchQueue
    ensures c.maxBatchQueue == 0 ==> c.BatchSize() == 1
  {}

  /** In every reachable state no task is lost or duplicated, every executed batch is full,
      every other batch is not, and the wait group counts the live workers. */
  lemma ReachableInv(c: Config, p: Pool)
    requires Reachable(c, p)
    ensures Inv(c, p)
    ensures c.maxBatchQueue >= 1 ==>
              && (forall b | 0 <= b < |p.executed| :: |p.executed[b]| == c.maxBatchQueue)
              && forall w | 0 <= w < |p.workers| ::
                   if p.workers[w].Executing? then |p.workers[w].batch| == c.maxBatchQueue
                   else |p.workers[w].batch| < c.maxBatchQueue
  {
    BatchSizeMeaning(c);
    var actions :| Runs(c, INITIAL, actions, p);
    RunKeepsInv(c, INITIAL, actions, p);
  }

  // ---------- After the close ----------

  /** Nothing is executed once the pool is closed: no worker has a step left, so whatever
      still happens changes neither the executed batches nor the workers. */
  lemma {:induction false} NoExecutionAfterClose(c: Config, p: Pool, actions: seq<Action>, q: Pool)
    requires Inv(c, p) && p.closed && Runs(c, p, actions, q)
    ensures q.executed == p.executed && q.workers == p.workers && q.closed
    decreases |actions|
  {
    if actions == [] {
    } else {
      LiveCountZero(p.workers);
      StepKeepsInv(c, p, actions[0]);
      NoExecutionAfterClose(c, Apply(c, p, actions[0]), actions[1..], q);
    }
  }

  // ---------- Shutdown ----------

  /** An orderly action: the context is not cancelled and nobody produces after DoneTasks. */
  predicate Orderly(p: Pool, a: Action) {
    !a.Cancel? && (a.Produce? ==> p.endProcess == 0)
  }

  ghost predicate OrderlyRuns(c: Config, p: Pool, actions: seq<Action>, q: Pool)
    decreases |actions|
  {
    if actions == [] then p == q
    else
      && Enabled(c, p, actions[0]) && Orderly(p, actions[0])
      && OrderlyRuns(c, Apply(c, p, actions[0]), actions[1..], q)
  }

  lemma {:induction false} OrderlyIsRun(c: Config, p: Pool, actions: seq<Action>, q: Pool)
    requires OrderlyRuns(c, p, actions, q)
    ensures Runs(c, p, actions, q)
    decreases |actions|
  {
    if actions == [] {
    } else {
      OrderlyIsRun(c, Apply(c, p, actions[0]), actions[1..], q);
    }
  }

  ghost predicate LeavesEmpty(p: Pool) {
    !p.cancelled && forall w | 0 <= w < |p.workers| && p.workers[w].Exited? :: Finished(p)
  }

  lemma StepLeavesEmpty(c: Config, p: Pool, a: Action)
    requires LeavesEmpty(p) && Enabled(c, p, a) && Orderly(p, a)
    ensures LeavesEmpty(Apply(c, p, a))
  {
    var q := Apply(c, p, a);
    forall w | 0 <= w < |q.workers| && q.workers[w].Exited? ensures Finished(q) {
      assert w < |p.workers|;
      assert p.workers[w].Exited? || Finished(p);
    }
  }

  lemma {:induction false} OrderlyRunLeavesEmpty(c: Config, p: Pool, actions: seq<Action>, q: Pool)
    requires LeavesEmpty(p) && OrderlyRuns(c, p, actions, q)
    ensures LeavesEmpty(q)
    decreases |actions|
  {
    if actions == [] {
    } else {
      StepLeavesEmpty(c, p, actions[0]);
      OrderlyRunLeavesEmpty(c, Apply(c, p, actions[0]), actions[1..], q);
    }
  }

  lemma OneMore(n: nat, most: nat)
    ensures (n + 1) * most == n * most + most
  {}

  lemma SumSize(a: multiset<nat>, b: seq<nat>)
    ensures |a + multiset(b)| == |a| + |b|
  {}

  lemma {:induction false} PendingSize(workers: seq<Worker>, most: nat)
    requires forall w | 0 <= w < |workers| :: |workers[w].batch| <= most
    ensures |Pending(workers)| <= |workers| * most
  {
    if workers == [] {
    } else {
      var n := |workers| - 1;
      PendingSize(workers[..n], most);
      SumSize(Pending(workers[..n]), workers[n].batch);
      OneMore(n, most);
    }
  }

  /** Once every worker has left an orderly run the channel is empty, and what was accepted
      but not executed is the unflushed batches: fewer than a full batch for every worker. */
  lemma OrderlyShutdown(c: Config, actions: seq<Action>, p: Pool)
    requires c.workerNum > 0 || c.capacity == 0
    requires OrderlyRuns(c, INITIAL, actions, p)
    requires |p.workers| == c.workerNum && LiveCount(p.workers) == 0
    ensures p.channel == []
    ensures multiset(p.accepted) == multiset(Flatten(p.executed)) + Pending(p.workers)
    ensures |p.accepted| - |Flatten(p.executed)| <= c.workerNum * (c.BatchSize() - 1)
    ensures c.maxBatchQueue >= 1 ==> |p.accepted| - |Flatten(p.executed)| <= c.workerNum * (c.maxBatchQueue - 1)
  {
    BatchSizeMeaning(c);
    OrderlyRunLeavesEmpty(c, INITIAL, actions, p);
    OrderlyIsRun(c, INITIAL, actions, p);
    RunKeepsInv(c, INITIAL, actions, p);
    LiveCountZero(p.workers);
    assert c.workerNum > 0 ==> p.workers[0].Exited?;
    UnflushedSize(c, p);
  }

  lemma UnflushedSize(c: Config, p: Pool)
    requires Inv(c, p) && p.channel == [] && forall w | 0 <= w < |p.workers| :: p.workers[w].Exited?
    ensures |p.accepted| - |Flatten(p.executed)| <= |p.workers| * (c.BatchSize() - 1)
  {
    PendingSize(p.workers, c.BatchSize() - 1);
    assert |p.accepted| == |multiset(p.accepted)| && |Flatten(p.executed)| == |multiset(Flatten(p.executed))|;
  }

  // ---------- Runs put together ----------

  lemma {:induction false} Compose(c: Config, p: Pool, a: seq<Action>, q: Pool, b: seq<Action>, r: Pool)
    requires OrderlyRuns(c, p, a, q) && OrderlyRuns(c, q, b, r)
    ensures OrderlyRuns(c, p, a + b, r)
    decreases |a|
  {
    if a == [] {
      assert a + b == b;
    } else {
      assert (a + b)[0] == a[0] && (a + b)[1..] == a[1..] + b;
      Compose(c, Apply(c, p, a[0]), a[1..], q, b, r);
    }
  }

  lemma {:induction false} AllWorkersLeave(c: Config, p: Pool, k: nat) returns (actions: seq<Action>, q: Pool)
    requires Finished(p) && k <= |p.workers|
    requires forall w | 0 <= w < |p.workers| :: if w < k then p.workers[w].Exited? else p.workers[w].AtTest?
    ensures OrderlyRuns(c, p, actions, q)
    ensures |q.workers| == |p.workers| && forall w | 0 <= w < |q.workers| :: q.workers[w].Exited?
    ensures q == p.(workers := q.workers, waiting := q.waiting)
    ensures Counted(c, p) ==> Counted(c, q)
    decreases |p.workers| - k
  {
    if k == |p.workers| {
      actions, q := [], p;
    } else {
      var next := Apply(c, p, Test(k));
      if Counted(c, p) {
        StepKeepsCount(c, p, Test(k));
      }
      var rest;
      rest, q := AllWorkersLeave(c, next, k + 1);
      actions := [Test(k)] + rest;
      assert actions[1..] == rest;
    }
  }

  // ---------- Termination ----------

  /** Tasks still to be received plus workers still to leave or to be launched. */
  function Measure(c: Config, p: Pool): int {
    |p.channel| + LiveCount(p.workers) + 2 * (c.workerNum - |p.workers|)
  }

  /** After DoneTasks every orderly step is bounded by the measure: receiving a task, launching
      a worker or leaving lowers it, and no step raises it. */
  lemma MeasureDecreases(c: Config, p: Pool, a: Action)
    requires Inv(c, p) && p.endProcess >= 1 && Enabled(c, p, a) && Orderly(p, a)
    ensures var q := Apply(c, p, a);
            && 0 <= Measure(c, q) <= Measure(c, p)
            && q.endProcess >= 1
            && (Measure(c, q) < Measure(c, p) <==>
                  a.Receive? || a.Launch? || LiveCount(q.workers) < LiveCount(p.workers))
  {
    var q := Apply(c, p, a);
    StepKeepsCount(c, p, a);
    if a.Launch? {
      assert q.workers[..|p.workers|] == p.workers;
    } else if a.Test? || a.Receive? || a.Execute? || a.SeeCancel? || a.Tick? {
      LiveCountUpdate(p.workers, a.w, q.workers[a.w]);
    }
  }

  /** Steps that lower the measure. */
  ghost function Lowering(c: Config, p: Pool, actions: seq<Action>, q: Pool): nat
    requires OrderlyRuns(c, p, actions, q)
    decreases |actions|
  {
    if actions == [] then 0
    else
      var next := Apply(c, p, actions[0]);
      (if Measure(c, next) < Measure(c, p) then 1 else 0) + Lowering(c, next, actions[1..], q)
  }

  /** So after DoneTasks the receives, launches and exits of any orderly run, however it is
      scheduled, are at most the measure it starts with. */
  lemma {:induction false} ShutdownIsBounded(c: Config, p: Pool, actions: seq<Action>, q: Pool)
    requires Inv(c, p) && p.endProcess >= 1 && OrderlyRuns(c, p, actions, q)
    ensures Lowering(c, p, actions, q) + Measure(c, q) <= Measure(c, p)
    decreases |actions|
  {
    if actions == [] {
    } else {
      MeasureDecreases(c, p, actions[0]);
      StepKeepsInv(c, p, actions[0]);
      ShutdownIsBounded(c, Apply(c, p, actions[0]), actions[1..], q);
    }
  }

  predicate OwnStep(a: Action, w: nat) {
    (a.Test? || a.Receive? || a.Execute? || a.Tick?) && a.w == w
  }

  ghost predicate OwnSteps(steps: seq<Action>, w: nat) {
    forall k | 0 <= k < |steps| :: OwnStep(steps[k], w)
  }

  /** And no state is stuck: while a worker is live after DoneTasks, at most three steps of
      that worker alone lower the measure. */
  lemma LiveWorkerProgresses(c: Config, p: Pool, w: nat) returns (steps: seq<Action>, q: Pool)
    requires Inv(c, p) && p.endProcess >= 1 && w < |p.workers| && p.workers[w].Live()
    ensures |steps| <= 3 && OrderlyRuns(c, p, steps, q) && Measure(c, q) < Measure(c, p)
    ensures OwnSteps(steps, w)
  {
    var a := FirstStep(c, p, w);
    var next := Apply(c, p, a);
    StepKeepsInv(c, p, a);
    FirstStepProgresses(c, p, w, a);
    if Measure(c, next) < Measure(c, p) {
      q := next;
      OneThenMore(c, p, w, a, [], q);
      steps := [a] + [];
    } else {
      steps, q := SecondStep(c, next, w);
      OneThenMore(c, p, w, a, steps, q);
      steps := [a] + steps;
    }
  }

  /** A step that receives or leaves lowers the measure; another leaves the worker one or two
      steps from it. */
  lemma FirstStepProgresses(c: Config, p: Pool, w: nat, a: Action)
    requires Inv(c, p) && p.endProcess >= 1 && w < |p.workers| && p.workers[w].Live()
    requires Enabled(c, p, a) && Orderly(p, a) && Apply(c, p, a).workers == p.workers[w := Apply(c, p, a).workers[w]]
    requires a.Receive? || Apply(c, p, a).workers[w].Exited? || CloseToProgress(Apply(c, p, a), w)
    ensures Measure(c, Apply(c, p, a)) < Measure(c, p) ||
            (Measure(c, Apply(c, p, a)) <= Measure(c, p) && CloseToProgress(Apply(c, p, a), w))
  {
    MeasureDecreases(c, p, a);
    LiveCountUpdate(p.workers, w, Apply(c, p, a).workers[w]);
  }

  predicate CloseToProgress(p: Pool, w: nat) {
    w < |p.workers| && (p.workers[w].AtTest? || (p.workers[w].AtSelect? && p.channel != []))
  }

  /** What a live worker can do next: leave, receive, or come closer to one of these. */
  lemma FirstStep(c: Config, p: Pool, w: nat) returns (a: Action)
    requires p.endProcess >= 1 && w < |p.workers| && p.workers[w].Live()
    ensures Enabled(c, p, a) && Orderly(p, a) && OwnStep(a, w)
    ensures var q := Apply(c, p, a);
            && q.workers == p.workers[w := q.workers[w]] && q.endProcess >= 1
            && (a.Receive? || q.workers[w].Exited? || CloseToProgress(q, w))
  {
    match p.workers[w] {
      case Executing(_) => a := Execute(w);
      case AtTest(_) => a := Test(w);
      case AtSelect(_) => a := if p.channel == [] then Tick(w) else Receive(w);
    }
  }

  lemma OneThenMore(c: Config, p: Pool, w: nat, a: Action, steps: seq<Action>, q: Pool)
    requires Enabled(c, p, a) && Orderly(p, a) && OrderlyRuns(c, Apply(c, p, a), steps, q)
    requires OwnStep(a, w) && OwnSteps(steps, w)
    ensures OrderlyRuns(c, p, [a] + steps, q) && OwnSteps([a] + steps, w)
  {
    assert ([a] + steps)[1..] == steps;
  }

  lemma SecondStep(c: Config, p: Pool, w: nat) returns (steps: seq<Action>, q: Pool)
    requires Inv(c, p) && p.endProcess >= 1 && CloseToProgress(p, w)
    ensures |steps| <= 2 && OrderlyRuns(c, p, steps, q) && Measure(c, q) < Measure(c, p)
    ensures OwnSteps(steps, w)
  {
    if p.workers[w].AtSelect? {
      MeasureDecreases(c, p, Receive(w));
      steps, q := [Receive(w)], Apply(c, p, Receive(w));
    } else {
      var next := Apply(c, p, Test(w));
      MeasureDecreases(c, p, Test(w));
      LiveCountUpdate(p.workers, w, next.workers[w]);
      if p.channel == [] {
        steps, q := [Test(w)], next;
      } else {
        StepKeepsInv(c, p, Test(w));
        MeasureDecreases(c, next, Receive(w));
        steps, q := [Receive(w)], Apply(c, next, Receive(w));
        OneThenMore(c, p, w, Test(w), steps, q);
        steps := [Test(w)] + steps;
      }
    }
  }

  // ---------- One worker ----------

  function FirstBatch(p: Pool): seq<nat> {
    if p.workers == [] then [] else p.workers[0].batch
  }

  ghost predicate InOrder(p: Pool) {
    |p.workers| <= 1 && Flatten(p.executed) + (FirstBatch(p) + p.channel) == p.accepted
  }

  lemma ReceiveKeepsOrder(c: Config, p: Pool)
    requires InOrder(p) && Enabled(c, p, Receive(0))
    ensures InOrder(Apply(c, p, Receive(0)))
  {
    var next := Apply(c, p, Receive(0));
    assert p.channel == [p.channel[0]] + next.channel;
    assert FirstBatch(next) + next.channel == FirstBatch(p) + p.channel;
  }

  lemma ExecuteKeepsOrder(c: Config, p: Pool)
    requires InOrder(p) && Enabled(c, p, Execute(0))
    ensures InOrder(Apply(c, p, Execute(0)))
  {
    var next := Apply(c, p, Execute(0));
    assert next.executed[..|p.executed|] == p.executed;
    assert Flatten(next.executed) == Flatten(p.executed) + FirstBatch(p);
    assert FirstBatch(next) + p.channel == p.channel;
    assert Flatten(p.executed) + FirstBatch(p) + p.channel == Flatten(p.executed) + (FirstBatch(p) + p.channel);
  }

  lemma ProduceKeepsOrder(c: Config, p: Pool, task: nat)
    requires InOrder(p) && Enabled(c, p, Produce(task))
    ensures InOrder(Apply(c, p, Produce(task)))
  {
    assert FirstBatch(p) + (p.channel + [task]) == FirstBatch(p) + p.channel + [task];
    assert Flatten(p.executed) + (FirstBatch(p) + p.channel + [task]) == p.accepted + [task];
  }

  lemma StepKeepsOrder(c: Config, p: Pool, a: Action)
    requires c.workerNum == 1 && InOrder(p) && Enabled(c, p, a)
    ensures InOrder(Apply(c, p, a))
  {
    if a.Execute? {
      ExecuteKeepsOrder(c, p);
    } else if a.Receive? {
      ReceiveKeepsOrder(c, p);
    } else if a.Produce? {
      ProduceKeepsOrder(c, p, a.task);
    } else {
      var next := Apply(c, p, a);
      assert FirstBatch(next) == FirstBatch(p);
    }
  }

  /** With a single worker the order is kept: executed batches, then the worker's batch, then
      the channel, are the accepted tasks in order; so what is executed is a prefix. */
  lemma {:induction false} OneWorkerKeepsOrder(c: Config, p: Pool, actions: seq<Action>, q: Pool)
    requires c.workerNum == 1 && InOrder(p)
    requires Runs(c, p, actions, q)
    ensures InOrder(q)
    ensures Flatten(q.executed) <= q.accepted
    decreases |actions|
  {
    if actions == [] {
    } else {
      StepKeepsOrder(c, p, actions[0]);
      OneWorkerKeepsOrder(c, Apply(c, p, actions[0]), actions[1..], q);
    }
  }
}
