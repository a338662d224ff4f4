/** Exactly which numbers of accepted tasks a run of the writer pool can fail to write, with an
    orderly shutdown and with a cancelled one. */
module PoolLosses {
  import opened Sequences
  import opened WriterPool
  import opened PoolShutdown

  // ---------- Loading the workers ----------

  /** Every worker stands at the test with a batch that is not full, and nothing is queued. */
  ghost predicate Ready(c: Config, p: Pool) {
    && |p.workers| == c.workerNum && p.endProcess == 0 && p.channel == [] && !p.cancelled && !p.closed
    && forall w | 0 <= w < |p.workers| :: p.workers[w].AtTest? && |p.workers[w].batch| < c.BatchSize()
  }

  function Held(p: Pool, w: nat): nat
    requires w < |p.workers|
  {
    |p.workers[w].batch|
  }

  ghost predicate OthersSame(p: Pool, q: Pool, w: nat) {
    |q.workers| == |p.workers| && forall i | 0 <= i < |p.workers| && i != w :: q.workers[i] == p.workers[i]
  }

  /** One task through worker `w`, which writes its batch if that makes it full. */
  lemma Feed(c: Config, p: Pool, w: nat) returns (actions: seq<Action>, q: Pool)
    requires c.capacity > 0 && Ready(c, p) && w < |p.workers|
    ensures OrderlyRuns(c, p, actions, q) && Ready(c, q) && OthersSame(p, q, w)
    ensures |q.accepted| == |p.accepted| + 1
    ensures Held(p, w) + 1 < c.BatchSize() ==> Held(q, w) == Held(p, w) + 1 && q.executed == p.executed
    ensures Held(p, w) + 1 == c.BatchSize() ==> Held(q, w) == 0 && |q.executed| == |p.executed| + 1
  {
    var p1 := Apply(c, p, Test(w));
    var p2 := Apply(c, p1, Produce(0));
    var p3 := Apply(c, p2, Receive(w));
    assert OrderlyRuns(c, p3, [], p3);
    Prepend(c, p2, Receive(w), [], p3);
    Prepend(c, p1, Produce(0), [Receive(w)], p3);
    Prepend(c, p, Test(w), [Produce(0), Receive(w)], p3);
    actions, q := [Test(w), Produce(0), Receive(w)], p3;
    if Held(p, w) + 1 == c.BatchSize() {
      q := Apply(c, p3, Execute(w));
      assert OrderlyRuns(c, q, [], q);
      Prepend(c, p3, Execute(w), [], q);
      Compose(c, p, actions, p3, [Execute(w)], q);
      actions := actions + [Execute(w)];
    }
  }

  lemma Prepend(c: Config, p: Pool, a: Action, rest: seq<Action>, q: Pool)
    requires Enabled(c, p, a) && Orderly(p, a) && OrderlyRuns(c, Apply(c, p, a), rest, q)
    ensures OrderlyRuns(c, p, [a] + rest, q)
  {
    assert ([a] + rest)[1..] == rest;
  }

  lemma {:induction false} FeedMany(c: Config, p: Pool, w: nat, k: nat) returns (actions: seq<Action>, q: Pool)
    requires c.capacity > 0 && Ready(c, p) && w < |p.workers| && Held(p, w) + k < c.BatchSize()
    ensures OrderlyRuns(c, p, actions, q) && Ready(c, q) && OthersSame(p, q, w)
    ensures |q.accepted| == |p.accepted| + k && q.executed == p.executed && Held(q, w) == Held(p, w) + k
  {
    if k == 0 {
      actions, q := [], p;
    } else {
      var before, next := FeedMany(c, p, w, k - 1);
      var last;
      last, q := Feed(c, next, w);
      Compose(c, p, before, next, last, q);
      actions := before + last;
    }
  }

  /** `n` full batches through worker `w`. */
  lemma {:induction false} FeedBatches(c: Config, p: Pool, w: nat, n: nat) returns (actions: seq<Action>, q: Pool)
    requires c.capacity > 0 && Ready(c, p) && w < |p.workers| && Held(p, w) == 0
    ensures OrderlyRuns(c, p, actions, q) && Ready(c, q) && OthersSame(p, q, w)
    ensures |q.accepted| == |p.accepted| + n * c.BatchSize() && |q.executed| == |p.executed| + n && Held(q, w) == 0
  {
    if n == 0 {
      actions, q := [], p;
    } else {
      var before, next := FeedBatches(c, p, w, n - 1);
      var fill, filled := FeedMany(c, next, w, c.BatchSize() - 1);
      var last;
      last, q := Feed(c, filled, w);
      Compose(c, p, before, next, fill, filled);
      Compose(c, p, before + fill, filled, last, q);
      actions := before + fill + last;
      OneMore(n - 1, c.BatchSize());
    }
  }

  ghost predicate EmptyFrom(p: Pool, w: nat) {
    forall i | w <= i < |p.workers| :: Held(p, i) == 0
  }

  /** `lost` tasks spread over the workers from `w` on, none of which gets a full batch. */
  lemma {:induction false} Spread(c: Config, p: Pool, w: nat, lost: nat) returns (actions: seq<Action>, q: Pool)
    requires c.capacity > 0 && Ready(c, p) && w <= c.workerNum
    requires EmptyFrom(p, w)
    requires lost <= (c.workerNum - w) * (c.BatchSize() - 1)
    ensures OrderlyRuns(c, p, actions, q) && Ready(c, q)
    ensures |q.accepted| == |p.accepted| + lost && q.executed == p.executed
    decreases c.workerNum - w
  {
    if lost == 0 {
      actions, q := [], p;
    } else {
      assert w < c.workerNum;
      var most := c.BatchSize() - 1;
      OneMore(c.workerNum - w - 1, most);
      var k := if lost < most then lost else most;
      var first, next := FeedMany(c, p, w, k);
      forall i | w + 1 <= i < |next.workers| ensures Held(next, i) == 0 {
        assert next.workers[i] == p.workers[i] && Held(p, i) == 0;
      }
      var rest;
      rest, q := Spread(c, next, w + 1, lost - k);
      Compose(c, p, first, next, rest, q);
      actions := first + rest;
    }
  }

  lemma LostByBatches(c: Config, actions: seq<Action>, p: Pool)
    requires Runs(c, INITIAL, actions, p)
    ensures Lost(p) == |p.accepted| - |p.executed| * c.BatchSize()
  {
    RunKeepsInv(c, INITIAL, actions, p);
    FlattenSize(p.executed, c.BatchSize());
  }

  /** `batches` full batches are written, and `lost` more tasks are left in the workers. */
  lemma Load(c: Config, batches: nat, lost: nat) returns (actions: seq<Action>, p: Pool)
    requires c.workerNum > 0 && c.capacity > 0 && lost <= c.workerNum * (c.BatchSize() - 1)
    ensures OrderlyRuns(c, INITIAL, actions, p) && Ready(c, p)
    ensures |p.accepted| == batches * c.BatchSize() + lost && |p.executed| == batches
  {
    var launch, launched := LaunchAll(c, c.workerNum);
    var write, written := FeedBatches(c, launched, 0, batches);
    var spread;
    spread, p := Spread(c, written, 0, lost);
    Compose(c, INITIAL, launch, launched, write, written);
    Compose(c, INITIAL, launch + write, written, spread, p);
    actions := launch + write + spread;
  }

  // ---------- Orderly shutdown ----------

  /** An orderly run to its end that accepts `n` tasks and never writes `lost` of them. */
  ghost predicate OrderlyLoss(c: Config, n: nat, lost: nat, actions: seq<Action>, p: Pool) {
    OrderlyRuns(c, INITIAL, actions, p) && AllGone(c, p) && |p.accepted| == n && Lost(p) == lost
  }

  ghost predicate OrderlyCanLose(c: Config, n: nat, lost: nat) {
    exists actions, p :: OrderlyLoss(c, n, lost, actions, p)
  }

  lemma WholeBatches(n: nat, lost: nat, size: nat) returns (batches: nat)
    requires size > 0 && lost <= n && lost % size == n % size
    ensures batches * size + lost == n
  {
    var whole, kept := n / size, lost / size;
    QuotientGrows(lost, n, kept, whole, size);
    batches := whole - kept;
    assert batches * size == whole * size - kept * size;
  }

  lemma QuotientGrows(a: nat, b: nat, q: nat, q': nat, size: nat)
    requires size > 0 && a <= b && q * size <= a && b < q' * size + size
    ensures q <= q'
  {
    if q > q' {
      OneSizeMore(q, q', size);
    }
  }

  lemma LoseOrderly(c: Config, n: nat, lost: nat) returns (actions: seq<Action>, p: Pool)
    requires c.workerNum > 0 && c.capacity > 0
    requires lost <= n && lost % c.BatchSize() == n % c.BatchSize() && lost <= c.workerNum * (c.BatchSize() - 1)
    ensures OrderlyLoss(c, n, lost, actions, p)
  {
    var batches := WholeBatches(n, lost, c.BatchSize());
    var load, loaded := Load(c, batches, lost);
    var done := Apply(c, loaded, DoneTasks);
    assert OrderlyRuns(c, done, [], done);
    Prepend(c, loaded, DoneTasks, [], done);
    var leave;
    leave, p := AllWorkersLeave(c, done, 0);
    Compose(c, INITIAL, load, loaded, [DoneTasks], done);
    Compose(c, INITIAL, load + [DoneTasks], done, leave, p);
    actions := load + [DoneTasks] + leave;
    OrderlyIsRun(c, INITIAL, actions, p);
    LostByBatches(c, actions, p);
  }

  /** The losses an orderly shutdown can have: of `n` accepted tasks exactly those numbers that
      leave whole batches and fit into one unfilled batch for every worker. */
  lemma OrderlyLossIff(c: Config, n: nat, lost: nat)
    requires c.workerNum > 0 && c.capacity > 0
    ensures OrderlyCanLose(c, n, lost) <==>
            lost <= n && lost % c.BatchSize() == n % c.BatchSize() && lost <= c.workerNum * (c.BatchSize() - 1)
    ensures c.maxBatchQueue >= 1 ==>
              (OrderlyCanLose(c, n, lost) <==>
                 && lost <= n && lost % c.maxBatchQueue == n % c.maxBatchQueue
                 && lost <= c.workerNum * (c.maxBatchQueue - 1))
  {
    BatchSizeMeaning(c);
    if actions, p :| OrderlyLoss(c, n, lost, actions, p) {
      OrderlyHasNoLateTasks(c, INITIAL, actions, p);
      ShutdownLoss(c, actions, p);
    }
    if lost <= n && lost % c.BatchSize() == n % c.BatchSize() && lost <= c.workerNum * (c.BatchSize() - 1) {
      var actions, p := LoseOrderly(c, n, lost);
    }
  }

  /** So `n` accepted tasks can be cut short if and only if a batch holds more than one task and
      there are several workers, or one for which they do not make up whole batches; and they can
      all be written if and only if they make up whole batches. */
  lemma OrderlyLossPossibleIff(c: Config, n: nat)
    requires c.workerNum > 0 && c.capacity > 0
    ensures (exists lost: nat :: lost > 0 && OrderlyCanLose(c, n, lost)) <==>
            n > 0 && c.BatchSize() > 1 && (c.workerNum > 1 || n % c.BatchSize() != 0)
    ensures OrderlyCanLose(c, n, 0) <==> n % c.BatchSize() == 0
  {
    if lost: nat :| lost > 0 && OrderlyCanLose(c, n, lost) {
      LossNeeds(c, n, lost);
    }
    if n > 0 && c.BatchSize() > 1 && (c.workerNum > 1 || n % c.BatchSize() != 0) {
      var lost := SomeLoss(c, n);
    }
    NothingLostIff(c, n);
  }

  lemma NothingLostIff(c: Config, n: nat)
    requires c.workerNum > 0 && c.capacity > 0
    ensures OrderlyCanLose(c, n, 0) <==> n % c.BatchSize() == 0
  {
    OrderlyLossIff(c, n, 0);
    SmallRemainder(0, c.BatchSize());
    AtLeast(c.workerNum, 0, c.BatchSize() - 1);
  }

  lemma LossNeeds(c: Config, n: nat, lost: nat)
    requires c.workerNum > 0 && c.capacity > 0 && lost > 0 && OrderlyCanLose(c, n, lost)
    ensures n > 0 && c.BatchSize() > 1 && (c.workerNum > 1 || n % c.BatchSize() != 0)
  {
    OrderlyLossIff(c, n, lost);
    SmallRemainder(lost, c.BatchSize());
  }

  /** The smallest loss that is not nothing: the remainder, or else a whole batch. */
  lemma SomeLoss(c: Config, n: nat) returns (lost: nat)
    requires n > 0 && c.BatchSize() > 1 && c.workerNum > 0 && c.capacity > 0
    requires c.workerNum > 1 || n % c.BatchSize() != 0
    ensures lost > 0 && OrderlyCanLose(c, n, lost)
  {
    var size := c.BatchSize();
    SmallRemainder(n, size);
    if n % size != 0 {
      lost := n % size;
      SmallRemainder(lost, size);
      AtLeast(c.workerNum, 1, size - 1);
    } else {
      lost := size;
      AtLeast(c.workerNum, 2, size - 1);
      SameQuotient(1, 0, size / size, size % size, size);
    }
    OrderlyLossIff(c, n, lost);
  }

  lemma AtLeast(k: nat, least: nat, most: nat)
    requires k >= least
    ensures k * most >= least * most
  {
    assert k * most == least * most + (k - least) * most;
  }

  /** In particular the bound of `OrderlyShutdown` is reached for any number of workers and any
      batch size. */
  lemma ShutdownBoundIsTight(c: Config) returns (actions: seq<Action>, p: Pool)
    requires c.workerNum > 0 && c.capacity > 0
    ensures OrderlyRuns(c, INITIAL, actions, p)
    ensures |p.workers| == c.workerNum && LiveCount(p.workers) == 0
    ensures |p.accepted| - |Flatten(p.executed)| == c.workerNum * (c.BatchSize() - 1)
  {
    var most := c.workerNum * (c.BatchSize() - 1);
    actions, p := LoseOrderly(c, most, most);
    AllGoneCounts(c, p);
  }

  // ---------- Cancelled shutdown ----------

  /** Any run, cancelled or not, to its end that accepts `n` tasks and never writes `lost` of them. */
  ghost predicate AnyLoss(c: Config, n: nat, lost: nat, actions: seq<Action>, p: Pool) {
    Runs(c, INITIAL, actions, p) && AllGone(c, p) && |p.accepted| == n && Lost(p) == lost
  }

  ghost predicate CanLose(c: Config, n: nat, lost: nat) {
    exists actions, p :: AnyLoss(c, n, lost, actions, p)
  }

  lemma AnyLossIsBounded(c: Config, actions: seq<Action>, p: Pool)
    requires Runs(c, INITIAL, actions, p) && AllGone(c, p)
    ensures Lost(p) <= c.capacity + c.workerNum * (c.BatchSize() - 1)
    ensures 0 <= Lost(p) <= |p.accepted| && Lost(p) % c.BatchSize() == |p.accepted| % c.BatchSize()
  {
    RunKeepsInv(c, INITIAL, actions, p);
    LostIsPending(c, p);
    PendingOfGone(c, p);
    LostByBatches(c, actions, p);
    SameRemainder(|p.accepted|, |p.executed|, c.BatchSize());
  }

  lemma {:induction false} Queue(c: Config, p: Pool, n: nat) returns (actions: seq<Action>, q: Pool)
    requires p.endProcess == 0 && |p.channel| + n <= c.capacity
    ensures OrderlyRuns(c, p, actions, q)
    ensures q == p.(channel := q.channel, accepted := q.accepted)
    ensures |q.channel| == |p.channel| + n && |q.accepted| == |p.accepted| + n
    decreases n
  {
    if n == 0 {
      actions, q := [], p;
    } else {
      var next := Apply(c, p, Produce(0));
      var rest;
      rest, q := Queue(c, next, n - 1);
      Prepend(c, p, Produce(0), rest, q);
      actions := [Produce(0)] + rest;
    }
  }

  lemma PrependAny(c: Config, p: Pool, a: Action, rest: seq<Action>, q: Pool)
    requires Enabled(c, p, a) && Runs(c, Apply(c, p, a), rest, q)
    ensures Runs(c, p, [a] + rest, q)
  {
    assert ([a] + rest)[1..] == rest;
  }

  ghost predicate OnlyLeaving(actions: seq<Action>) {
    forall k | 0 <= k < |actions| :: actions[k].Test? || actions[k].SeeCancel?
  }

  /** After a cancel the workers from `k` on leave one by one, whatever is in the channel. */
  lemma {:induction false} CancelledLeave(c: Config, p: Pool, k: nat) returns (actions: seq<Action>, q: Pool)
    requires p.cancelled && k <= |p.workers|
    requires forall w | 0 <= w < |p.workers| :: if w < k then p.workers[w].Exited? else p.workers[w].AtTest?
    ensures Runs(c, p, actions, q) && OnlyLeaving(actions)
    ensures |q.workers| == |p.workers| && forall w | 0 <= w < |q.workers| :: q.workers[w].Exited?
    ensures q.accepted == p.accepted && q.executed == p.executed
    decreases |p.workers| - k
  {
    if k == |p.workers| {
      actions, q := [], p;
    } else {
      var test := Apply(c, p, Test(k));
      var next := if test.workers[k].Exited? then test else Apply(c, test, SeeCancel(k));
      var rest;
      rest, q := CancelledLeave(c, next, k + 1);
      if test.workers[k].Exited? {
        actions := rest;
      } else {
        PrependAny(c, test, SeeCancel(k), rest, q);
        actions := [SeeCancel(k)] + rest;
      }
      PrependAny(c, p, Test(k), actions, q);
      actions := [Test(k)] + actions;
    }
  }

  /** Tasks lost to a cancel that comes right after DoneTasks, with nothing produced later. */
  lemma LoseByCancel(c: Config, n: nat, lost: nat)
    returns (before: seq<Action>, middle: Pool, leave: seq<Action>, p: Pool)
    requires c.workerNum > 0 && c.capacity > 0
    requires lost <= n && lost % c.BatchSize() == n % c.BatchSize()
    requires lost <= c.capacity + c.workerNum * (c.BatchSize() - 1)
    ensures OrderlyRuns(c, INITIAL, before, middle) && Runs(c, middle, [DoneTasks, Cancel] + leave, p)
    ensures OnlyLeaving(leave) && AnyLoss(c, n, lost, before + ([DoneTasks, Cancel] + leave), p)
  {
    var batches := WholeBatches(n, lost, c.BatchSize());
    before, middle := LoadAndQueue(c, batches, lost);
    leave, p := DoneThenCancel(c, middle);
    OrderlyIsRun(c, INITIAL, before, middle);
    ComposeRuns(c, INITIAL, before, middle, [DoneTasks, Cancel] + leave, p);
    LostByBatches(c, before + ([DoneTasks, Cancel] + leave), p);
  }

  /** The tasks to be lost are left in the workers, and in the channel if there are more. */
  lemma LoadAndQueue(c: Config, batches: nat, lost: nat) returns (actions: seq<Action>, p: Pool)
    requires c.workerNum > 0 && c.capacity > 0 && lost <= c.capacity + c.workerNum * (c.BatchSize() - 1)
    ensures OrderlyRuns(c, INITIAL, actions, p)
    ensures |p.workers| == c.workerNum && forall w | 0 <= w < |p.workers| :: p.workers[w].AtTest?
    ensures |p.accepted| == batches * c.BatchSize() + lost && |p.executed| == batches
  {
    var most := c.workerNum * (c.BatchSize() - 1);
    var held := if lost < most then lost else most;
    var load, loaded := Load(c, batches, held);
    var queue;
    queue, p := Queue(c, loaded, lost - held);
    Compose(c, INITIAL, load, loaded, queue, p);
    actions := load + queue;
  }

  lemma DoneThenCancel(c: Config, p: Pool) returns (leave: seq<Action>, q: Pool)
    requires |p.workers| == c.workerNum && forall w | 0 <= w < |p.workers| :: p.workers[w].AtTest?
    ensures Runs(c, p, [DoneTasks, Cancel] + leave, q) && OnlyLeaving(leave) && AllGone(c, q)
    ensures q.accepted == p.accepted && q.executed == p.executed
  {
    var done := Apply(c, p, DoneTasks);
    leave, q := CancelledLeave(c, Apply(c, done, Cancel), 0);
    PrependAny(c, done, Cancel, leave, q);
    PrependAny(c, p, DoneTasks, [Cancel] + leave, q);
    assert [DoneTasks] + ([Cancel] + leave) == [DoneTasks, Cancel] + leave;
  }

  /** The losses of any shutdown, cancelled or with late tasks: exactly those numbers that leave
      whole batches and fit into the channel and one unfilled batch for every worker. */
  lemma AnyLossIff(c: Config, n: nat, lost: nat)
    requires c.workerNum > 0 && c.capacity > 0
    ensures CanLose(c, n, lost) <==>
            && lost <= n && lost % c.BatchSize() == n % c.BatchSize()
            && lost <= c.capacity + c.workerNum * (c.BatchSize() - 1)
    ensures c.maxBatchQueue >= 1 ==>
              (CanLose(c, n, lost) <==>
                 && lost <= n && lost % c.maxBatchQueue == n % c.maxBatchQueue
                 && lost <= c.capacity + c.workerNum * (c.maxBatchQueue - 1))
  {
    BatchSizeMeaning(c);
    if actions, p :| AnyLoss(c, n, lost, actions, p) {
      AnyLossIsBounded(c, actions, p);
    }
    if lost <= n && lost % c.BatchSize() == n % c.BatchSize()
      && lost <= c.capacity + c.workerNum * (c.BatchSize() - 1) {
      var before, middle, leave, p := LoseByCancel(c, n, lost);
    }
  }
}
