/** Whole runs of one analyzer object: any sequence of head events and slot ticks, what the
    object holds at the end, and every task it has sent on the way. */
module AnalyzerRuns {
  import opened Wrappers
  import opened Sequences
  import opened U64
  import opened Votes
  import opened Bitlists
  import opened Slashing
  import opened PrunedRuns
  import opened HistoryBuilder
  import opened HeadTracker
  import opened Analyzer

  /** A head event comes with the block if it could be fetched; a tick asks for a proposal at
      its slot. */
  datatype Call = HeadEvent(slot: u64, block: Option<Block>) | ProposalTick(slot: u64, response: Response)

  /** A run of calls on the analyzer of a node; `slashed` are the indices the responses slash. */
  datatype Script = Script(calls: seq<Call>, slashed: seq<nat>, client: string, nodeLabel: string)

  function EventsOfCall(c: Call): seq<Event> {
    match c
    case HeadEvent(_, block) => if block.Some? then [Absorbed(block.value.atts)] else []
    case ProposalTick(slot, _) => [Proposed(slot)]
  }

  /** What the first `k` calls do to the histories. */
  function EventsOf(calls: seq<Call>, k: nat): seq<Event>
    requires k <= |calls|
  {
    if k == 0 then [] else EventsOf(calls, k - 1) + EventsOfCall(calls[k - 1])
  }

  function BlockHead(c: Call): seq<u64> {
    if c.HeadEvent? && c.block.Some? then [c.slot] else []
  }

  /** The heads among the first `k` calls whose block could be fetched. */
  function BlockHeads(calls: seq<Call>, k: nat): seq<u64>
    requires k <= |calls|
  {
    if k == 0 then [] else BlockHeads(calls, k - 1) + BlockHead(calls[k - 1])
  }

  /** The histories and the head that each call of a run finds, and those at its end. */
  datatype Trace = Trace(stores: seq<Store>, heads: seq<u64>)

  /** The trace of a run: the histories are those of its blocks and prunes, and the head is the
      last one whose block was fetched. With `pruning` false nothing is ever pruned. */
  function TraceOf(s: Store, head: u64, calls: seq<Call>, pruning: bool): (t: Trace)
    ensures |t.stores| == |t.heads| == |calls| + 1
    ensures forall k | 0 <= k <= |calls| :: t.stores[k] == Run(s, EventsOf(calls, k), pruning)
    ensures forall k | 0 <= k <= |calls| :: t.heads[k] == LastHead(head, BlockHeads(calls, k))
  {
    Trace(seq(|calls| + 1, k requires 0 <= k <= |calls| => Run(s, EventsOf(calls, k), pruning)),
          seq(|calls| + 1, k requires 0 <= k <= |calls| => LastHead(head, BlockHeads(calls, k))))
  }

  /** A run of calls with its trace. */
  ghost predicate Traced(t: Trace, r: Script) {
    |r.slashed| == |r.calls| && |t.stores| == |t.heads| == |r.calls| + 1
  }

  /** Tasks one call sends when it leaves the histories `s` and finds the head at `head`. */
  ghost function Sends(s: Store, head: u64, c: Call, slashed: nat, client: string, nodeLabel: string): seq<WriteTask> {
    match c
    case HeadEvent(slot, block) => if block.Some? then HeadTasks(HeadRows(head, slot), nodeLabel) else []
    case ProposalTick(slot, response) =>
      if Unsynced(head, slot) then []
      else [ScoreTask(ResponseRow(s, slot, response, slashed, client, nodeLabel))]
  }

  /** Tasks call `k` sends. */
  ghost function SendsAt(t: Trace, r: Script, k: nat): seq<WriteTask>
    requires Traced(t, r) && k < |r.calls|
  {
    Sends(t.stores[k + 1], t.heads[k], r.calls[k], r.slashed[k], r.client, r.nodeLabel)
  }

  /** Every task the first `k` calls send, in order. */
  ghost function Log(t: Trace, r: Script, k: nat): seq<WriteTask>
    requires Traced(t, r) && k <= |r.calls|
  {
    if k == 0 then [] else Log(t, r, k - 1) + SendsAt(t, r, k - 1)
  }

  // ---------- The object ----------

  ghost function CallArrays(c: Call): set<array<u64>> {
    if c.ProposalTick? then Slashed(c.response) else {}
  }

  ghost function AllArrays(calls: seq<Call>): set<array<u64>> {
    set c, a | c in calls && a in CallArrays(c) :: a
  }

  ghost function SlashedOf(c: Call): nat
    reads CallArrays(c)
  {
    if c.ProposalTick? then SlashedBy(c.response) else 0
  }

  ghost function SlashedOfAll(calls: seq<Call>): (counts: seq<nat>)
    reads AllArrays(calls)
    ensures |counts| == |calls|
  {
    seq(|calls|, k requires 0 <= k < |calls| reads AllArrays(calls) => SlashedOf(calls[k]))
  }

  twostate lemma ReorderingKeepsSlashed(c: Call)
    requires forall a <- CallArrays(c) :: old(allocated(a)) && multiset(a[..]) == multiset(old(a[..]))
    ensures SlashedOf(c) == old(SlashedOf(c))
  {
    if c.ProposalTick? && c.response.Answered? {
      ReorderingKeepsCount(c.response.proposal.attesterSlashings);
    }
  }

  twostate lemma ReorderingKeepsAll(calls: seq<Call>)
    requires forall a <- AllArrays(calls) :: old(allocated(a)) && multiset(a[..]) == multiset(old(a[..]))
    ensures SlashedOfAll(calls) == old(SlashedOfAll(calls))
  {
    forall k | 0 <= k < |calls| ensures SlashedOf(calls[k]) == old(SlashedOf(calls[k])) {
      assert CallArrays(calls[k]) <= AllArrays(calls);
      ReorderingKeepsSlashed(calls[k]);
    }
  }

  /** What an analyzer holds and has sent. */
  datatype Snapshot = Snapshot(histories: Store, head: u64, epochs: seq<u64>, sent: seq<WriteTask>)

  ghost function Current(a: ClientLiveData): Snapshot
    reads a
  {
    Snapshot(a.Histories(), a.currentHeadSlot, a.preparedEpochs, a.sent)
  }

  /** What one call does to the histories. */
  function StepOf(s: Store, c: Call, pruning: bool): Store {
    match c
    case HeadEvent(_, block) => if block.Some? then Step(s, Absorbed(block.value.atts), pruning) else s
    case ProposalTick(slot, _) => Step(s, Proposed(slot), pruning)
  }

  ghost function AfterOne(s: Snapshot, c: Call, slashed: nat, client: string, nodeLabel: string): Snapshot {
    var histories := StepOf(s.histories, c, true);
    Snapshot(histories, LastHead(s.head, BlockHead(c)), s.epochs + RunEpochs(BlockHead(c)),
             s.sent + Sends(histories, s.head, c, slashed, client, nodeLabel))
  }

  /** After the first `k` calls. */
  ghost function After(s: Snapshot, t: Trace, r: Script, k: nat): Snapshot
    requires Traced(t, r) && k <= |r.calls|
  {
    Snapshot(t.stores[k], t.heads[k], s.epochs + RunEpochs(BlockHeads(r.calls, k)), s.sent + Log(t, r, k))
  }

  /** Call `k` leads from one snapshot of the list to the next. */
  ghost predicate Leads(plan: seq<Snapshot>, r: Script, k: nat) {
    && k < |r.calls| == |r.slashed| && |plan| == |r.calls| + 1
    && plan[k + 1] == AfterOne(plan[k], r.calls[k], r.slashed[k], r.client, r.nodeLabel)
  }

  lemma AfterNext(s: Snapshot, t: Trace, r: Script, k: nat)
    requires Traced(t, r) && k < |r.calls|
    requires t.stores[k + 1] == StepOf(t.stores[k], r.calls[k], true)
    requires t.heads[k + 1] == LastHead(t.heads[k], BlockHead(r.calls[k]))
    ensures After(s, t, r, k + 1) == AfterOne(After(s, t, r, k), r.calls[k], r.slashed[k], r.client, r.nodeLabel)
  {
    Regroup(s.sent, Log(t, r, k), SendsAt(t, r, k));
    RunEpochsOfConcat(BlockHeads(r.calls, k), BlockHead(r.calls[k]));
    Regroup(s.epochs, RunEpochs(BlockHeads(r.calls, k)), RunEpochs(BlockHead(r.calls[k])));
  }

  lemma RunOfCall(s: Store, es: seq<Event>, c: Call, pruning: bool)
    ensures Run(s, es + EventsOfCall(c), pruning) == StepOf(Run(s, es, pruning), c, pruning)
  {
    if EventsOfCall(c) == [] {
      assert es + EventsOfCall(c) == es;
    } else {
      RunNext(s, es, EventsOfCall(c)[0]);
      assert EventsOfCall(c) == [EventsOfCall(c)[0]];
    }
  }

  lemma TraceSteps(s: Store, head: u64, calls: seq<Call>, k: nat)
    requires k < |calls|
    ensures var t := TraceOf(s, head, calls, true);
            && t.stores[k + 1] == StepOf(t.stores[k], calls[k], true)
            && t.heads[k + 1] == LastHead(t.heads[k], BlockHead(calls[k]))
  {
    RunOfCall(s, EventsOf(calls, k), calls[k], true);
    LastHeadOfConcat(head, BlockHeads(calls, k), BlockHead(calls[k]));
  }

  /** The snapshots of a run, told by its trace, its heads and its log. */
  lemma AfterMeaning(s: Snapshot, t: Trace, r: Script) returns (plan: seq<Snapshot>)
    requires |r.slashed| == |r.calls| && t == TraceOf(s.histories, s.head, r.calls, true)
    ensures |plan| == |r.calls| + 1 && plan[0] == s && plan[|r.calls|] == After(s, t, r, |r.calls|)
    ensures forall k: nat | k < |r.calls| :: Leads(plan, r, k)
  {
    plan := seq(|r.calls| + 1, k requires 0 <= k <= |r.calls| => After(s, t, r, k));
    forall k: nat | k < |r.calls| ensures Leads(plan, r, k) {
      TraceSteps(s.histories, s.head, r.calls, k);
      AfterNext(s, t, r, k);
    }
  }

  /** One call of a handler. */
  method Serve(a: ClientLiveData, c: Call)
    requires a.Valid()
    modifies a, Objects(a.attHistory), CallArrays(c)
    ensures a.Valid() && fresh(Objects(a.attHistory) - old(Objects(a.attHistory)))
    ensures Current(a) == AfterOne(old(Current(a)), c, old(SlashedOf(c)), a.client, a.nodeLabel)
    ensures forall r <- CallArrays(c) :: multiset(r[..]) == multiset(old(r[..]))
  {
    OneHead(c);
    match c {
      case HeadEvent(slot, block) => a.HandleHeadEvent(slot, block);
      case ProposalTick(slot, response) => a.ProposeNewBlock(slot, response);
    }
  }

  lemma OneHead(c: Call)
    ensures RunEpochs(BlockHead(c)) == if BlockHead(c) == [] then [] else EpochTasks(c.slot)
  {
    if BlockHead(c) != [] {
      assert BlockHead(c)[..0] == [];
    }
  }

  ghost function ScriptOf(a: ClientLiveData, calls: seq<Call>): (r: Script)
    reads AllArrays(calls)
    ensures |r.slashed| == |calls| && r.calls == calls
  {
    Script(calls, SlashedOfAll(calls), a.client, a.nodeLabel)
  }

  /** The analyzer stands where the list of snapshots says. */
  ghost predicate Serving(a: ClientLiveData, r: Script, now: Snapshot)
    reads a, Objects(a.attHistory), AllArrays(r.calls)
  {
    a.Valid() && r == ScriptOf(a, r.calls) && Current(a) == now
  }

  /** Call `k` of a sequence. */
  method ServeNext(a: ClientLiveData, calls: seq<Call>, k: nat, ghost plan: seq<Snapshot>, ghost r: Script)
    requires k < |calls| && r.calls == calls && Leads(plan, r, k) && Serving(a, r, plan[k])
    modifies a, Objects(a.attHistory), AllArrays(calls)
    ensures Serving(a, r, plan[k + 1])
    ensures fresh(Objects(a.attHistory) - old(Objects(a.attHistory)))
  {
    assert CallArrays(calls[k]) <= AllArrays(calls);
    Serve(a, calls[k]);
    ReorderingKeepsAll(calls);
  }

  /** Any sequence of handler calls on one analyzer: at the end the histories are those of the
      run of their blocks and prunes, the head is the last one whose block was fetched, the
      epochs are those of these heads, and what was sent is the log. */
  method ServeAll(a: ClientLiveData, calls: seq<Call>)
    requires a.Valid()
    modifies a, Objects(a.attHistory), AllArrays(calls)
    ensures a.Valid()
    ensures a.Histories() == Run(old(a.Histories()), EventsOf(calls, |calls|), true)
    ensures a.currentHeadSlot == LastHead(old(a.currentHeadSlot), BlockHeads(calls, |calls|))
    ensures a.preparedEpochs == old(a.preparedEpochs) + RunEpochs(BlockHeads(calls, |calls|))
    ensures a.sent == old(a.sent) +
            old(Log(TraceOf(a.Histories(), a.currentHeadSlot, calls, true), ScriptOf(a, calls), |calls|))
  {
    ghost var start, r := Current(a), ScriptOf(a, calls);
    ghost var plan := AfterMeaning(start, TraceOf(start.histories, start.head, calls, true), r);
    ServePlanned(a, calls, plan, r);
  }

  method ServePlanned(a: ClientLiveData, calls: seq<Call>, ghost plan: seq<Snapshot>, ghost r: Script)
    requires r.calls == calls && |plan| == |calls| + 1 && Serving(a, r, plan[0])
    requires forall k: nat | k < |calls| :: Leads(plan, r, k)
    modifies a, Objects(a.attHistory), AllArrays(calls)
    ensures Serving(a, r, plan[|calls|])
  {
    for k := 0 to |calls|
      invariant fresh(Objects(a.attHistory) - old(Objects(a.attHistory)))
      invariant Serving(a, r, plan[k])
    {
      ServeNext(a, calls, k, plan, r);
    }
  }

  // ---------- What a run of calls leaves and sends ----------

  lemma RunEpochsOfConcat(a: seq<u64>, b: seq<u64>)
    requires |b| <= 1
    ensures RunEpochs(a + b) == RunEpochs(a) + RunEpochs(b)
  {
    if b == [] {
      assert a + b == a;
    } else {
      assert (a + b)[..|a|] == a && b[..0] == [];
    }
  }

  // ---------- The rows of the log ----------

  function HeadRowsOf(tasks: seq<WriteTask>): seq<HeadRow> {
    if tasks == [] then []
    else
      var last := tasks[|tasks| - 1];
      HeadRowsOf(tasks[..|tasks| - 1]) + if last.HeadTask? then [last.row] else []
  }

  function ScoreRowsOf(tasks: seq<WriteTask>): seq<ScoreRow> {
    if tasks == [] then []
    else
      var last := tasks[|tasks| - 1];
      ScoreRowsOf(tasks[..|tasks| - 1]) + if last.ScoreTask? then [last.score] else []
  }

  lemma {:induction false} RowsOfConcat(a: seq<WriteTask>, b: seq<WriteTask>)
    ensures HeadRowsOf(a + b) == HeadRowsOf(a) + HeadRowsOf(b)
    ensures ScoreRowsOf(a + b) == ScoreRowsOf(a) + ScoreRowsOf(b)
  {
    if b == [] {
      assert a + b == a;
    } else {
      assert (a + b)[..|a + b| - 1] == a + b[..|b| - 1];
      RowsOfConcat(a, b[..|b| - 1]);
    }
  }

  lemma {:induction false} RowsOfHeadTasks(rows: seq<HeadRow>, nodeLabel: string)
    ensures HeadRowsOf(HeadTasks(rows, nodeLabel)) == rows
    ensures ScoreRowsOf(HeadTasks(rows, nodeLabel)) == []
  {
    if rows == [] {
    } else {
      var n := |rows| - 1;
      RowsOfHeadTasks(rows[..n], nodeLabel);
      assert HeadTasks(rows, nodeLabel)[..n] == HeadTasks(rows[..n], nodeLabel);
    }
  }

  /** The score row of one call, if it sends one. */
  ghost function RowSent(s: Store, head: u64, c: Call, slashed: nat, client: string, nodeLabel: string): seq<ScoreRow> {
    if c.HeadEvent? || Unsynced(head, c.slot) then []
    else [ResponseRow(s, c.slot, c.response, slashed, client, nodeLabel)]
  }

  lemma RowsOfSends(s: Store, head: u64, c: Call, slashed: nat, client: string, nodeLabel: string)
    ensures var tasks := Sends(s, head, c, slashed, client, nodeLabel);
            && HeadRowsOf(tasks) == (if BlockHead(c) == [] then [] else HeadRows(head, c.slot))
            && ScoreRowsOf(tasks) == RowSent(s, head, c, slashed, client, nodeLabel)
  {
    if BlockHead(c) != [] {
      RowsOfHeadTasks(HeadRows(head, c.slot), nodeLabel);
    } else {
      var tasks := Sends(s, head, c, slashed, client, nodeLabel);
      assert tasks == [] || tasks[..0] == [];
    }
  }

  /** Rows call `k` adds to those of the heads before it. */
  function NewHeadRows(head: u64, calls: seq<Call>, k: nat): seq<HeadRow>
    requires k < |calls|
  {
    if BlockHead(calls[k]) == [] then [] else HeadRows(LastHead(head, BlockHeads(calls, k)), calls[k].slot)
  }

  /** One more call. */
  lemma RunRowsMore(head: u64, heads: seq<u64>, c: Call)
    ensures RunRows(head, heads + BlockHead(c)) ==
            RunRows(head, heads) + if BlockHead(c) == [] then [] else HeadRows(LastHead(head, heads), c.slot)
  {
    if BlockHead(c) == [] {
      assert heads + BlockHead(c) == heads;
    } else {
      RunRowsNext(head, heads, c.slot);
      assert BlockHead(c) == [c.slot];
    }
  }

  /** The heads after each call, and the rows that call adds. */
  ghost predicate PartOfRun(heads: seq<seq<u64>>, parts: seq<seq<HeadRow>>, head: u64, calls: seq<Call>, k: nat) {
    && k < |calls| == |parts| && |heads| == |calls| + 1
    && heads[k + 1] == heads[k] + BlockHead(calls[k])
    && parts[k] == if BlockHead(calls[k]) == [] then [] else HeadRows(LastHead(head, heads[k]), calls[k].slot)
  }

  lemma {:induction false} RunRowsInParts(heads: seq<seq<u64>>, parts: seq<seq<HeadRow>>, head: u64, calls: seq<Call>,
                                          k: nat)
    requires k <= |calls| == |parts| && |heads| == |calls| + 1 && heads[0] == []
    requires forall i: nat | i < |calls| :: PartOfRun(heads, parts, head, calls, i)
    ensures RunRows(head, heads[k]) == Flatten(parts[..k])
  {
    if k == 0 {
    } else {
      RunRowsInParts(heads, parts, head, calls, k - 1);
      assert PartOfRun(heads, parts, head, calls, k - 1);
      RunRowsMore(head, heads[k - 1], calls[k - 1]);
      FlattenPrefix(parts, k);
    }
  }

  lemma RunRowsOfCalls(head: u64, calls: seq<Call>, parts: seq<seq<HeadRow>>, k: nat)
    requires k <= |calls| == |parts|
    requires forall i: nat | i < |calls| :: parts[i] == NewHeadRows(head, calls, i)
    ensures RunRows(head, BlockHeads(calls, k)) == Flatten(parts[..k])
  {
    var heads := seq(|calls| + 1, i requires 0 <= i <= |calls| => BlockHeads(calls, i));
    RunRowsInParts(heads, parts, head, calls, k);
  }

  lemma {:induction false} HeadRowsInParts(t: Trace, r: Script, parts: seq<seq<HeadRow>>, k: nat)
    requires Traced(t, r) && k <= |r.calls| == |parts|
    requires forall i: nat | i < |r.calls| :: parts[i] == HeadRowsOf(SendsAt(t, r, i))
    ensures HeadRowsOf(Log(t, r, k)) == Flatten(parts[..k])
  {
    if k == 0 {
    } else {
      HeadRowsInParts(t, r, parts, k - 1);
      RowsOfConcat(Log(t, r, k - 1), SendsAt(t, r, k - 1));
      FlattenPrefix(parts, k);
    }
  }

  /** The head rows an analyzer sends over any calls are those of the heads whose block could
      be fetched; the ticks in between leave no trace in them. */
  lemma SentHeadRows(t: Trace, r: Script, head: u64, k: nat)
    requires Traced(t, r) && k <= |r.calls|
    requires forall i: nat | i <= |r.calls| :: HeadTraced(t, r, head, i)
    ensures HeadRowsOf(Log(t, r, k)) == RunRows(head, BlockHeads(r.calls, k))
  {
    var parts := seq(|r.calls|, i requires 0 <= i < |r.calls| => NewHeadRows(head, r.calls, i));
    forall i: nat | i < |r.calls| ensures parts[i] == HeadRowsOf(SendsAt(t, r, i)) {
      assert HeadTraced(t, r, head, i);
      RowsOfSends(t.stores[i + 1], t.heads[i], r.calls[i], r.slashed[i], r.client, r.nodeLabel);
    }
    HeadRowsInParts(t, r, parts, k);
    RunRowsOfCalls(head, r.calls, parts, k);
  }

  /** As in `TraceOf`, the head that call `k` finds is the last one whose block was fetched. */
  ghost predicate HeadTraced(t: Trace, r: Script, head: u64, k: nat) {
    Traced(t, r) && k <= |r.calls| && t.heads[k] == LastHead(head, BlockHeads(r.calls, k))
  }

  /** A new analyzer that sees increasing heads sends one row for every slot between them. */
  lemma SentTimeline(t: Trace, r: Script, k: nat, heads: seq<u64>)
    requires Traced(t, r) && k <= |r.calls| && heads == BlockHeads(r.calls, k)
    requires forall i: nat | i <= |r.calls| :: HeadTraced(t, r, 0, i)
    requires heads != [] && Increasing(heads) && heads[0] != 0
    ensures heads[0] <= heads[|heads| - 1]
    ensures HeadRowsOf(Log(t, r, k)) == Timeline(heads[0], heads[|heads| - 1], heads)
  {
    SentHeadRows(t, r, 0, k);
    IncreasingRunIsTimeline(heads);
  }

  /** Call `k` is a tick at most 32 slots after the head it finds. */
  ghost predicate SyncedTick(t: Trace, r: Script, k: nat) {
    Traced(t, r) && k < |r.calls| && r.calls[k].ProposalTick? && UpTo(r.calls[k].slot, t.heads[k], 32)
  }

  ghost function SyncedTicks(t: Trace, r: Script, n: nat): (ticks: seq<nat>)
    requires n <= |r.calls|
    ensures forall j | 0 <= j < |ticks| :: ticks[j] < n
    ensures forall i, j | 0 <= i < j < |ticks| :: ticks[i] < ticks[j]
  {
    if n == 0 then []
    else SyncedTicks(t, r, n - 1) + if SyncedTick(t, r, n - 1) then [n - 1] else []
  }

  /** These are all such ticks among the first `n` calls, in their order. */
  lemma {:induction false} SyncedTicksMeaning(t: Trace, r: Script, n: nat, k: nat)
    requires n <= |r.calls|
    ensures k in SyncedTicks(t, r, n) <==> k < n && SyncedTick(t, r, k)
  {
    if n == 0 {
    } else {
      SyncedTicksMeaning(t, r, n - 1, k);
    }
  }

  /** The row reports the response to call `k`, against the histories that its prune leaves. */
  ghost predicate ReportsCall(row: ScoreRow, t: Trace, r: Script, k: nat) {
    && Traced(t, r) && k < |r.calls| && r.calls[k].ProposalTick?
    && ReportsResponse(row, t.stores[k + 1], r.calls[k].slot, r.calls[k].response, r.slashed[k], r.client, r.nodeLabel)
  }

  lemma RowSentReports(s: Store, at: u64, c: Call, slashed: nat, client: string, nodeLabel: string)
    ensures var rows := RowSent(s, at, c, slashed, client, nodeLabel);
            && |rows| == (if c.ProposalTick? && UpTo(c.slot, at, 32) then 1 else 0)
            && (rows != [] ==> ReportsResponse(rows[0], s, c.slot, c.response, slashed, client, nodeLabel))
  {
    if c.ProposalTick? {
      UnsyncedMeaning(at, c.slot);
      ResponseRowReports(s, c.slot, c.response, slashed, client, nodeLabel);
    }
  }

  lemma {:induction false} ScoreRowsInParts(t: Trace, r: Script, parts: seq<seq<ScoreRow>>, k: nat)
    requires Traced(t, r) && k <= |r.calls| == |parts|
    requires forall i: nat | i < |r.calls| :: parts[i] == ScoreRowsOf(SendsAt(t, r, i))
    ensures ScoreRowsOf(Log(t, r, k)) == Flatten(parts[..k])
  {
    if k == 0 {
    } else {
      ScoreRowsInParts(t, r, parts, k - 1);
      RowsOfConcat(Log(t, r, k - 1), SendsAt(t, r, k - 1));
      FlattenPrefix(parts, k);
    }
  }

  /** Each of the rows satisfies `says` of the call in the same place. */
  predicate RowsSay(rows: seq<ScoreRow>, ticks: seq<nat>, says: (ScoreRow, nat) -> bool) {
    |rows| == |ticks| && forall j | 0 <= j < |rows| :: says(rows[j], ticks[j])
  }

  /** A synced tick contributes one row, and it satisfies `says`; another call contributes none. */
  ghost predicate PartSays(t: Trace, r: Script, parts: seq<seq<ScoreRow>>, says: (ScoreRow, nat) -> bool, k: nat) {
    && k < |r.calls| == |parts|
    && |parts[k]| == (if SyncedTick(t, r, k) then 1 else 0)
    && (parts[k] != [] ==> says(parts[k][0], k))
  }

  lemma {:induction false} PartsSay(t: Trace, r: Script, parts: seq<seq<ScoreRow>>, says: (ScoreRow, nat) -> bool,
                                    n: nat)
    requires n <= |r.calls| == |parts| && forall k: nat | k < |r.calls| :: PartSays(t, r, parts, says, k)
    ensures RowsSay(Flatten(parts[..n]), SyncedTicks(t, r, n), says)
  {
    if n == 0 {
    } else {
      PartsSay(t, r, parts, says, n - 1);
      FlattenPrefix(parts, n);
      assert PartSays(t, r, parts, says, n - 1);
      if parts[n - 1] != [] {
        assert parts[n - 1] == [parts[n - 1][0]];
      }
    }
  }

  lemma PartReports(t: Trace, r: Script, parts: seq<seq<ScoreRow>>, says: (ScoreRow, nat) -> bool, k: nat)
    requires Traced(t, r) && k < |r.calls| == |parts| && parts[k] == ScoreRowsOf(SendsAt(t, r, k))
    requires forall row: ScoreRow :: ReportsCall(row, t, r, k) ==> says(row, k)
    ensures PartSays(t, r, parts, says, k)
  {
    RowsOfSends(t.stores[k + 1], t.heads[k], r.calls[k], r.slashed[k], r.client, r.nodeLabel);
    RowSentReports(t.stores[k + 1], t.heads[k], r.calls[k], r.slashed[k], r.client, r.nodeLabel);
  }

  lemma RowsOfLogSay(t: Trace, r: Script, says: (ScoreRow, nat) -> bool, n: nat)
    requires Traced(t, r) && n <= |r.calls|
    requires forall row: ScoreRow, k: nat :: ReportsCall(row, t, r, k) ==> says(row, k)
    ensures RowsSay(ScoreRowsOf(Log(t, r, n)), SyncedTicks(t, r, n), says)
  {
    var parts := seq(|r.calls|, i requires 0 <= i < |r.calls| => ScoreRowsOf(SendsAt(t, r, i)));
    forall k: nat | k < |r.calls| ensures PartSays(t, r, parts, says, k) {
      PartReports(t, r, parts, says, k);
    }
    ScoreRowsInParts(t, r, parts, n);
    PartsSay(t, r, parts, says, n);
  }

  /** An analyzer sends one score row for every tick at most 32 slots after its head, in the
      order of the ticks, and each row reports the response to its tick column by column,
      whatever head events and failed or skipped requests come in between. */
  lemma SentScoreRows(t: Trace, r: Script, n: nat)
    requires Traced(t, r) && n <= |r.calls|
    ensures var rows, ticks := ScoreRowsOf(Log(t, r, n)), SyncedTicks(t, r, n);
            |rows| == |ticks| && forall j | 0 <= j < |rows| :: ReportsCall(rows[j], t, r, ticks[j])
  {
    var says: (ScoreRow, nat) -> bool := (row: ScoreRow, k: nat) => ReportsCall(row, t, r, k);
    RowsOfLogSay(t, r, says, n);
    var rows, ticks := ScoreRowsOf(Log(t, r, n)), SyncedTicks(t, r, n);
    forall j | 0 <= j < |rows| ensures ReportsCall(rows[j], t, r, ticks[j]) {
      assert says(rows[j], ticks[j]);
    }
  }

  function SlotsOf(rows: seq<ScoreRow>): (slots: seq<u64>)
    ensures |slots| == |rows|
  {
    seq(|rows|, i requires 0 <= i < |rows| => rows[i].slot)
  }

  /** A proposal carries the slot it was asked for. */
  ghost predicate AnswersKeepSlot(calls: seq<Call>) {
    forall k | 0 <= k < |calls| && calls[k].ProposalTick? && calls[k].response.Answered? ::
      calls[k].response.proposal.header.slot == Some(calls[k].slot)
  }

  /** Then the slots of these rows are those of the ticks. */
  lemma SentScoreSlots(t: Trace, r: Script, n: nat)
    requires Traced(t, r) && n <= |r.calls| && AnswersKeepSlot(r.calls)
    ensures var slots, ticks := SlotsOf(ScoreRowsOf(Log(t, r, n))), SyncedTicks(t, r, n);
            |slots| == |ticks| && forall j | 0 <= j < |ticks| :: slots[j] == r.calls[ticks[j]].slot
  {
    SentScoreRows(t, r, n);
    var rows, ticks := ScoreRowsOf(Log(t, r, n)), SyncedTicks(t, r, n);
    forall j | 0 <= j < |rows| ensures rows[j].slot == r.calls[ticks[j]].slot {
      assert ReportsCall(rows[j], t, r, ticks[j]);
    }
  }

  /** The tick slots go up. */
  ghost predicate TicksInOrder(calls: seq<Call>) {
    forall j, k | 0 <= j < k < |calls| && calls[j].ProposalTick? && calls[k].ProposalTick? ::
      calls[j].slot < calls[k].slot
  }

  /** A tick at this slot came at most 32 slots after the head. */
  ghost predicate SlotSynced(t: Trace, r: Script, n: nat, slot: u64) {
    exists k: nat :: SyncedTick(t, r, k) && k < n && r.calls[k].slot == slot
  }

  /** So when the ticks come in order, exactly one score row is sent for every such slot, with
      strictly increasing slots. */
  lemma OneRowPerSyncedSlot(t: Trace, r: Script, n: nat)
    requires Traced(t, r) && n <= |r.calls| && AnswersKeepSlot(r.calls) && TicksInOrder(r.calls)
    ensures var slots := SlotsOf(ScoreRowsOf(Log(t, r, n)));
            Increasing(slots) && forall slot: u64 :: slot in slots <==> SlotSynced(t, r, n, slot)
  {
    SentScoreSlots(t, r, n);
    SlotsOfTicks(t, r, n, SlotsOf(ScoreRowsOf(Log(t, r, n))));
  }

  lemma SlotsOfTicks(t: Trace, r: Script, n: nat, slots: seq<u64>)
    requires n <= |r.calls| && TicksInOrder(r.calls) && |slots| == |SyncedTicks(t, r, n)|
    requires forall j | 0 <= j < |slots| :: slots[j] == r.calls[SyncedTicks(t, r, n)[j]].slot
    ensures Increasing(slots)
    ensures forall slot: u64 :: slot in slots <==> SlotSynced(t, r, n, slot)
  {
    var ticks := SyncedTicks(t, r, n);
    forall j | 0 <= j < |ticks| ensures SyncedTick(t, r, ticks[j]) && SlotSynced(t, r, n, slots[j]) {
      assert ticks[j] in ticks;
      SyncedTicksMeaning(t, r, n, ticks[j]);
    }
    forall slot: u64 | SlotSynced(t, r, n, slot) ensures slot in slots {
      var k: nat :| SyncedTick(t, r, k) && k < n && r.calls[k].slot == slot;
      SyncedTicksMeaning(t, r, n, k);
      var j :| 0 <= j < |ticks| && ticks[j] == k;
      assert slots[j] == slot;
    }
  }

  /** Every task carries the label of the node. */
  ghost predicate Labelled(tasks: seq<WriteTask>, nodeLabel: string) {
    forall t <- tasks :: nodeLabel == if t.HeadTask? then t.nodeLabel else t.score.nodeLabel
  }

  lemma {:induction false} LogIsLabelled(t: Trace, r: Script, k: nat)
    requires Traced(t, r) && k <= |r.calls|
    ensures Labelled(Log(t, r, k), r.nodeLabel)
  {
    if k == 0 {
    } else {
      LogIsLabelled(t, r, k - 1);
      SendsAreLabelled(t.stores[k], t.heads[k - 1], r.calls[k - 1], r.slashed[k - 1], r.client, r.nodeLabel);
    }
  }

  lemma SendsAreLabelled(s: Store, head: u64, c: Call, slashed: nat, client: string, nodeLabel: string)
    ensures Labelled(Sends(s, head, c, slashed, client, nodeLabel), nodeLabel)
  {
    if c.ProposalTick? {
      ResponseRowReports(s, c.slot, c.response, slashed, client, nodeLabel);
    }
  }

  // ---------- Pruning does not show ----------

  /** Every attestation scored at call `k` lies in the window of the prunes so far. */
  ghost predicate CallInWindow(calls: seq<Call>, k: nat)
    requires k < |calls|
  {
    calls[k].ProposalTick? && calls[k].response.Answered? ==>
      forall a <- calls[k].response.proposal.atts ::
        VoteKept(a.slot, HighestPrune(EventsOf(calls, k + 1))) && !EpochStartWraps(a.slot)
  }

  /** Then everything an analyzer ever sends is what it would have sent without pruning. */
  lemma LogSurvivesPruning(s: Store, head: u64, r: Script, n: nat)
    requires |r.slashed| == |r.calls| && n <= |r.calls| && forall k | 0 <= k < n :: CallInWindow(r.calls, k)
    ensures Log(TraceOf(s, head, r.calls, true), r, n) == Log(TraceOf(s, head, r.calls, false), r, n)
  {
    var t, u := TraceOf(s, head, r.calls, true), TraceOf(s, head, r.calls, false);
    forall k | 0 <= k < n ensures SendsAt(t, r, k) == SendsAt(u, r, k) {
      CallSurvivesPruning(s, head, r, k);
    }
    SameLog(t, u, r, n);
  }

  lemma {:induction false} SameLog(t: Trace, u: Trace, r: Script, n: nat)
    requires Traced(t, r) && Traced(u, r) && n <= |r.calls|
    requires forall k | 0 <= k < n :: SendsAt(t, r, k) == SendsAt(u, r, k)
    ensures Log(t, r, n) == Log(u, r, n)
  {
    if n == 0 {
    } else {
      SameLog(t, u, r, n - 1);
    }
  }

  lemma CallSurvivesPruning(s: Store, head: u64, r: Script, k: nat)
    requires |r.slashed| == |r.calls| && k < |r.calls| && CallInWindow(r.calls, k)
    ensures SendsAt(TraceOf(s, head, r.calls, true), r, k) == SendsAt(TraceOf(s, head, r.calls, false), r, k)
  {
    var t, u, c := TraceOf(s, head, r.calls, true), TraceOf(s, head, r.calls, false), r.calls[k];
    if c.ProposalTick? && c.response.Answered? {
      RowSurvivesPruning(s, EventsOf(r.calls, k + 1), c.response.proposal, r.slashed[k], r.client, r.nodeLabel);
    }
    SameSends(t.stores[k + 1], u.stores[k + 1], t.heads[k], c, r.slashed[k], r.client, r.nodeLabel);
  }

  lemma SameSends(s: Store, t: Store, head: u64, c: Call, slashed: nat, client: string, nodeLabel: string)
    requires c.ProposalTick? && c.response.Answered? ==>
               ScoredRow(s, c.response.proposal, slashed, client, nodeLabel) ==
               ScoredRow(t, c.response.proposal, slashed, client, nodeLabel)
    ensures Sends(s, head, c, slashed, client, nodeLabel) == Sends(t, head, c, slashed, client, nodeLabel)
  {}

  lemma HighestPruneNext(es: seq<Event>, c: Call)
    ensures HighestPrune(es + EventsOfCall(c)) ==
            if c.ProposalTick? && HighestPrune(es) < c.slot then c.slot else HighestPrune(es)
  {
    if EventsOfCall(c) == [] {
      assert es + EventsOfCall(c) == es;
    } else {
      RunNext(Store(EMPTY, map[]), es, EventsOfCall(c)[0]);
      assert EventsOfCall(c) == [EventsOfCall(c)[0]];
    }
  }

  lemma {:induction false} PrunesBelow(calls: seq<Call>, n: nat, slot: u64)
    requires n <= |calls| && forall k | 0 <= k < n && calls[k].ProposalTick? :: calls[k].slot <= slot
    ensures HighestPrune(EventsOf(calls, n)) <= slot
  {
    if n == 0 {
    } else {
      PrunesBelow(calls, n - 1, slot);
      OnePruneBelow(EventsOf(calls, n - 1), calls[n - 1], slot);
    }
  }

  lemma OnePruneBelow(es: seq<Event>, c: Call, slot: u64)
    requires HighestPrune(es) <= slot && (c.ProposalTick? ==> c.slot <= slot)
    ensures HighestPrune(es + EventsOfCall(c)) <= slot
  {
    HighestPruneNext(es, c);
  }

  /** Every attestation scored at a tick is at most 32 slots older than the tick, counting
      through the wrap. */
  ghost predicate ScoredNearTick(calls: seq<Call>) {
    forall k, a | 0 <= k < |calls| && calls[k].ProposalTick? && calls[k].response.Answered?
      && a in calls[k].response.proposal.atts :: UpTo(calls[k].slot, a.slot, 32) && !EpochStartWraps(a.slot)
  }

  /** When the ticks come in order, the highest prune is always that of the latest tick; so
      the log is the same without pruning when every scored attestation is near its tick. */
  lemma InOrderLogSurvivesPruning(s: Store, head: u64, r: Script, n: nat)
    requires |r.slashed| == |r.calls| && n <= |r.calls| && TicksInOrder(r.calls) && ScoredNearTick(r.calls)
    ensures Log(TraceOf(s, head, r.calls, true), r, n) == Log(TraceOf(s, head, r.calls, false), r, n)
  {
    forall k | 0 <= k < n ensures CallInWindow(r.calls, k) {
      NearTickIsInWindow(r.calls, k);
    }
    LogSurvivesPruning(s, head, r, n);
  }

  lemma NearTickIsInWindow(calls: seq<Call>, k: nat)
    requires k < |calls| && TicksInOrder(calls) && ScoredNearTick(calls)
    ensures CallInWindow(calls, k)
  {
    if calls[k].ProposalTick? {
      PrunesBelow(calls, k, calls[k].slot);
      HighestPruneNext(EventsOf(calls, k), calls[k]);
      forall a: u64, slot: u64 ensures VoteKept(a, slot) <==> UpTo(slot, a, 32) {
        WindowsMeaning(a, slot);
      }
    }
  }

  /** No handler call records a root: over any calls the root history only shrinks, to what the
      highest prune leaves of it. */
  lemma RootsAfterCalls(s: Store, calls: seq<Call>, n: nat)
    requires n <= |calls|
    ensures Run(s, EventsOf(calls, n), true).roots == PruneRoots(s.roots, HighestPrune(EventsOf(calls, n)))
  {
    CallsRecordNoRoot(calls, n);
    RootsOnlyShrink(s, EventsOf(calls, n));
  }

  lemma {:induction false} CallsRecordNoRoot(calls: seq<Call>, n: nat)
    requires n <= |calls|
    ensures forall e <- EventsOf(calls, n) :: !e.Recorded?
  {
    if n == 0 {
    } else {
      CallsRecordNoRoot(calls, n - 1);
    }
  }
}
