/** The start of the main routine: the histories of all analyzers are built until a whole pass
    finds nothing to fill. */
module MainRoutine {
  import opened U64
  import opened Bitlists
  import opened PrunedRuns
  import opened HistoryBuilder
  import opened Analyzer

  // ---------- Building until nothing is left ----------

  /** The head each analyzer's node reports during one pass. */
  type Heads = seq<u64>

  /** One head for every analyzer; a node whose head is slot 64 serves some block, or its scan
      would go around the unsigned range for ever. */
  ghost predicate Answerable(chains: seq<Chain>, heads: Heads, n: nat) {
    && |chains| == |heads| == n
    && forall i | 0 <= i < n :: heads[i] == 64 ==> chains[i] != map[]
  }

  /** Every analyzer's head was already recorded. */
  ghost predicate NothingLeft(heads: Heads, stores: seq<Store>) {
    |heads| == |stores| && forall i | 0 <= i < |stores| :: heads[i] in stores[i].roots
  }

  ghost function Pass(chains: seq<Chain>, heads: Heads, stores: seq<Store>): (after: seq<Store>)
    requires Answerable(chains, heads, |stores|)
    ensures |after| == |stores|
  {
    seq(|stores|, i requires 0 <= i < |stores| => Scan(chains[i], stores[i], heads[i], 0))
  }

  ghost predicate AllAnswerable(chains: seq<Chain>, answers: seq<Heads>, n: nat) {
    forall p | 0 <= p < |answers| :: Answerable(chains, answers[p], n)
  }

  /** The histories after the first `p` passes. */
  ghost function Passes(chains: seq<Chain>, answers: seq<Heads>, stores: seq<Store>, p: nat): (after: seq<Store>)
    requires p <= |answers| && AllAnswerable(chains, answers, |stores|)
    ensures |after| == |stores|
  {
    if p == 0 then stores else Pass(chains, answers[p - 1], Passes(chains, answers, stores, p - 1))
  }

  ghost function Stores(analyzers: seq<ClientLiveData>): (s: seq<Store>)
    reads analyzers
    ensures |s| == |analyzers|
  {
    seq(|analyzers|, i requires 0 <= i < |analyzers| reads analyzers => analyzers[i].Histories())
  }

  /** The objects one analyzer may change. */
  ghost function Footprint(a: ClientLiveData): set<object>
    reads a
  {
    {a} + Objects(a.attHistory)
  }

  /** All analyzers are valid, share no object, and live in `repr`. */
  ghost predicate AllValid(analyzers: seq<ClientLiveData>, repr: set<object>)
    reads analyzers, repr
  {
    && (forall i, j | 0 <= i < j < |analyzers| :: Footprint(analyzers[i]) !! Footprint(analyzers[j]))
    && forall i | 0 <= i < |analyzers| :: Footprint(analyzers[i]) <= repr && analyzers[i].Valid()
  }

  lemma Disjoint(analyzers: seq<ClientLiveData>, repr: set<object>, i: nat, j: nat)
    requires AllValid(analyzers, repr) && i < |analyzers| && j < |analyzers| && i != j
    ensures Footprint(analyzers[i]) !! Footprint(analyzers[j])
  {}

  /** Building one analyzer's history leaves the others alone. */
  method BuildOne(analyzers: seq<ClientLiveData>, i: nat, chain: Chain, head: u64, ghost repr: set<object>)
    returns (ok: bool, ghost repr': set<object>)
    requires AllValid(analyzers, repr) && i < |analyzers| && (head == 64 ==> chain != map[])
    modifies repr
    ensures AllValid(analyzers, repr') && repr <= repr' && fresh(repr' - repr)
    ensures ok <==> head in old(analyzers[i].blockRootHistory)
    ensures Stores(analyzers) == old(Stores(analyzers))[i := Scan(chain, old(Stores(analyzers))[i], head, 0)]
  {
    forall j | 0 <= j < |analyzers| && j != i
      ensures Footprint(analyzers[i]) !! Footprint(analyzers[j])
    {
      Disjoint(analyzers, repr, i, j);
    }
    ok := analyzers[i].BuildHistory(chain, head);
    repr' := repr + Footprint(analyzers[i]);
    forall j | 0 <= j < |analyzers| && j != i
      ensures analyzers[j].Valid() && Footprint(analyzers[j]) == old(Footprint(analyzers[j]))
      ensures Footprint(analyzers[i]) !! Footprint(analyzers[j])
    {
      assert old(analyzers[j].Valid());
    }
  }

  /** The first `i` analyzers have scanned, the others not yet. */
  ghost predicate PassedUpTo(chains: seq<Chain>, heads: Heads, before: seq<Store>, i: nat, now: seq<Store>) {
    && Answerable(chains, heads, |before|) && |now| == |before|
    && forall j | 0 <= j < |now| :: now[j] == if j < i then Scan(chains[j], before[j], heads[j], 0) else before[j]
  }

  lemma PassedNext(chains: seq<Chain>, heads: Heads, before: seq<Store>, i: nat, now: seq<Store>)
    requires PassedUpTo(chains, heads, before, i, now) && i < |now|
    ensures now[i] == before[i]
    ensures PassedUpTo(chains, heads, before, i + 1, now[i := Scan(chains[i], now[i], heads[i], 0)])
  {}

  lemma PassedAll(chains: seq<Chain>, heads: Heads, before: seq<Store>, now: seq<Store>)
    requires PassedUpTo(chains, heads, before, |before|, now)
    ensures now == Pass(chains, heads, before)
  {}

  /** One pass over the analyzers: true when every head was recorded already. */
  method BuildPass(analyzers: seq<ClientLiveData>, chains: seq<Chain>, heads: Heads, ghost repr: set<object>)
    returns (historyBuilt: bool, ghost repr': set<object>)
    requires AllValid(analyzers, repr) && Answerable(chains, heads, |analyzers|)
    modifies repr
    ensures AllValid(analyzers, repr') && repr <= repr' && fresh(repr' - repr)
    ensures historyBuilt <==> NothingLeft(heads, old(Stores(analyzers)))
    ensures Stores(analyzers) == Pass(chains, heads, old(Stores(analyzers)))
  {
    ghost var before := Stores(analyzers);
    historyBuilt, repr' := true, repr;
    for i := 0 to |analyzers|
      invariant AllValid(analyzers, repr') && repr <= repr' && fresh(repr' - repr)
      invariant historyBuilt <==> forall j | 0 <= j < i :: heads[j] in before[j].roots
      invariant PassedUpTo(chains, heads, before, i, Stores(analyzers))
    {
      PassedNext(chains, heads, before, i, Stores(analyzers));
      var ok;
      ok, repr' := BuildOne(analyzers, i, chains[i], heads[i], repr');
      if !ok {
        historyBuilt := false;
      }
    }
    PassedAll(chains, heads, before, Stores(analyzers));
  }

  /** Pass `p` of the answers finds every head recorded by the passes before it. */
  ghost predicate BuiltAt(chains: seq<Chain>, answers: seq<Heads>, stores: seq<Store>, p: nat)
    requires p < |answers| && AllAnswerable(chains, answers, |stores|)
  {
    NothingLeft(answers[p], Passes(chains, answers, stores, p))
  }

  /** The histories pass by pass. */
  ghost function Plan(chains: seq<Chain>, answers: seq<Heads>, start: seq<Store>): (plan: seq<seq<Store>>)
    requires AllAnswerable(chains, answers, |start|)
    ensures |plan| == |answers| + 1
  {
    seq(|answers| + 1, p requires 0 <= p <= |answers| => Passes(chains, answers, start, p))
  }

  /** Where the build loop stands after `p` passes: of these none found everything recorded,
      except the last if `built`. */
  ghost predicate Progress(answers: seq<Heads>, plan: seq<seq<Store>>, p: nat, built: bool, now: seq<Store>) {
    && p < |plan| == |answers| + 1
    && now == plan[p]
    && (built ==> p > 0)
    && forall q | 0 <= q < p :: NothingLeft(answers[q], plan[q]) <==> built && q == p - 1
  }

  lemma PlanNext(chains: seq<Chain>, answers: seq<Heads>, start: seq<Store>, p: nat)
    requires AllAnswerable(chains, answers, |start|) && p < |answers|
    ensures Answerable(chains, answers[p], |start|)
    ensures |Plan(chains, answers, start)[p]| == |start|
    ensures Plan(chains, answers, start)[p + 1] == Pass(chains, answers[p], Plan(chains, answers, start)[p])
  {}

  /** Round `p` of the build loop. */
  method BuildRound(analyzers: seq<ClientLiveData>, chains: seq<Chain>, answers: seq<Heads>, p: nat,
                    ghost plan: seq<seq<Store>>, ghost repr: set<object>)
    returns (historyBuilt: bool, ghost repr': set<object>)
    requires AllValid(analyzers, repr) && p < |answers|
    requires Answerable(chains, answers[p], |analyzers|) && Progress(answers, plan, p, false, Stores(analyzers))
    requires plan[p + 1] == Pass(chains, answers[p], plan[p])
    modifies repr
    ensures AllValid(analyzers, repr') && fresh(repr' - repr)
    ensures Progress(answers, plan, p + 1, historyBuilt, Stores(analyzers))
  {
    historyBuilt, repr' := BuildPass(analyzers, chains, answers[p], repr);
  }

  /** The build loop: passes are repeated until one finds nothing to fill. `answers` are the
      heads the nodes report, pass by pass; the loop stops at the first pass in which every
      analyzer's head was recorded already, or when the answers run out. */
  method BuildHistories(analyzers: seq<ClientLiveData>, chains: seq<Chain>, answers: seq<Heads>,
                        ghost repr: set<object>)
    returns (historyBuilt: bool, passes: nat, ghost repr': set<object>)
    requires AllValid(analyzers, repr) && AllAnswerable(chains, answers, |analyzers|)
    modifies repr
    ensures AllValid(analyzers, repr') && fresh(repr' - repr)
    ensures historyBuilt || passes == |answers|
    ensures Progress(answers, Plan(chains, answers, old(Stores(analyzers))), passes, historyBuilt, Stores(analyzers))
  {
    ghost var start := Stores(analyzers);
    ghost var plan := Plan(chains, answers, start);
    historyBuilt, passes, repr' := false, 0, repr;
    while !historyBuilt && passes < |answers|
      invariant fresh(repr' - repr)
      invariant AllValid(analyzers, repr')
      invariant Progress(answers, plan, passes, historyBuilt, Stores(analyzers))
      decreases |answers| - passes
    {
      PlanNext(chains, answers, start, passes);
      historyBuilt, repr' := BuildRound(analyzers, chains, answers, passes, plan, repr');
      passes := passes + 1;
    }
  }

  /** The head of this analyzer is recorded already, or one scan will record it: from slot 64
      on, if its block is available. */
  predicate CanBeBuilt(chain: Chain, head: u64, s: Store) {
    head in s.roots || (head >= 64 && head in chain)
  }

  /** A pass leaves nothing to fill if and only if every head could be built. */
  lemma PassFillsIff(chains: seq<Chain>, heads: Heads, stores: seq<Store>)
    requires Answerable(chains, heads, |stores|)
    ensures NothingLeft(heads, Pass(chains, heads, stores)) <==>
            forall i | 0 <= i < |stores| :: CanBeBuilt(chains[i], heads[i], stores[i])
    ensures NothingLeft(heads, stores) ==> Pass(chains, heads, stores) == stores
  {
    forall i | 0 <= i < |stores|
      ensures heads[i] in Pass(chains, heads, stores)[i].roots <==> CanBeBuilt(chains[i], heads[i], stores[i])
    {
      HeadRecordedIff(chains[i], stores[i], heads[i]);
    }
  }

  lemma {:induction false} HeadRecordedByPasses(chains: seq<Chain>, answers: seq<Heads>, stores: seq<Store>,
                                                heads: Heads, i: nat, p: nat)
    requires AllAnswerable(chains, answers, |stores|) && i < |stores|
    requires 0 < p <= |answers| && forall q | 0 <= q < |answers| :: answers[q] == heads
    ensures |chains| == |heads| == |stores|
    ensures heads[i] in Passes(chains, answers, stores, p)[i].roots <==> CanBeBuilt(chains[i], heads[i], stores[i])
  {
    assert answers[p - 1] == heads;
    HeadRecordedIff(chains[i], Passes(chains, answers, stores, p - 1)[i], heads[i]);
    if p > 1 {
      HeadRecordedByPasses(chains, answers, stores, heads, i, p - 1);
    }
  }

  /** When every node goes on reporting the same head, the second pass ends the loop if every
      head could be built; otherwise no pass ever does. A single head below slot 64, or one
      whose block cannot be fetched, blocks the loop for all analyzers. */
  lemma SteadyHeadsEndTheLoop(chains: seq<Chain>, answers: seq<Heads>, stores: seq<Store>, heads: Heads, p: nat)
    requires AllAnswerable(chains, answers, |stores|)
    requires 0 < p < |answers| && forall q | 0 <= q < |answers| :: answers[q] == heads
    ensures |chains| == |heads| == |stores|
    ensures BuiltAt(chains, answers, stores, p) <==>
            forall i | 0 <= i < |stores| :: CanBeBuilt(chains[i], heads[i], stores[i])
    ensures BuiltAt(chains, answers, stores, 0) ==> BuiltAt(chains, answers, stores, p)
  {
    assert answers[p] == heads;
    forall i | 0 <= i < |stores|
      ensures heads[i] in Passes(chains, answers, stores, p)[i].roots <==> CanBeBuilt(chains[i], heads[i], stores[i])
    {
      HeadRecordedByPasses(chains, answers, stores, heads, i, p);
    }
  }

  /** So over steady answers the loop, which returns in this state, has built every history,
      after at most two passes, if every head could be built, and never otherwise. */
  lemma SteadyLoopResult(chains: seq<Chain>, answers: seq<Heads>, stores: seq<Store>, heads: Heads,
                         passes: nat, built: bool, now: seq<Store>)
    requires AllAnswerable(chains, answers, |stores|)
    requires |answers| >= 2 && forall q | 0 <= q < |answers| :: answers[q] == heads
    requires Progress(answers, Plan(chains, answers, stores), passes, built, now)
    requires built || passes == |answers|
    ensures |chains| == |heads| == |stores|
    ensures built <==> forall i | 0 <= i < |stores| :: CanBeBuilt(chains[i], heads[i], stores[i])
    ensures built ==> passes <= 2
  {
    SteadyHeadsEndTheLoop(chains, answers, stores, heads, 1);
    if built && passes >= 2 {
      SteadyHeadsEndTheLoop(chains, answers, stores, heads, passes - 1);
    }
    assert BuiltAt(chains, answers, stores, 1) <==> NothingLeft(answers[1], Plan(chains, answers, stores)[1]);
  }

  // ---------- Heads that move while the histories are built ----------

  /** No head moves back from one pass to the next. */
  ghost predicate NotBack(before: Heads, after: Heads) {
    |before| == |after| && forall i | 0 <= i < |before| :: before[i] <= after[i]
  }

  /** Nor is any slot 64, from where a scan reaches around the unsigned range. */
  ghost predicate MovingOn(answers: seq<Heads>) {
    && (forall p | 0 < p < |answers| :: NotBack(answers[p - 1], answers[p]))
    && (forall p | 0 <= p < |answers| :: 64 !in answers[p])
  }

  /** At pass `p` no head has moved since the last pass, and each could be built. */
  ghost predicate NoneMoved(chains: seq<Chain>, answers: seq<Heads>, p: nat, n: nat)
    requires p < |answers| && AllAnswerable(chains, answers, n)
  {
    p > 0 && answers[p] == answers[p - 1] && forall i | 0 <= i < n :: answers[p][i] >= 64 && answers[p][i] in chains[i]
  }

  lemma {:induction false} PassesReach(chains: seq<Chain>, answers: seq<Heads>, stores: seq<Store>, i: nat, p: nat)
    requires AllAnswerable(chains, answers, |stores|) && i < |stores| && stores[i].roots == map[]
    requires MovingOn(answers) && 0 < p <= |answers|
    ensures |chains| == |answers[p - 1]| == |stores|
    ensures Reached(chains[i], Passes(chains, answers, stores, p)[i], answers[p - 1][i])
  {
    assert Answerable(chains, answers[p - 1], |stores|);
    if p == 1 {
      NextReached(chains[i], stores[i], 0, answers[0][i]);
    } else {
      PassesReach(chains, answers, stores, i, p - 1);
      NextReached(chains[i], Passes(chains, answers, stores, p - 1)[i], answers[p - 2][i], answers[p - 1][i]);
    }
  }

  /** For analyzers that start with nothing recorded, the loop stops at the first pass at which no
      head has moved since the last one and every head could be built. */
  lemma MovingHeadsEndTheLoop(chains: seq<Chain>, answers: seq<Heads>, stores: seq<Store>, p: nat)
    requires AllAnswerable(chains, answers, |stores|) && stores != []
    requires forall i | 0 <= i < |stores| :: stores[i].roots == map[]
    requires MovingOn(answers) && p < |answers|
    ensures BuiltAt(chains, answers, stores, p) <==> NoneMoved(chains, answers, p, |stores|)
  {
    assert Answerable(chains, answers[p], |stores|);
    if p == 0 {
      assert answers[0][0] !in stores[0].roots;
    } else {
      assert Answerable(chains, answers[p - 1], |stores|);
      forall i | 0 <= i < |stores|
        ensures answers[p][i] in Passes(chains, answers, stores, p)[i].roots <==>
                answers[p][i] == answers[p - 1][i] && answers[p][i] >= 64 && answers[p][i] in chains[i]
      {
        PassesReach(chains, answers, stores, i, p);
      }
    }
  }

  /** Every head is above 64 with its block available. */
  ghost predicate HeadsAvailable(chains: seq<Chain>, heads: Heads) {
    forall i | 0 <= i < |heads| && i < |chains| :: heads[i] > 64 && heads[i] in chains[i]
  }

  ghost predicate Repeated(answers: seq<Heads>, p: int) {
    0 < p < |answers| && answers[p] == answers[p - 1]
  }

  lemma FirstRepeated(answers: seq<Heads>, plan: seq<seq<Store>>, passes: nat, built: bool, now: seq<Store>)
    requires Progress(answers, plan, passes, built, now)
    requires forall p | 0 <= p < passes :: NothingLeft(answers[p], plan[p]) <==> Repeated(answers, p)
    ensures built ==> Repeated(answers, passes - 1)
    ensures forall p | 0 <= p < passes && Repeated(answers, p) :: built && p == passes - 1
  {
    if built {
      assert NothingLeft(answers[passes - 1], plan[passes - 1]);
    }
    forall p | 0 <= p < passes && Repeated(answers, p) ensures built && p == passes - 1 {
      assert NothingLeft(answers[p], plan[p]);
    }
  }

  /** When all heads are available, that is the first pass at which no head has moved. */
  lemma MovingLoopResult(chains: seq<Chain>, answers: seq<Heads>, stores: seq<Store>,
                         passes: nat, built: bool, now: seq<Store>)
    requires AllAnswerable(chains, answers, |stores|) && stores != []
    requires forall i | 0 <= i < |stores| :: stores[i].roots == map[]
    requires MovingOn(answers) && forall p | 0 <= p < |answers| :: HeadsAvailable(chains, answers[p])
    requires Progress(answers, Plan(chains, answers, stores), passes, built, now)
    requires built || passes == |answers|
    ensures built ==> Repeated(answers, passes - 1)
    ensures forall p | 0 <= p < passes && Repeated(answers, p) :: built && p == passes - 1
  {
    var plan := Plan(chains, answers, stores);
    forall p | 0 <= p < passes ensures NothingLeft(answers[p], plan[p]) <==> Repeated(answers, p) {
      StopsWhenNoneMoved(chains, answers, stores, p);
    }
    FirstRepeated(answers, plan, passes, built, now);
  }

  lemma StopsWhenNoneMoved(chains: seq<Chain>, answers: seq<Heads>, stores: seq<Store>, p: nat)
    requires AllAnswerable(chains, answers, |stores|) && stores != []
    requires forall i | 0 <= i < |stores| :: stores[i].roots == map[]
    requires MovingOn(answers) && p < |answers| && HeadsAvailable(chains, answers[p])
    ensures NothingLeft(answers[p], Plan(chains, answers, stores)[p]) <==> Repeated(answers, p)
  {
    assert Answerable(chains, answers[p], |stores|);
    MovingHeadsEndTheLoop(chains, answers, stores, p);
  }

  // ---------- Heads that block the loop ----------

  /** A single analyzer whose node stays below slot 64 keeps the loop from ever stopping. */
  lemma {:induction false} YoungNodeBlocksTheLoop(chains: seq<Chain>, answers: seq<Heads>, stores: seq<Store>, i: nat,
                                                  p: nat)
    requires AllAnswerable(chains, answers, |stores|) && p < |answers|
    requires i < |stores| && stores[i].roots == map[]
    requires forall q | 0 <= q < |answers| && |answers[q]| == |stores| :: answers[q][i] < 64
    ensures Passes(chains, answers, stores, p)[i] == stores[i]
    ensures !BuiltAt(chains, answers, stores, p)
  {
    if p > 0 {
      YoungNodeBlocksTheLoop(chains, answers, stores, i, p - 1);
      YoungChainNeverBuilds(chains[i], stores[i], answers[p - 1][i]);
    }
  }

  /** So does one whose reported heads never have a block. */
  lemma {:induction false} UnfetchableHeadBlocksTheLoop(chains: seq<Chain>, answers: seq<Heads>, stores: seq<Store>,
                                                        i: nat, p: nat)
    requires AllAnswerable(chains, answers, |stores|) && p < |answers|
    requires i < |stores| && stores[i].roots == map[]
    requires forall q | 0 <= q < |answers| && |answers[q]| == |stores| :: answers[q][i] !in chains[i]
    ensures |chains| == |stores| && Passes(chains, answers, stores, p)[i].roots.Keys <= chains[i].Keys
    ensures !BuiltAt(chains, answers, stores, p)
  {
    if p > 0 {
      UnfetchableHeadBlocksTheLoop(chains, answers, stores, i, p - 1);
      ScanAddsAvailable(chains[i], Passes(chains, answers, stores, p - 1)[i], answers[p - 1][i], 0);
    }
    assert |answers[p]| == |stores|;
  }
}
