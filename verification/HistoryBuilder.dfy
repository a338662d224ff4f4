/** The initial history: a downward scan from the head over the last 64 slots that stops at
    the first slot already recorded, repeated until the head itself is recorded. */
module HistoryBuilder {
  import opened U64
  import opened Votes
  import opened PrunedRuns

  datatype Block = Block(root: Root, atts: seq<Attestation>)

  /** The blocks the beacon node serves; every other slot is a missed one. */
  type Chain = map<u64, Block>

  /** Effect of one visited slot: its root is recorded, and its votes if it is at most 32
      slots behind the head. */
  function FillAt(chain: Chain, s: Store, head: u64, i: u64): Store {
    if i !in chain then s
    else Store(if Add(i, VOTE_WINDOW) >= head then Absorb(s.hist, chain[i].atts) else s.hist,
               s.roots[i := chain[i].root])
  }

  /** The slot visited after `k` decrements of the unsigned counter. */
  function Back(head: u64, k: nat): u64
    requires k <= 2 * TWO64
  {
    var d := head - k;
    if d >= 0 then d else if d + TWO64 >= 0 then d + TWO64 else d + 2 * TWO64
  }

  /** The scan goes over 65 slots; except for head 64, whose lower bound 0 every unsigned slot
      meets: there only a recorded slot can stop it, at the latest one that the scan itself
      records on its first way around. */
  function MaxVisits(head: u64): nat {
    if head == 64 then 2 * TWO64 else 65
  }

  /** The scan from head 64 will meet slot `a` recorded. */
  predicate WillMeet(chain: Chain, s: Store, head: u64, k: nat, a: u64) {
    (a in s.roots && k <= Sub(head, a) + TWO64) || (a in chain && k <= Sub(head, a))
  }

  /** The scan ends: it has a lower bound, or there is a slot to stop it. At the start this
      fails only at head 64, with no slot recorded and no block available at all. */
  ghost predicate ScanEnds(chain: Chain, s: Store, head: u64, k: nat) {
    && k <= MaxVisits(head)
    && (head == 64 ==>
          if k == 0 then s.roots.Keys + chain.Keys != {} else exists a: u64 :: WillMeet(chain, s, head, k, a))
  }

  lemma ScanGoesOn(chain: Chain, s: Store, head: u64, k: nat)
    requires ScanEnds(chain, s, head, k) && Sub(head, 64) <= Back(head, k) && Back(head, k) !in s.roots
    ensures k < MaxVisits(head) && ScanEnds(chain, FillAt(chain, s, head, Back(head, k)), head, k + 1)
  {
    if head == 64 {
      var a: u64 :| if k == 0 then a in s.roots.Keys + chain.Keys else WillMeet(chain, s, head, k, a);
      assert WillMeet(chain, s, head, k, a);
      assert WillMeet(chain, FillAt(chain, s, head, Back(head, k)), head, k + 1, a);
    }
  }

  /** The rest of the scan, from the `k`-th slot on. */
  ghost function Scan(chain: Chain, s: Store, head: u64, k: nat): Store
    requires ScanEnds(chain, s, head, k)
    decreases MaxVisits(head) - k
  {
    var i := Back(head, k);
    if i < Sub(head, 64) || i in s.roots then s
    else
      ScanGoesOn(chain, s, head, k);
      Scan(chain, FillAt(chain, s, head, i), head, k + 1)
  }

  /** One more visited slot. */
  lemma ScanStep(chain: Chain, s: Store, head: u64, k: nat)
    requires ScanEnds(chain, s, head, k) && Back(head, k) >= Sub(head, 64)
    ensures Back(head, k) in s.roots ==> Scan(chain, s, head, k) == s
    ensures Back(head, k) !in s.roots ==>
              var next := FillAt(chain, s, head, Back(head, k));
              && k < MaxVisits(head) && ScanEnds(chain, next, head, k + 1)
              && Scan(chain, s, head, k) == Scan(chain, next, head, k + 1)
              && Sub(Back(head, k), 1) == Back(head, k + 1)
  {
    if Back(head, k) !in s.roots {
      ScanGoesOn(chain, s, head, k);
    }
  }

  /** With `k` slots visited, what is left of the scan leads from `now` to `result`. */
  ghost predicate Scanning(chain: Chain, now: Store, head: u64, k: nat, result: Store) {
    ScanEnds(chain, now, head, k) && Scan(chain, now, head, k) == result
  }

  lemma ScanStops(chain: Chain, now: Store, head: u64, k: nat, result: Store)
    requires Scanning(chain, now, head, k, result)
    requires Back(head, k) < Sub(head, 64) || Back(head, k) in now.roots
    ensures now == result
  {}

  function FillEvents(chain: Chain, head: u64, i: u64): seq<Event> {
    if i !in chain then []
    else [Recorded(i, chain[i].root)] + if Add(i, VOTE_WINDOW) >= head then [Absorbed(chain[i].atts)] else []
  }

  /** The blocks and roots a scan takes in, newest first. */
  ghost function ScanEvents(chain: Chain, s: Store, head: u64, k: nat): seq<Event>
    requires ScanEnds(chain, s, head, k)
    decreases MaxVisits(head) - k
  {
    var i := Back(head, k);
    if i < Sub(head, 64) || i in s.roots then []
    else
      ScanGoesOn(chain, s, head, k);
      FillEvents(chain, head, i) + ScanEvents(chain, FillAt(chain, s, head, i), head, k + 1)
  }

  lemma FillIsRun(chain: Chain, s: Store, head: u64, i: u64, pruning: bool)
    ensures Run(s, FillEvents(chain, head, i), pruning) == FillAt(chain, s, head, i)
  {
    if i in chain {
      RunNext(s, [], Recorded(i, chain[i].root));
      RunNext(s, [] + [Recorded(i, chain[i].root)], Absorbed(chain[i].atts));
      assert [] + [Recorded(i, chain[i].root)] == [Recorded(i, chain[i].root)];
    }
  }

  lemma FillThenRun(chain: Chain, s: Store, head: u64, i: u64, rest: seq<Event>, pruning: bool)
    ensures Run(s, FillEvents(chain, head, i) + rest, pruning) == Run(FillAt(chain, s, head, i), rest, pruning)
    ensures forall e <- FillEvents(chain, head, i) :: !e.Proposed?
  {
    FillIsRun(chain, s, head, i, pruning);
    RunOfConcat(s, FillEvents(chain, head, i), rest, pruning);
  }

  /** A scan is a run of plain recordings and absorptions, none of which prunes; so what holds
      of every run holds of runs that begin by building the history. */
  lemma {:induction false} ScanIsRun(chain: Chain, s: Store, head: u64, k: nat, pruning: bool)
    requires ScanEnds(chain, s, head, k)
    ensures Run(s, ScanEvents(chain, s, head, k), pruning) == Scan(chain, s, head, k)
    ensures forall e <- ScanEvents(chain, s, head, k) :: !e.Proposed?
    decreases MaxVisits(head) - k
  {
    var i := Back(head, k);
    if i < Sub(head, 64) || i in s.roots {
    } else {
      ScanGoesOn(chain, s, head, k);
      var next := FillAt(chain, s, head, i);
      var rest := ScanEvents(chain, next, head, k + 1);
      ScanIsRun(chain, next, head, k + 1, pruning);
      FillThenRun(chain, s, head, i, rest, pruning);
    }
  }

  // ---------- What one scan fills ----------

  /** Votes of the available blocks at the slots `lo..hi`. */
  function WindowVotes(chain: Chain, lo: int, hi: int): set<Vote>
    decreases hi - lo
  {
    if hi < lo then {}
    else WindowVotes(chain, lo, hi - 1) +
         if 0 <= hi < TWO64 && hi in chain then BlockVotes(chain[hi].atts) else {}
  }

  ghost predicate ChainSized(chain: Chain, size: Key -> nat) {
    forall i <- chain :: CommitteeSized(chain[i].atts, size)
  }

  function Max(a: int, b: int): int { if a < b then b else a }

  /** The unsigned test `i + 32 >= head` wraps for the last 32 slots of the range, whose votes
      are never absorbed. */
  function Top(hi: int): int {
    if hi < TWO64 - 33 then hi else TWO64 - 33
  }

  /** With `k` slots visited, the scan goes on down to `stop`: the highest recorded slot, or
      the slot just below the window. */
  ghost predicate StopsAt(s: Store, head: u64, k: nat, stop: int) {
    && head > 64 && k <= 65
    && head - 65 <= stop <= head - k
    && (stop == head - 65 || stop in s.roots)
    && forall i: u64 | stop < i <= head - k :: i !in s.roots
  }

  /** A scan records every available slot above the first one already recorded, and changes
      no other root. */
  lemma {:induction false} ScanRoots(chain: Chain, s: Store, head: u64, k: nat, stop: int)
    requires StopsAt(s, head, k, stop)
    ensures var r := Scan(chain, s, head, k);
            && (forall i: u64 :: i in r.roots <==> i in s.roots || (stop < i <= head - k && i in chain))
            && (forall i <- r.roots :: r.roots[i] == if i in s.roots then s.roots[i] else chain[i].root)
    decreases 65 - k
  {
    if stop < head - k {
      ScanRoots(chain, FillAt(chain, s, head, head - k), head, k + 1, stop);
    }
  }

  lemma ScanUnfolds(chain: Chain, s: Store, head: u64, k: nat, stop: int)
    requires StopsAt(s, head, k, stop)
    ensures Scan(chain, s, head, k) ==
            if stop < head - k then Scan(chain, FillAt(chain, s, head, head - k), head, k + 1) else s
    ensures stop < head - k ==> StopsAt(FillAt(chain, s, head, head - k), head, k + 1, stop)
  {}

  /** From `s` to `r` the votes of the slots above `stop` and at most 32 behind the head were
      absorbed, up to slot `i`. */
  ghost predicate Collected(chain: Chain, s: Hist, r: Hist, stop: int, head: u64, i: int, size: Key -> nat) {
    r.votes == s.votes + WindowVotes(chain, Max(stop + 1, head - 32), Top(i)) && HistSized(r, size)
  }

  /** Of these slots it absorbs the ones at most 32 slots behind the head. */
  lemma {:induction false} ScanVotes(chain: Chain, s: Store, head: u64, k: nat, stop: int, size: Key -> nat)
    requires StopsAt(s, head, k, stop)
    requires HistSized(s.hist, size) && ChainSized(chain, size)
    ensures Collected(chain, s.hist, Scan(chain, s, head, k).hist, stop, head, head - k, size)
    decreases 65 - k
  {
    ScanUnfolds(chain, s, head, k, stop);
    if stop == head - k {
      EmptyWindow(chain, Max(stop + 1, head - 32), Top(head - k));
    } else {
      var i: u64 := head - k;
      var next := FillAt(chain, s, head, i);
      FillVotes(chain, s, head, i, size);
      ScanVotes(chain, next, head, k + 1, stop, size);
      CollectedNext(chain, s.hist, next.hist, Scan(chain, next, head, k + 1).hist, stop, head, i, size);
    }
  }

  lemma CollectedNext(chain: Chain, s: Hist, next: Hist, r: Hist, stop: int, head: u64, i: u64, size: Key -> nat)
    requires stop < i <= head && Collected(chain, next, r, stop, head, i - 1, size)
    requires next.votes == s.votes + if i in chain && head - 32 <= i < TWO64 - 32 then BlockVotes(chain[i].atts) else {}
    ensures Collected(chain, s, r, stop, head, i, size)
  {
    AddTopSlot(chain, s.votes, next.votes, stop, head, i);
  }

  lemma EmptyWindow(chain: Chain, lo: int, hi: int)
    requires hi < lo
    ensures WindowVotes(chain, lo, hi) == {}
  {}

  lemma FillVotes(chain: Chain, s: Store, head: u64, i: u64, size: Key -> nat)
    requires HistSized(s.hist, size) && ChainSized(chain, size) && i <= head
    ensures var r := FillAt(chain, s, head, i);
            && r.hist.votes == s.hist.votes +
               (if i in chain && head - 32 <= i < TWO64 - 32 then BlockVotes(chain[i].atts) else {})
            && HistSized(r.hist, size)
  {
    if i in chain {
      SizedVotesFit(s.hist, chain[i].atts, size);
      AbsorbIsUnion(s.hist, chain[i].atts);
    }
  }

  lemma AddTopSlot(chain: Chain, votes: set<Vote>, filled: set<Vote>, stop: int, head: u64, i: u64)
    requires stop < i <= head
    requires filled == votes + if i in chain && head - 32 <= i < TWO64 - 32 then BlockVotes(chain[i].atts) else {}
    ensures var lo := Max(stop + 1, head - 32);
            filled + WindowVotes(chain, lo, Top(i - 1)) == votes + WindowVotes(chain, lo, Top(i))
  {}

  // ---------- Repeated calls ----------

  /** State of the histories when the last head scanned from is `head`. */
  ghost predicate Built(chain: Chain, s: Store, head: u64) {
    && head in s.roots
    && (forall i <- s.roots :: i <= head && i in chain && s.roots[i] == chain[i].root)
    && (forall i <- chain | head - 64 <= i <= head :: i in s.roots)
  }

  /** A call at a head not below the last one keeps the window filled: the new head and every
      available slot in the 64 before it are recorded. The votes gained are those of the
      available blocks above the last head and at most 32 slots behind the new one. */
  lemma ScanKeepsBuilt(chain: Chain, s: Store, last: u64, head: u64, size: Key -> nat)
    requires Built(chain, s, last) && last <= head && head > 64 && head in chain
    requires HistSized(s.hist, size) && ChainSized(chain, size)
    ensures var r := Scan(chain, s, head, 0);
            && Built(chain, r, head)
            && r.hist.votes == s.hist.votes + WindowVotes(chain, LowestNew(last, head), Top(head))
            && HistSized(r.hist, size)
    ensures head == last ==> Scan(chain, s, head, 0) == s
  {
    var stop := Max(last, head - 65);
    ScanRoots(chain, s, head, 0, stop);
    ScanVotes(chain, s, head, 0, stop, size);
    assert LowestNew(last, head) == Max(stop + 1, head - 32);
  }

  lemma FirstScanBuilds(chain: Chain, s: Store, head: u64, size: Key -> nat)
    requires s.roots == map[] && s.hist == EMPTY
    requires head > 64 && head in chain && ChainSized(chain, size)
    ensures var r := Scan(chain, s, head, 0);
            && Built(chain, r, head)
            && r.hist.votes == WindowVotes(chain, head - 32, Top(head))
            && HistSized(r.hist, size)
  {
    ScanRoots(chain, s, head, 0, head - 65);
    ScanVotes(chain, s, head, 0, head - 65, size);
  }

  /** Heads the build calls may see: above 64 and never moving back. */
  ghost predicate Forward(heads: seq<u64>) {
    && (forall k | 0 <= k < |heads| :: heads[k] > 64)
    && (forall k | 0 < k < |heads| :: heads[k - 1] <= heads[k])
  }

  ghost predicate GoodHeads(chain: Chain, heads: seq<u64>) {
    Forward(heads) && forall k | 0 <= k < |heads| :: heads[k] in chain
  }

  /** The histories after one call per head. */
  ghost function BuildRun(chain: Chain, heads: seq<u64>): Store
    requires GoodHeads(chain, heads)
  {
    if heads == [] then Store(EMPTY, map[])
    else Scan(chain, BuildRun(chain, heads[..|heads| - 1]), heads[|heads| - 1], 0)
  }

  /** The lowest slot whose votes a call at `head` collects after one at `last`. */
  function LowestNew(last: int, head: int): int {
    Max(last + 1, head - 32)
  }

  /** Votes collected by one call per head. */
  function HeadVotes(chain: Chain, heads: seq<u64>): set<Vote> {
    if heads == [] then {}
    else
      var n := |heads| - 1;
      var head: int := heads[n];
      var last: int := if n == 0 then head - 33 else heads[n - 1];
      HeadVotes(chain, heads[..n]) + WindowVotes(chain, LowestNew(last, head), Top(head))
  }

  /** After any number of calls at non-decreasing heads the window of the last head is filled,
      whatever the gaps; a further call at that head finds it recorded and changes nothing. */
  lemma {:induction false} BuildRunFillsWindow(chain: Chain, heads: seq<u64>, size: Key -> nat)
    requires heads != [] && GoodHeads(chain, heads) && ChainSized(chain, size)
    ensures var r, head := BuildRun(chain, heads), heads[|heads| - 1];
            && Built(chain, r, head)
            && HistSized(r.hist, size)
            && r.hist.votes == HeadVotes(chain, heads)
            && Scan(chain, r, head, 0) == r
  {
    var n := |heads| - 1;
    if n > 0 {
      BuildRunFillsWindow(chain, heads[..n], size);
    }
    LastCallBuilds(chain, BuildRun(chain, heads[..n]), heads, size);
    RecordedHeadEndsScan(chain, BuildRun(chain, heads), heads[n]);
  }

  /** With gaps of at most 65 slots exactly the available slots from 64 before the first head to the
      last head are recorded, each with the root of its block. */
  lemma {:induction false} BuildRunRoots(chain: Chain, heads: seq<u64>)
    requires heads != [] && GoodHeads(chain, heads)
    requires forall k | 0 < k < |heads| :: heads[k] - heads[k - 1] <= 65
    ensures var r := BuildRun(chain, heads).roots;
            && (forall i: u64 :: i in r <==> i in chain && heads[0] - 64 <= i <= heads[|heads| - 1])
            && (forall i <- r :: r[i] == chain[i].root)
  {
    var n := |heads| - 1;
    var before := BuildRun(chain, heads[..n]);
    if n == 0 {
      ScanRoots(chain, before, heads[0], 0, heads[0] - 65);
    } else {
      BuildRunRoots(chain, heads[..n]);
      FirstNotAboveLast(heads);
      ScanRoots(chain, before, heads[n], 0, Max(heads[n - 1], heads[n] - 65));
    }
  }

  lemma FirstNotAboveLast(heads: seq<u64>)
    requires |heads| > 1 && Forward(heads)
    ensures heads[0] <= heads[|heads| - 2] <= heads[|heads| - 1]
  {
    ForwardIsSorted(heads, 0, |heads| - 2);
  }

  lemma LastCallBuilds(chain: Chain, s: Store, heads: seq<u64>, size: Key -> nat)
    requires heads != [] && GoodHeads(chain, heads) && ChainSized(chain, size)
    requires s.hist.votes == HeadVotes(chain, heads[..|heads| - 1]) && HistSized(s.hist, size)
    requires if |heads| == 1 then s == Store(EMPTY, map[]) else Built(chain, s, heads[|heads| - 2])
    ensures var r := Scan(chain, s, heads[|heads| - 1], 0);
            Built(chain, r, heads[|heads| - 1]) && HistSized(r.hist, size) && r.hist.votes == HeadVotes(chain, heads)
  {
    var n := |heads| - 1;
    if n == 0 {
      FirstScanBuilds(chain, s, heads[0], size);
    } else {
      ScanKeepsBuilt(chain, s, heads[n - 1], heads[n], size);
    }
  }

  lemma RecordedHeadEndsScan(chain: Chain, s: Store, head: u64)
    requires head in s.roots && ScanEnds(chain, s, head, 0)
    ensures Scan(chain, s, head, 0) == s
  {}

  lemma {:induction false} WindowVotesSplit(chain: Chain, lo: int, mid: int, hi: int)
    requires lo <= mid + 1 && mid <= hi
    ensures WindowVotes(chain, lo, hi) == WindowVotes(chain, lo, mid) + WindowVotes(chain, mid + 1, hi)
    decreases hi - mid
  {
    if mid < hi {
      WindowVotesSplit(chain, lo, mid, hi - 1);
    }
  }

  lemma HeadVotesNext(chain: Chain, heads: seq<u64>)
    requires |heads| > 1
    ensures var n := |heads| - 1;
            && HeadVotes(chain, heads) ==
               HeadVotes(chain, heads[..n]) + WindowVotes(chain, LowestNew(heads[n - 1], heads[n]), Top(heads[n]))
            && heads[..n][n - 1] == heads[n - 1]
  {}

  /** When no two consecutive heads are more than 33 slots apart, the calls together collect
      the votes of every available block from 32 slots before the first head to the last. */
  lemma {:induction false} CloseHeadsMissNothing(chain: Chain, heads: seq<u64>)
    requires heads != [] && GoodHeads(chain, heads)
    requires forall k | 0 < k < |heads| :: heads[k] - heads[k - 1] <= 33
    ensures heads[0] <= heads[|heads| - 1]
    ensures HeadVotes(chain, heads) == WindowVotes(chain, heads[0] - 32, Top(heads[|heads| - 1]))
  {
    var n := |heads| - 1;
    if n == 0 {
      assert heads[..0] == [];
    } else {
      CloseHeadsMissNothing(chain, heads[..n]);
      HeadVotesNext(chain, heads);
      AdjacentWindows(chain, heads[0] - 32, heads[n - 1], heads[n]);
      assert heads[..n][0] == heads[0];
    }
  }

  /** The window a call leaves and the one the next call adds make one window. */
  lemma AdjacentWindows(chain: Chain, lo: int, last: int, head: int)
    requires lo <= last <= head <= last + 33
    ensures WindowVotes(chain, lo, Top(last)) + WindowVotes(chain, LowestNew(last, head), Top(head)) ==
            WindowVotes(chain, lo, Top(head))
  {
    if last <= Top(head) {
      WindowVotesSplit(chain, lo, last, Top(head));
    }
  }

  lemma {:induction false} ForwardIsSorted(heads: seq<u64>, i: nat, j: nat)
    requires Forward(heads) && i <= j < |heads|
    ensures heads[i] <= heads[j]
  {
    if i < j {
      ForwardIsSorted(heads, i, j - 1);
    }
  }

  /** A chain with one block that has votes, in the slot after head `k - 1`. */
  function LonelyVote(heads: seq<u64>, slot: u64, vote: Attestation): Chain {
    map h | h in heads || h == slot :: if h == slot then Block(0, [vote]) else Block(0, [])
  }

  /** A block more than 32 slots behind the first head that reaches over it is never absorbed. */
  lemma {:induction false} LonelyVoteIsMissed(heads: seq<u64>, k: nat, n: nat, vote: Attestation)
    requires Forward(heads) && 0 < k < |heads| && heads[k] - heads[k - 1] >= 34 && n <= |heads|
    ensures HeadVotes(LonelyVote(heads, heads[k - 1] + 1, vote), heads[..n]) == {}
  {
    if n == 0 {
    } else {
      var slot: u64 := heads[k - 1] + 1;
      var chain := LonelyVote(heads, slot, vote);
      LonelyVoteIsMissed(heads, k, n - 1, vote);
      assert heads[..n][..n - 1] == heads[..n - 1];
      LonelySlotNotCollected(heads, k, n - 1);
      var head: int := heads[n - 1];
      var last: int := if n == 1 then head - 33 else heads[n - 2];
      OnlyEmptyBlocks(chain, LowestNew(last, head), Top(head));
    }
  }

  /** The slot after head `k - 1` is among those no call collects. */
  lemma LonelySlotNotCollected(heads: seq<u64>, k: nat, n: nat)
    requires Forward(heads) && 0 < k < |heads| && heads[k] - heads[k - 1] >= 34 && n < |heads|
    ensures var head: int := heads[n];
            var last: int := if n == 0 then head - 33 else heads[n - 1];
            !(LowestNew(last, head) <= heads[k - 1] + 1 <= head)
  {
    if n < k {
      ForwardIsSorted(heads, n, k - 1);
    } else {
      ForwardIsSorted(heads, k, n);
      if n > k {
        ForwardIsSorted(heads, k, n - 1);
      }
    }
  }

  lemma LonelyVoteIsInWindow(heads: seq<u64>, k: nat, vote: Attestation)
    requires Forward(heads) && 0 < k < |heads| && heads[k] - heads[k - 1] >= 34
    ensures var chain := LonelyVote(heads, heads[k - 1] + 1, vote);
            WindowVotes(chain, heads[0] - 32, Top(heads[|heads| - 1])) == VotesOf(vote)
  {
    var slot: u64 := heads[k - 1] + 1;
    var chain := LonelyVote(heads, slot, vote);
    var lo: int := heads[0] - 32;
    var hi := Top(heads[|heads| - 1]);
    ForwardIsSorted(heads, 0, k - 1);
    ForwardIsSorted(heads, k, |heads| - 1);
    OnlyEmptyBlocks(chain, slot + 1, hi);
    OnlyEmptyBlocks(chain, lo, slot - 1);
    WindowVotesSplit(chain, lo, slot, hi);
    assert [vote][..0] == [] && BlockVotes([vote]) == VotesOf(vote);
    assert chain[slot].atts == [vote];
  }

  /** For every gap of 34 slots or more, wherever it comes, and every vote there is a chain
      whose votes in the gap are lost: their block is recorded, its votes are not absorbed. */
  lemma WiderGapMissesVotes(heads: seq<u64>, k: nat, vote: Attestation) returns (chain: Chain)
    requires Forward(heads) && 0 < k < |heads| && heads[k] - heads[k - 1] >= 34
    ensures GoodHeads(chain, heads) && HeadVotes(chain, heads) == {}
    ensures WindowVotes(chain, heads[0] - 32, Top(heads[|heads| - 1])) == VotesOf(vote)
  {
    chain := LonelyVote(heads, heads[k - 1] + 1, vote);
    LonelyVoteIsMissed(heads, k, |heads|, vote);
    LonelyVoteIsInWindow(heads, k, vote);
    assert heads[..|heads|] == heads;
  }

  /** The calls at these heads collect the whole window of this chain. */
  ghost predicate MissesNothing(chain: Chain, heads: seq<u64>)
    requires heads != []
  {
    var first: int := heads[0];
    HeadVotes(chain, heads) == WindowVotes(chain, first - 32, Top(heads[|heads| - 1]))
  }

  /** No chain loses votes if and only if no two consecutive heads are more than 33 slots apart. */
  lemma MissesNothingIff(heads: seq<u64>)
    requires heads != [] && Forward(heads)
    ensures (forall chain: Chain | GoodHeads(chain, heads) :: MissesNothing(chain, heads)) <==>
            forall k | 0 < k < |heads| :: heads[k] - heads[k - 1] <= 33
  {
    if forall k | 0 < k < |heads| :: heads[k] - heads[k - 1] <= 33 {
      forall chain: Chain | GoodHeads(chain, heads) ensures MissesNothing(chain, heads) {
        CloseHeadsMissNothing(chain, heads);
      }
    } else {
      var k :| 0 < k < |heads| && heads[k] - heads[k - 1] > 33;
      var vote := Attestation(0, 0, [true], 0, 0);
      assert vote.bits[0] && Vote(vote.Committee(), 0) in VotesOf(vote);
      var chain := WiderGapMissesVotes(heads, k, vote);
      assert !MissesNothing(chain, heads);
    }
  }

  lemma {:induction false} OnlyEmptyBlocks(chain: Chain, lo: int, hi: int)
    requires forall i <- chain | lo <= i <= hi :: chain[i].atts == []
    ensures WindowVotes(chain, lo, hi) == {}
    decreases hi - lo
  {
    if lo <= hi {
      OnlyEmptyBlocks(chain, lo, hi - 1);
    }
  }

  // ---------- When the head gets recorded ----------

  /** Below slot 64 the unsigned lower bound wraps above the head: the scan visits nothing. */
  lemma YoungChainNeverBuilds(chain: Chain, s: Store, head: u64)
    requires head < 64
    ensures Scan(chain, s, head, 0) == s
  {}

  /** A scan forgets no root, and records only slots of available blocks. */
  lemma {:induction false} ScanAddsAvailable(chain: Chain, s: Store, head: u64, k: nat)
    requires ScanEnds(chain, s, head, k)
    ensures s.roots.Keys <= Scan(chain, s, head, k).roots.Keys <= s.roots.Keys + chain.Keys
    decreases MaxVisits(head) - k
  {
    var i := Back(head, k);
    if i < Sub(head, 64) || i in s.roots {
    } else {
      ScanGoesOn(chain, s, head, k);
      ScanAddsAvailable(chain, FillAt(chain, s, head, i), head, k + 1);
    }
  }

  /** After a call the head is recorded if and only if it was before, or it is at least 64 and
      its block is available. */
  lemma HeadRecordedIff(chain: Chain, s: Store, head: u64)
    requires ScanEnds(chain, s, head, 0)
    ensures head in Scan(chain, s, head, 0).roots <==> head in s.roots || (head >= 64 && head in chain)
  {
    ScanAddsAvailable(chain, s, head, 0);
    if head >= 64 && head in chain && head !in s.roots {
      ScanGoesOn(chain, s, head, 0);
      ScanAddsAvailable(chain, FillAt(chain, s, head, head), head, 1);
    }
  }

  /** From a head above 64 the scan does not reach around the unsigned range. */
  lemma {:induction false} ScanStaysBelow(chain: Chain, s: Store, head: u64, k: nat)
    requires head > 64 && ScanEnds(chain, s, head, k)
    ensures forall i <- Scan(chain, s, head, k).roots :: i in s.roots || i <= head
    decreases MaxVisits(head) - k
  {
    var i := Back(head, k);
    if i < Sub(head, 64) || i in s.roots {
    } else {
      ScanGoesOn(chain, s, head, k);
      ScanStaysBelow(chain, FillAt(chain, s, head, i), head, k + 1);
    }
  }

  /** Which roots are recorded when the last head reported is `last`, for heads that never move
      back: available slots up to it, and itself if it could be built. */
  ghost predicate Reached(chain: Chain, s: Store, last: u64) {
    && (forall i <- s.roots :: i in chain && i <= last)
    && (last < 64 ==> s.roots == map[])
    && (last in s.roots <==> last >= 64 && last in chain)
  }

  lemma NextReached(chain: Chain, s: Store, last: u64, head: u64)
    requires s.roots == map[] || (Reached(chain, s, last) && last <= head)
    requires head != 64
    ensures Reached(chain, Scan(chain, s, head, 0), head)
  {
    ScanAddsAvailable(chain, s, head, 0);
    HeadRecordedIff(chain, s, head);
    if head < 64 {
      YoungChainNeverBuilds(chain, s, head);
    } else {
      ScanStaysBelow(chain, s, head, 0);
    }
  }

  /** A visit of slot `i` in a scan from `head` neither stops it nor changes the histories. */
  predicate IdleVisit(chain: Chain, s: Store, head: u64, i: u64) {
    i >= Sub(head, 64) && i !in s.roots && FillAt(chain, s, head, i) == s
  }

  /** At head 64 the scan never ends, if and only if no slot is recorded and no block available:
      then and only then is every visit of the unsigned range idle. */
  lemma ScanNeverEndsIff(chain: Chain, s: Store)
    ensures (forall i: u64 :: IdleVisit(chain, s, 64, i)) <==> s.roots.Keys + chain.Keys == {}
    ensures ScanEnds(chain, s, 64, 0) <==> s.roots.Keys + chain.Keys != {}
  {
    forall i: u64 ensures IdleVisit(chain, s, 64, i) <==> i !in s.roots.Keys + chain.Keys {
      assert i in chain ==> i in FillAt(chain, s, 64, i).roots;
    }
    if s.roots.Keys + chain.Keys != {} {
      var i: u64 :| i in s.roots.Keys + chain.Keys;
      assert !IdleVisit(chain, s, 64, i);
    }
  }
}
