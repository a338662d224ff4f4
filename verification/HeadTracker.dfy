/** Head events: which slots are reported as received and which as missed over whole runs. */
module HeadTracker {
  import opened Sequences
  import opened U64

  datatype HeadRow = Missed(slot: u64) | Received(slot: u64)

  /** Missed rows for `lo`, `lo + 1`, ..., `hi - 1`. */
  function MissedRange(lo: u64, hi: u64): (rows: seq<HeadRow>)
    ensures |rows| == if lo < hi then hi - lo else 0
    ensures forall i | 0 <= i < |rows| :: rows[i] == Missed(lo + i)
  {
    if hi <= lo then [] else MissedRange(lo, hi - 1) + [Missed(hi - 1)]
  }

  /** Rows sent for a new head when the tracker stands at `current`; zero means that no head
      was seen yet. The gap test and the start of the range are unsigned. */
  function HeadRows(current: u64, slot: u64): seq<HeadRow> {
    (if current != 0 && Sub(slot, current) > 1 then MissedRange(Add(current, 1), slot) else []) + [Received(slot)]
  }

  /** Epoch whose proposers are prepared when `slot` is the midpoint of an epoch. */
  function EpochTasks(slot: u64): seq<u64> {
    if slot % SLOTS_PER_EPOCH == SLOTS_PER_EPOCH / 2 then [slot / SLOTS_PER_EPOCH + 1] else []
  }

  function LastHead(current: u64, heads: seq<u64>): u64 {
    if heads == [] then current else heads[|heads| - 1]
  }

  /** Rows sent over a run of heads. */
  function RunRows(current: u64, heads: seq<u64>): seq<HeadRow> {
    if heads == [] then []
    else
      var front := heads[..|heads| - 1];
      RunRows(current, front) + HeadRows(LastHead(current, front), heads[|heads| - 1])
  }

  function RunEpochs(heads: seq<u64>): seq<u64> {
    if heads == [] then [] else RunEpochs(heads[..|heads| - 1]) + EpochTasks(heads[|heads| - 1])
  }

  ghost predicate Increasing(s: seq<u64>) {
    forall i, j | 0 <= i < j < |s| :: s[i] < s[j]
  }

  /** One row for every slot from `first` to `last`, in order: received if it was a head. */
  ghost function Timeline(first: u64, last: u64, heads: seq<u64>): seq<HeadRow>
    requires first <= last
  {
    seq(last - first + 1, i requires 0 <= i <= last - first =>
      if first + i in heads then Received(first + i) else Missed(first + i))
  }

  lemma FirstHeadRows(heads: seq<u64>)
    requires |heads| == 1
    ensures RunRows(0, heads) == [Received(heads[0])] == Timeline(heads[0], heads[0], heads)
  {
    assert RunRows(0, heads[..0]) == [];
  }

  lemma NextHeadRows(heads: seq<u64>)
    requires |heads| > 1 && 0 < heads[|heads| - 2] < heads[|heads| - 1]
    ensures var n := |heads| - 1;
            RunRows(0, heads) ==
            RunRows(0, heads[..n]) + (MissedRange(heads[n - 1] + 1, heads[n]) + [Received(heads[n])])
  {
    var n := |heads| - 1;
    assert HeadRows(heads[n - 1], heads[n]) == MissedRange(heads[n - 1] + 1, heads[n]) + [Received(heads[n])];
  }

  lemma TimelineExtends(first: u64, current: u64, slot: u64, front: seq<u64>)
    requires first <= current < slot
    requires forall h <- front :: h <= current
    ensures Timeline(first, slot, front + [slot]) ==
            Timeline(first, current, front) + (MissedRange(current + 1, slot) + [Received(slot)])
  {
    var heads := front + [slot];
    assert forall t: u64 :: t in heads <==> t in front || t == slot;
    var left := Timeline(first, slot, heads);
    var right := Timeline(first, current, front) + (MissedRange(current + 1, slot) + [Received(slot)]);
    assert |left| == |right|;
    forall i | 0 <= i < |left| ensures left[i] == right[i] {
      var t: u64 := first + i;
      if current < t < slot {
        assert t !in front;
      }
    }
  }

  /** Over strictly increasing nonzero heads every slot from the first head to the last is
      reported exactly once, in ascending order: received when it was a head, else missed. */
  lemma {:induction false} IncreasingRunIsTimeline(heads: seq<u64>)
    requires heads != [] && Increasing(heads) && heads[0] != 0
    ensures heads[0] <= heads[|heads| - 1]
    ensures RunRows(0, heads) == Timeline(heads[0], heads[|heads| - 1], heads)
  {
    var n := |heads| - 1;
    var front, slot := heads[..n], heads[n];
    if n == 0 {
      FirstHeadRows(heads);
    } else {
      IncreasingRunIsTimeline(front);
      NextHeadRows(heads);
      TimelineExtends(heads[0], front[n - 1], slot, front);
      assert front + [slot] == heads;
    }
  }

  /** So no two rows of such a run share a slot: neither table gets a duplicate key, and no
      slot is both received and missed. */
  lemma IncreasingRunHasNoDuplicates(heads: seq<u64>, i: nat, j: nat)
    requires heads != [] && Increasing(heads) && heads[0] != 0
    requires i < j < |RunRows(0, heads)|
    ensures RunRows(0, heads)[i].slot + (j - i) == RunRows(0, heads)[j].slot
  {
    IncreasingRunIsTimeline(heads);
  }

  function Highest(heads: seq<u64>): u64
    requires heads != []
  {
    var last := heads[|heads| - 1];
    if |heads| == 1 then last
    else
      var before := Highest(heads[..|heads| - 1]);
      if before < last then last else before
  }

  lemma LastHeadBelowHighest(heads: seq<u64>)
    requires heads != []
    ensures heads[|heads| - 1] <= Highest(heads) && heads[0] <= Highest(heads)
  {
    if |heads| > 1 {
      LastHeadBelowHighest(heads[..|heads| - 1]);
    }
  }

  /** For heads in any order, also backward ones, every slot from the first head to the
      highest head seen is reported at least once. */
  lemma {:induction false} EverySlotReported(heads: seq<u64>, t: u64)
    requires heads != [] && forall k | 0 <= k < |heads| :: heads[k] != 0
    requires heads[0] <= t <= Highest(heads)
    ensures Received(t) in RunRows(0, heads) || Missed(t) in RunRows(0, heads)
  {
    var n := |heads| - 1;
    var front, slot := heads[..n], heads[n];
    if n == 0 {
    } else if t <= Highest(front) {
      EverySlotReported(front, t);
    } else {
      LastHeadBelowHighest(front);
      var current := front[n - 1];
      assert RunRows(0, heads) == RunRows(0, front) + HeadRows(current, slot);
      if t < slot {
        assert heads[n - 1] == current;
        assert MissedRange(current + 1, slot)[t - current - 1] == Missed(t);
        assert HeadRows(current, slot)[t - current - 1] == Missed(t);
      } else {
        assert HeadRows(current, slot)[|HeadRows(current, slot)| - 1] == Received(t);
      }
    }
  }

  /** A head at or below the current one reports no missed slot, although the unsigned gap
      test passes; the exception is the top of the range, where the start of the gap wraps. */
  lemma BackwardHeadReportsNoMiss(current: u64, slot: u64)
    requires current != 0 && slot <= current
    ensures HeadRows(current, slot) == [Received(slot)] <==>
            (current != TWO64 - 1 || slot == 0 || slot == current)
  {
    if current == TWO64 - 1 && 0 < slot < current {
      assert |HeadRows(current, slot)| == slot + 1;
    }
  }

  lemma RunRowsNext(current: u64, heads: seq<u64>, slot: u64)
    ensures RunRows(current, heads + [slot]) == RunRows(current, heads) + HeadRows(LastHead(current, heads), slot)
  {
    assert (heads + [slot])[..|heads|] == heads;
  }

  lemma LastHeadOfConcat(current: u64, a: seq<u64>, b: seq<u64>)
    ensures LastHead(current, a + b) == LastHead(LastHead(current, a), b)
  {
    if b == [] {
      assert a + b == a;
    }
  }

  lemma {:induction false} RunRowsOfConcat(current: u64, a: seq<u64>, b: seq<u64>)
    ensures RunRows(current, a + b) == RunRows(current, a) + RunRows(LastHead(current, a), b)
  {
    if b == [] {
      assert a + b == a;
    } else {
      var front, slot := b[..|b| - 1], b[|b| - 1];
      var between := LastHead(current, a);
      assert b == front + [slot];
      Regroup(a, front, [slot]);
      RunRowsOfConcat(current, a, front);
      RunRowsNext(current, a + front, slot);
      RunRowsNext(between, front, slot);
      LastHeadOfConcat(current, a, front);
      Regroup(RunRows(current, a), RunRows(between, front), HeadRows(LastHead(between, front), slot));
    }
  }

  /** Zero is a sentinel: after a head at slot 0 the tracker reports as if it had seen none. */
  lemma HeadAtZeroIsForgotten(heads: seq<u64>)
    ensures RunRows(0, [0] + heads) == [Received(0)] + RunRows(0, heads)
  {
    var zero: u64 := 0;
    RunRowsOfConcat(zero, [zero], heads);
    FirstHeadRows([zero]);
  }

  /** A later head reports every slot it skips, except from a tracker at slot 0. */
  lemma GapReportedIff(current: u64, slot: u64)
    requires current < slot
    ensures (forall t: u64 | current < t < slot :: Missed(t) in HeadRows(current, slot)) <==>
            current != 0 || slot <= 1
  {
    if current == 0 {
      assert HeadRows(current, slot) == [Received(slot)];
      if slot > 1 {
        var t: u64 := 1;
        assert Missed(t) !in HeadRows(current, slot);
      }
    } else {
      forall t: u64 | current < t < slot ensures Missed(t) in HeadRows(current, slot) {
        assert HeadRows(current, slot)[t - current - 1] == Missed(t);
      }
    }
  }

  ghost predicate Reported(t: u64, rows: seq<HeadRow>) {
    Received(t) in rows || Missed(t) in rows
  }

  lemma TimelineReports(first: u64, last: u64, heads: seq<u64>, t: u64)
    requires first <= last
    ensures Reported(t, Timeline(first, last, heads)) <==> first <= t <= last
  {
    var rows := Timeline(first, last, heads);
    if first <= t <= last {
      assert rows[t - first] == Received(t) || rows[t - first] == Missed(t);
    }
  }

  /** With slot 0 as the first head, nothing is reported between it and the second head. */
  lemma ReportedAfterZero(heads: seq<u64>, t: u64)
    requires |heads| > 1 && Increasing(heads) && heads[0] == 0
    ensures Reported(t, RunRows(0, heads)) <==> t == 0 || heads[1] <= t <= heads[|heads| - 1]
  {
    var zero: u64 := 0;
    var rest := heads[1..];
    assert heads == [zero] + rest;
    HeadAtZeroIsForgotten(rest);
    IncreasingRunIsTimeline(rest);
    TimelineReports(rest[0], rest[|rest| - 1], rest, t);
  }

  /** Over increasing heads every slot from the first to the last is reported, if and only if
      the first is not slot 0 or leaves no gap to the next. */
  lemma IncreasingRunReportsAllIff(heads: seq<u64>)
    requires heads != [] && Increasing(heads)
    ensures (forall t: u64 | heads[0] <= t <= heads[|heads| - 1] :: Reported(t, RunRows(0, heads))) <==>
            heads[0] != 0 || |heads| == 1 || heads[1] == 1
  {
    if heads[0] != 0 {
      IncreasingRunIsTimeline(heads);
      forall t: u64 | heads[0] <= t <= heads[|heads| - 1] ensures Reported(t, RunRows(0, heads)) {
        TimelineReports(heads[0], heads[|heads| - 1], heads, t);
      }
    } else if |heads| == 1 {
      FirstHeadRows(heads);
    } else {
      var one: u64 := 1;
      ReportedAfterZero(heads, one);
      forall t: u64 | heads[1] == 1 && t <= heads[|heads| - 1] ensures Reported(t, RunRows(0, heads)) {
        ReportedAfterZero(heads, t);
      }
    }
  }

  /** The slot in the middle of the epoch before `e` was a head. */
  ghost predicate MidpointWasHead(e: int, heads: seq<u64>) {
    exists k :: 0 <= k < |heads| && heads[k] == (e - 1) * 32 + 16
  }

  /** Proposers are prepared for exactly the epochs that follow one whose midpoint was a head. */
  lemma {:induction false} EpochsFollowMidpoints(heads: seq<u64>, e: u64)
    ensures e in RunEpochs(heads) <==> MidpointWasHead(e, heads)
  {
    if heads == [] {
    } else {
      var n := |heads| - 1;
      EpochsFollowMidpoints(heads[..n], e);
      assert e in EpochTasks(heads[n]) <==> heads[n] == (e - 1) * 32 + 16;
      if k :| 0 <= k < |heads| && heads[k] == (e - 1) * 32 + 16 {
        assert k < n ==> heads[..n][k] == heads[k];
      }
    }
  }

  /** Over increasing heads they are prepared in order, once per epoch. */
  lemma {:induction false} EpochsIncrease(heads: seq<u64>)
    requires Increasing(heads)
    ensures Increasing(RunEpochs(heads))
  {
    if heads == [] {
    } else {
      var n := |heads| - 1;
      var front, slot := heads[..n], heads[n];
      EpochsIncrease(front);
      forall i | 0 <= i < |RunEpochs(front)| && EpochTasks(slot) != []
        ensures RunEpochs(front)[i] < EpochTasks(slot)[0]
      {
        var e := RunEpochs(front)[i];
        EpochsFollowMidpoints(front, e);
        var k :| 0 <= k < n && front[k] == (e - 1) * 32 + 16;
        assert heads[k] < heads[n];
      }
    }
  }
}
