/** Slashing reward: the indices two attestations share, found by sorting both index lists
    in place and merging them. */
module Slashing {
  import opened U64

  /** A slashing counts as much as 2700 attestations; the weight of `n` slashings in 64ths. */
  function SlashingWeight64(n: nat): nat {
    64 * 2700 * n
  }

  ghost predicate Sorted(s: seq<u64>) {
    forall i, j | 0 <= i < j < |s| :: s[i] <= s[j]
  }

  /** Sorts a slice in place; `sort.Slice` of the standard library. */
  method SortSlice(a: array<u64>)
    modifies a
    ensures Sorted(a[..])
    ensures multiset(a[..]) == multiset(old(a[..]))
  {
    var i := 0;
    while i < a.Length
      invariant 0 <= i <= a.Length
      invariant Sorted(a[..i])
      invariant multiset(a[..]) == multiset(old(a[..]))
    {
      SinkIntoPlace(a, i);
      i := i + 1;
    }
    assert a[..a.Length] == a[..];
  }

  /** Moves `a[i]` down to its place in the sorted prefix before it. */
  method SinkIntoPlace(a: array<u64>, i: nat)
    requires i < a.Length && Sorted(a[..i])
    modifies a
    ensures Sorted(a[..i + 1])
    ensures multiset(a[..]) == multiset(old(a[..]))
  {
    var j := i;
    while 0 < j && a[j] < a[j - 1]
      invariant 0 <= j <= i
      invariant forall p, q | 0 <= p < q <= i && q != j :: a[p] <= a[q]
      invariant multiset(a[..]) == multiset(old(a[..]))
    {
      SwapDown(a, j);
      j := j - 1;
    }
  }

  method SwapDown(a: array<u64>, j: nat)
    requires 0 < j < a.Length
    modifies a
    ensures a[..] == old(a[..])[j - 1 := old(a[j])][j := old(a[j - 1])]
    ensures a[j] == old(a[j - 1]) && a[j - 1] == old(a[j])
    ensures forall k | 0 <= k < a.Length && k != j && k != j - 1 :: a[k] == old(a[k])
    ensures multiset(a[..]) == multiset(old(a[..]))
  {
    a[j - 1], a[j] := a[j], a[j - 1];
  }

  /** The number of indices two attestations share, counted with multiplicity. */
  function Shared(a: seq<u64>, b: seq<u64>): nat {
    |multiset(a) * multiset(b)|
  }

  /** A value below everything in a sorted tail does not occur in it. */
  lemma SmallerIsAbsent(s: seq<u64>, k: nat, x: u64)
    requires Sorted(s) && k < |s| && x < s[k]
    ensures multiset(s[k..])[x] == 0
  {
    assert x !in s[k..];
  }

  /** Items common between the two index lists. Both are left sorted, and nothing is lost. */
  method Intersection(set1: array<u64>, set2: array<u64>) returns (res: seq<u64>)
    modifies set1, set2
    ensures Sorted(set1[..]) && multiset(set1[..]) == multiset(old(set1[..]))
    ensures Sorted(set2[..]) && multiset(set2[..]) == multiset(old(set2[..]))
    ensures Sorted(res)
    ensures multiset(res) == multiset(old(set1[..])) * multiset(old(set2[..]))
  {
    SortSlice(set1);
    SortSlice(set2);
    res := Merge(set1[..], set2[..]);
  }

  /** Items common to what is left of the two lists. */
  ghost function Rest(a: seq<u64>, b: seq<u64>, i: nat, j: nat): multiset<u64>
    requires i <= |a| && j <= |b|
  {
    multiset(a[i..]) * multiset(b[j..])
  }

  lemma MergeStep(a: seq<u64>, b: seq<u64>, i: nat, j: nat)
    requires Sorted(a) && Sorted(b) && i < |a| && j < |b|
    ensures a[i] < b[j] ==> Rest(a, b, i, j) == Rest(a, b, i + 1, j)
    ensures b[j] < a[i] ==> Rest(a, b, i, j) == Rest(a, b, i, j + 1)
    ensures a[i] == b[j] ==> Rest(a, b, i, j) == multiset{a[i]} + Rest(a, b, i + 1, j + 1)
  {
    assert a[i..] == [a[i]] + a[i + 1..] && b[j..] == [b[j]] + b[j + 1..];
    assert multiset(a[i..]) == multiset{a[i]} + multiset(a[i + 1..]);
    assert multiset(b[j..]) == multiset{b[j]} + multiset(b[j + 1..]);
    if a[i] < b[j] {
      SmallerIsAbsent(b, j, a[i]);
    } else if b[j] < a[i] {
      SmallerIsAbsent(a, i, b[j]);
    }
  }

  /** What the merge knows: `res` is sorted, below both tails, and with what the tails still
      share it makes up the whole intersection. */
  ghost predicate Merging(a: seq<u64>, b: seq<u64>, i: nat, j: nat, res: seq<u64>) {
    && i <= |a| && j <= |b|
    && Sorted(res)
    && (forall k | 0 <= k < |res| :: (i < |a| ==> res[k] <= a[i]) && (j < |b| ==> res[k] <= b[j]))
    && multiset(res) + Rest(a, b, i, j) == Rest(a, b, 0, 0)
  }

  lemma MergingTakes(a: seq<u64>, b: seq<u64>, i: nat, j: nat, res: seq<u64>)
    requires Sorted(a) && Sorted(b) && i < |a| && j < |b| && a[i] == b[j] && Merging(a, b, i, j, res)
    ensures Merging(a, b, i + 1, j + 1, res + [a[i]])
  {
    MergeStep(a, b, i, j);
    assert multiset(res + [a[i]]) == multiset(res) + multiset{a[i]};
  }

  lemma MergingSkips(a: seq<u64>, b: seq<u64>, i: nat, j: nat, res: seq<u64>)
    requires Sorted(a) && Sorted(b) && i < |a| && j < |b| && Merging(a, b, i, j, res)
    ensures a[i] < b[j] ==> Merging(a, b, i + 1, j, res)
    ensures b[j] < a[i] ==> Merging(a, b, i, j + 1, res)
  {
    MergeStep(a, b, i, j);
  }

  lemma MergingDone(a: seq<u64>, b: seq<u64>, i: nat, j: nat, res: seq<u64>)
    requires Merging(a, b, i, j, res) && (i == |a| || j == |b|)
    ensures Sorted(res) && multiset(res) == multiset(a) * multiset(b)
  {
    assert a[0..] == a && b[0..] == b;
    assert Rest(a, b, i, j) == multiset{};
  }

  /** The two-pointer merge over the sorted lists. */
  method Merge(a: seq<u64>, b: seq<u64>) returns (res: seq<u64>)
    requires Sorted(a) && Sorted(b)
    ensures Sorted(res)
    ensures multiset(res) == multiset(a) * multiset(b)
  {
    res := [];
    var i, j := 0, 0;
    while i < |a| && j < |b|
      invariant Merging(a, b, i, j, res)
      decreases |a| - i + |b| - j
    {
      if a[i] < b[j] {
        MergingSkips(a, b, i, j, res);
        i := i + 1;
      } else if b[j] < a[i] {
        MergingSkips(a, b, i, j, res);
        j := j + 1;
      } else {
        MergingTakes(a, b, i, j, res);
        res := res + [a[i]];
        i, j := i + 1, j + 1;
      }
    }
    MergingDone(a, b, i, j, res);
  }

  // ---------- What the shared count means ----------

  /** A sorted list is determined by its multiset: so the result of `Intersection`, and the
      state it leaves its inputs in, do not depend on the order the indices came in. */
  lemma {:induction false} SortedIsCanonical(s: seq<u64>, t: seq<u64>)
    requires Sorted(s) && Sorted(t) && multiset(s) == multiset(t)
    ensures s == t
  {
    assert |s| == |multiset(s)| && |t| == |multiset(t)|;
    if s == [] {
    } else {
      FirstIsLeast(s, t);
      FirstIsLeast(t, s);
      TailMultiset(s);
      TailMultiset(t);
      SortedIsCanonical(s[1..], t[1..]);
      assert s == [s[0]] + s[1..] && t == [t[0]] + t[1..];
    }
  }

  lemma FirstIsLeast(s: seq<u64>, t: seq<u64>)
    requires Sorted(s) && multiset(s) == multiset(t) && s != [] && t != []
    ensures s[0] <= t[0]
  {
    assert t[0] in multiset(s);
  }

  lemma TailMultiset(s: seq<u64>)
    requires s != []
    ensures multiset(s[1..]) == multiset(s) - multiset{s[0]}
  {
    assert s == [s[0]] + s[1..];
  }

  ghost function Elements(s: seq<u64>): set<u64> {
    set x | x in s
  }

  /** No item occurs more than once in both lists. */
  ghost predicate RepeatedInOneAtMost(a: seq<u64>, b: seq<u64>) {
    forall x: u64 :: multiset(a)[x] <= 1 || multiset(b)[x] <= 1
  }

  lemma SetAsMultisetSize(s: set<u64>)
    ensures |multiset(s)| == |s|
  {}

  /** The shared count is at least the size of the set intersection, and equal to it if and
      only if no index occurs more than once in both lists. */
  lemma SharedIsSetIntersection(a: seq<u64>, b: seq<u64>)
    ensures Shared(a, b) >= |Elements(a) * Elements(b)|
    ensures Shared(a, b) == |Elements(a) * Elements(b)| <==> RepeatedInOneAtMost(a, b)
  {
    var shared, once := multiset(a) * multiset(b), multiset(Elements(a) * Elements(b));
    SetAsMultisetSize(Elements(a) * Elements(b));
    SharedCounts(a, b);
    PartSize(shared, once);
    if RepeatedInOneAtMost(a, b) {
      assert shared == once;
    } else {
      var x: u64 :| multiset(a)[x] > 1 && multiset(b)[x] > 1;
      assert shared[x] > once[x];
    }
  }

  lemma SharedCounts(a: seq<u64>, b: seq<u64>)
    ensures forall x: u64 :: multiset(Elements(a) * Elements(b))[x] == (if x in a && x in b then 1 else 0)
    ensures forall x: u64 :: (x in a <==> multiset(a)[x] > 0) && (x in b <==> multiset(b)[x] > 0)
    ensures multiset(Elements(a) * Elements(b)) <= multiset(a) * multiset(b)
  {}

  lemma PartSize(whole: multiset<u64>, part: multiset<u64>)
    requires part <= whole
    ensures |part| <= |whole| && (|part| == |whole| <==> part == whole)
  {
    assert whole == part + (whole - part);
    assert whole - part == multiset{} ==> whole == part;
  }

  // ---------- The slashings of a block ----------

  /** The attesting indices of the two conflicting attestations. */
  datatype AttesterSlashing = AttesterSlashing(indices1: array<u64>, indices2: array<u64>)

  ghost function Arrays(slashings: seq<AttesterSlashing>): set<array<u64>> {
    (set s | s in slashings :: s.indices1) + (set s | s in slashings :: s.indices2)
  }

  /** Indices slashed by the block: the shared indices of every slashing. */
  ghost function IndicesSlashed(slashings: seq<AttesterSlashing>): nat
    reads Arrays(slashings)
  {
    if slashings == [] then 0
    else
      var last := slashings[|slashings| - 1];
      IndicesSlashed(slashings[..|slashings| - 1]) + Shared(last.indices1[..], last.indices2[..])
  }

  /** It adds up over the slashings: none for an empty list, the common items of the two index
      lists for one slashing, and the sum for two lists put together. */
  lemma {:induction false} IndicesSlashedAddUp(a: seq<AttesterSlashing>, b: seq<AttesterSlashing>, s: AttesterSlashing)
    ensures IndicesSlashed([]) == 0
    ensures IndicesSlashed([s]) == |multiset(s.indices1[..]) * multiset(s.indices2[..])|
    ensures IndicesSlashed(a + b) == IndicesSlashed(a) + IndicesSlashed(b)
  {
    assert [s][..0] == [];
    if b == [] {
      assert a + b == a;
    } else {
      assert (a + b)[..|a + b| - 1] == a + b[..|b| - 1];
      IndicesSlashedAddUp(a, b[..|b| - 1], s);
    }
  }

  /** So it does not depend on the order of the slashings. */
  lemma {:induction false} IndicesSlashedInAnyOrder(a: seq<AttesterSlashing>, b: seq<AttesterSlashing>)
    requires multiset(a) == multiset(b)
    ensures IndicesSlashed(a) == IndicesSlashed(b)
  {
    assert |a| == |multiset(a)| && |b| == |multiset(b)|;
    if a == [] {
    } else {
      var front, last := a[..|a| - 1], a[|a| - 1];
      assert a == front + [last];
      assert last in multiset(a) && last in multiset(b) && last in b;
      var i :| 0 <= i < |b| && b[i] == last;
      var before, behind := b[..i], b[i + 1..];
      assert b == before + ([last] + behind);
      SameWithoutOne(front, before, behind, last);
      IndicesSlashedInAnyOrder(front, before + behind);
      IndicesSlashedAddUp(front, [last], last);
      IndicesSlashedAddUp(before, [last] + behind, last);
      IndicesSlashedAddUp([last], behind, last);
      IndicesSlashedAddUp(before, behind, last);
    }
  }

  lemma SameWithoutOne<T>(front: seq<T>, before: seq<T>, behind: seq<T>, x: T)
    requires multiset(front + [x]) == multiset(before + ([x] + behind))
    ensures multiset(front) == multiset(before + behind)
  {
    assert multiset(front) == multiset(front + [x]) - multiset{x};
    assert multiset(before + behind) == multiset(before + ([x] + behind)) - multiset{x};
  }

  /** The reward of a block's slashings, in 64ths. The index arrays are only reordered, so
      the count that the next scoring of the same block sees is the same. */
  method ScoreSlashings(attesterSlashings: seq<AttesterSlashing>, proposerSlashings: nat)
    returns (attester64: nat, proposer64: nat)
    modifies Arrays(attesterSlashings)
    ensures attester64 == SlashingWeight64(old(IndicesSlashed(attesterSlashings)))
    ensures proposer64 == SlashingWeight64(proposerSlashings)
    ensures attester64 == 172800 * old(IndicesSlashed(attesterSlashings)) && proposer64 == 172800 * proposerSlashings
    ensures forall a <- Arrays(attesterSlashings) :: multiset(a[..]) == multiset(old(a[..]))
    ensures IndicesSlashed(attesterSlashings) == old(IndicesSlashed(attesterSlashings))
  {
    proposer64 := SlashingWeight64(proposerSlashings);
    var indicesSlashed := CountSlashed(attesterSlashings);
    attester64 := SlashingWeight64(indicesSlashed);
    ReorderingKeepsCount(attesterSlashings);
  }

  method CountSlashed(slashings: seq<AttesterSlashing>) returns (indicesSlashed: nat)
    modifies Arrays(slashings)
    ensures indicesSlashed == old(IndicesSlashed(slashings))
    ensures forall a <- Arrays(slashings) :: multiset(a[..]) == multiset(old(a[..]))
  {
    indicesSlashed := 0;
    for k := 0 to |slashings|
      invariant indicesSlashed == old(IndicesSlashed(slashings[..k]))
      invariant forall a <- Arrays(slashings) :: multiset(a[..]) == multiset(old(a[..]))
    {
      var s := slashings[k];
      assert s.indices1 in Arrays(slashings) && s.indices2 in Arrays(slashings);
      var common := Intersection(s.indices1, s.indices2);
      assert slashings[..k + 1][..k] == slashings[..k];
      assert |common| == |multiset(common)|;
      indicesSlashed := indicesSlashed + |common|;
    }
    assert slashings[..|slashings|] == slashings;
  }

  twostate lemma ReorderingKeepsCount(slashings: seq<AttesterSlashing>)
    requires forall a <- Arrays(slashings) :: old(allocated(a)) && multiset(a[..]) == multiset(old(a[..]))
    ensures IndicesSlashed(slashings) == old(IndicesSlashed(slashings))
  {
    if slashings == [] {
    } else {
      var last := slashings[|slashings| - 1];
      assert last in slashings;
      ReorderingKeepsCount(slashings[..|slashings| - 1]);
      assert last.indices1 in Arrays(slashings) && last.indices2 in Arrays(slashings);
    }
  }
}
