/** The attestation score of a block proposal: how many new votes it brings, which of them
    earn the source, target and head rewards, and what these counts mean as sets of votes. */
module Scoring {
  import opened Wrappers
  import opened U64
  import opened Votes

  const TIMELY_SOURCE_WEIGHT: nat := 14
  const TIMELY_TARGET_WEIGHT: nat := 26
  const TIMELY_HEAD_WEIGHT: nat := 14

  /** What the score reads of the proposal's header. The slot or the parent root is missing
      when the versioned block does not provide it. */
  datatype Header = Header(slot: Option<u64>, parentRoot: Option<Root>)

  // ---------- The three checks ----------

  predicate IsCorrectSource(a: Attestation, header: Header) {
    header.slot.Some? && Sub(header.slot.value, a.slot) <= 5
  }

  predicate IsCorrectTarget(a: Attestation, roots: map<u64, Root>) {
    var first := FirstSlotOfEpoch(a.slot);
    first !in roots || roots[first] == a.targetRoot
  }

  predicate IsCorrectHead(a: Attestation, header: Header) {
    && header.slot.Some?
    && header.parentRoot.Some?
    && header.parentRoot.value == a.headRoot
    && Sub(header.slot.value, a.slot) == 1
  }

  /** The unsigned tests in terms of slots: a source is timely up to five slots after the
      attested one, a head only in the slot right after it, counting through the wrap; so a
      correct head is a correct source, and away from the wrap no attestation from the future
      is either. The target compares with the root at the last multiple of 32 that is not
      above the slot. */
  lemma ChecksMeaning(a: Attestation, header: Header, roots: map<u64, Root>)
    ensures IsCorrectSource(a, header) <==>
              header.slot.Some? && exists d: u64 :: d <= 5 && Add(a.slot, d) == header.slot.value
    ensures IsCorrectHead(a, header) <==>
              header == Header(Some(Add(a.slot, 1)), Some(a.headRoot))
    ensures IsCorrectHead(a, header) ==> IsCorrectSource(a, header)
    ensures IsCorrectSource(a, header) && a.slot < TWO64 - 5 ==> a.slot <= header.slot.value <= a.slot + 5
    ensures !IsCorrectTarget(a, roots) <==>
              exists f <- roots :: f % 32 == 0 && f <= a.slot < f + 32 && roots[f] != a.targetRoot
  {
    if IsCorrectSource(a, header) {
      assert Add(a.slot, Sub(header.slot.value, a.slot)) == header.slot.value;
    }
  }

  function AnyVote(): Attestation -> bool { a => true }
  function SourceCheck(header: Header): Attestation -> bool { a => IsCorrectSource(a, header) }
  function TargetCheck(roots: map<u64, Root>): Attestation -> bool { a => IsCorrectTarget(a, roots) }
  function HeadCheck(header: Header): Attestation -> bool { a => IsCorrectHead(a, header) }

  // ---------- Counting ----------

  /** Votes of attestation `k` that count as new: neither in the history nor set in the
      bitlists the scorer keeps for the block so far. */
  function NewAt(history: set<Vote>, atts: seq<Attestation>, k: nat): set<Vote>
    requires k < |atts|
  {
    VotesOf(atts[k]) - history - Absorb(EMPTY, atts[..k]).votes
  }

  /** New votes credited to attestations that pass `check`. */
  function Credit(history: set<Vote>, atts: seq<Attestation>, check: Attestation -> bool): nat {
    if atts == [] then 0
    else
      var k := |atts| - 1;
      Credit(history, atts[..k], check) + if check(atts[k]) then |NewAt(history, atts, k)| else 0
  }

  datatype Tally = Tally(newVotes: nat, source: nat, target: nat, head: nat, score64: nat)

  /** A tally after `n` more new votes from one attestation. */
  function Awarded(t: Tally, a: Attestation, header: Header, roots: map<u64, Root>, n: nat): Tally {
    var source := if IsCorrectSource(a, header) then n else 0;
    var target := if IsCorrectTarget(a, roots) then n else 0;
    var head := if IsCorrectHead(a, header) then n else 0;
    Tally(t.newVotes + n, t.source + source, t.target + target, t.head + head,
          t.score64 + source * TIMELY_SOURCE_WEIGHT + target * TIMELY_TARGET_WEIGHT + head * TIMELY_HEAD_WEIGHT)
  }

  /** Counters after scoring every attestation; the score is in 64ths. */
  function TallyOf(history: set<Vote>, roots: map<u64, Root>, header: Header, atts: seq<Attestation>): Tally {
    if atts == [] then Tally(0, 0, 0, 0, 0)
    else
      var k := |atts| - 1;
      Awarded(TallyOf(history, roots, header, atts[..k]), atts[k], header, roots, |NewAt(history, atts, k)|)
  }

  lemma {:induction false} TallyScore(history: set<Vote>, roots: map<u64, Root>, header: Header, atts: seq<Attestation>)
    ensures var t := TallyOf(history, roots, header, atts);
            t.score64 == 14 * t.source + 26 * t.target + 14 * t.head
  {
    if atts == [] {
    } else {
      TallyScore(history, roots, header, atts[..|atts| - 1]);
    }
  }

  lemma {:induction false} TallyNewVotes(history: set<Vote>, roots: map<u64, Root>, header: Header,
                                         atts: seq<Attestation>)
    ensures TallyOf(history, roots, header, atts).newVotes == Credit(history, atts, AnyVote())
  {
    if atts == [] {
    } else {
      TallyNewVotes(history, roots, header, atts[..|atts| - 1]);
    }
  }

  lemma {:induction false} TallySource(history: set<Vote>, roots: map<u64, Root>, header: Header,
                                       atts: seq<Attestation>)
    ensures TallyOf(history, roots, header, atts).source == Credit(history, atts, SourceCheck(header))
  {
    if atts == [] {
    } else {
      TallySource(history, roots, header, atts[..|atts| - 1]);
    }
  }

  lemma {:induction false} TallyTarget(history: set<Vote>, roots: map<u64, Root>, header: Header,
                                       atts: seq<Attestation>)
    ensures TallyOf(history, roots, header, atts).target == Credit(history, atts, TargetCheck(roots))
  {
    if atts == [] {
    } else {
      TallyTarget(history, roots, header, atts[..|atts| - 1]);
    }
  }

  lemma {:induction false} TallyHead(history: set<Vote>, roots: map<u64, Root>, header: Header, atts: seq<Attestation>)
    ensures TallyOf(history, roots, header, atts).head == Credit(history, atts, HeadCheck(header))
  {
    if atts == [] {
    } else {
      TallyHead(history, roots, header, atts[..|atts| - 1]);
    }
  }

  /** The loop's running counters are the credits of the four checks, and the running score is
      their weighted sum. */
  lemma TallyCredits(history: set<Vote>, roots: map<u64, Root>, header: Header, atts: seq<Attestation>)
    ensures var t := TallyOf(history, roots, header, atts);
            && t.newVotes == Credit(history, atts, AnyVote())
            && t.source == Credit(history, atts, SourceCheck(header))
            && t.target == Credit(history, atts, TargetCheck(roots))
            && t.head == Credit(history, atts, HeadCheck(header))
            && t.score64 == 14 * t.source + 26 * t.target + 14 * t.head
  {
    TallyNewVotes(history, roots, header, atts);
    TallySource(history, roots, header, atts);
    TallyTarget(history, roots, header, atts);
    TallyHead(history, roots, header, atts);
    TallyScore(history, roots, header, atts);
  }

  // ---------- What the counts mean ----------

  /** New votes the block carries. */
  function Fresh(history: set<Vote>, atts: seq<Attestation>): set<Vote> {
    BlockVotes(atts) - history
  }

  /** The first attestation of the list that carries `v` passes `check`. */
  ghost predicate FirstCarrierPasses(atts: seq<Attestation>, v: Vote, check: Attestation -> bool) {
    exists k :: 0 <= k < |atts| && v in VotesOf(atts[k]) && v !in BlockVotes(atts[..k]) && check(atts[k])
  }

  ghost function FreshPassing(history: set<Vote>, atts: seq<Attestation>, check: Attestation -> bool): set<Vote> {
    set v | v in Fresh(history, atts) && FirstCarrierPasses(atts, v, check)
  }

  /** Votes of attestation `k` that an earlier one carries too, but that did not fit in the
      block's bitlist and so were not remembered. */
  function RepeatedAt(history: set<Vote>, atts: seq<Attestation>, k: nat): set<Vote>
    requires k < |atts|
  {
    (VotesOf(atts[k]) - history) * BlockVotes(atts[..k]) - Absorb(EMPTY, atts[..k]).votes
  }

  function Repeats(history: set<Vote>, atts: seq<Attestation>, check: Attestation -> bool): nat {
    if atts == [] then 0
    else
      var k := |atts| - 1;
      Repeats(history, atts[..k], check) + if check(atts[k]) then |RepeatedAt(history, atts, k)| else 0
  }

  lemma AbsorbedWasCarried(atts: seq<Attestation>)
    ensures Absorb(EMPTY, atts).votes <= BlockVotes(atts)
  {
    forall v | v in Absorb(EMPTY, atts).votes ensures v in BlockVotes(atts) {
      AbsorbMeaning(EMPTY, atts, v);
    }
  }

  lemma PassingOfPrefix(atts: seq<Attestation>, v: Vote, check: Attestation -> bool)
    requires atts != []
    ensures var k := |atts| - 1;
            FirstCarrierPasses(atts, v, check) <==>
            if v in BlockVotes(atts[..k]) then FirstCarrierPasses(atts[..k], v, check)
            else v in VotesOf(atts[k]) && check(atts[k])
  {
    var k := |atts| - 1;
    var front := atts[..k];
    forall j | 0 <= j < k ensures front[j] == atts[j] && front[..j] == atts[..j] {}
    if j :| 0 <= j < |atts| && v in VotesOf(atts[j]) && v !in BlockVotes(atts[..j]) && check(atts[j]) {
      if j < k {
        assert v in VotesOf(front[j]);
        BlockVotesMember(front, v);
      }
    }
    if j :| 0 <= j < |front| && v in VotesOf(front[j]) && v !in BlockVotes(front[..j]) && check(front[j]) {
      assert v in VotesOf(atts[j]) && v !in BlockVotes(atts[..j]);
    }
  }

  /** Votes attestation `k` is the first to carry. */
  function GainedAt(history: set<Vote>, atts: seq<Attestation>, k: nat): set<Vote>
    requires k < |atts|
  {
    VotesOf(atts[k]) - history - BlockVotes(atts[..k])
  }

  lemma FreshPassingStep(history: set<Vote>, atts: seq<Attestation>, check: Attestation -> bool)
    requires atts != []
    ensures var k := |atts| - 1;
            var gained := if check(atts[k]) then GainedAt(history, atts, k) else {};
            |FreshPassing(history, atts, check)| == |FreshPassing(history, atts[..k], check)| + |gained|
  {
    var k := |atts| - 1;
    var gained := if check(atts[k]) then GainedAt(history, atts, k) else {};
    var whole, front := FreshPassing(history, atts, check), FreshPassing(history, atts[..k], check);
    forall v ensures v in whole <==> v in front || v in gained {
      PassingOfPrefix(atts, v, check);
    }
    DisjointUnionSize(front, gained, whole);
  }

  lemma DisjointUnionSize<T>(a: set<T>, b: set<T>, c: set<T>)
    requires a !! b
    requires forall x :: x in c <==> x in a || x in b
    ensures |c| == |a| + |b|
  {
    assert c == a + b;
  }

  lemma NewAtSplits(history: set<Vote>, atts: seq<Attestation>, k: nat)
    requires k < |atts|
    ensures |NewAt(history, atts, k)| == |GainedAt(history, atts, k)| + |RepeatedAt(history, atts, k)|
  {
    AbsorbedWasCarried(atts[..k]);
    DisjointUnionSize(GainedAt(history, atts, k), RepeatedAt(history, atts, k), NewAt(history, atts, k));
  }

  /** Every credited count is the number of distinct new votes whose first carrier passes
      the check, plus the votes counted again because they did not fit. */
  lemma {:induction false} CreditMeaning(history: set<Vote>, atts: seq<Attestation>, check: Attestation -> bool)
    ensures Credit(history, atts, check) == |FreshPassing(history, atts, check)| + Repeats(history, atts, check)
  {
    if atts == [] {
      assert FreshPassing(history, atts, check) == {};
    } else {
      CreditMeaning(history, atts[..|atts| - 1], check);
      FreshPassingStep(history, atts, check);
      NewAtSplits(history, atts, |atts| - 1);
    }
  }

  /** No two attestations carry the same new vote past the end of the block's bitlist. */
  ghost predicate NoDoubleCount(history: set<Vote>, atts: seq<Attestation>) {
    forall j, k, v | 0 <= j < k < |atts| && v in VotesOf(atts[j]) && v in VotesOf(atts[k]) ::
      v in history || v.bit < FirstLength(atts, v.key)
  }

  lemma {:induction false} FirstLengthStable(atts: seq<Attestation>, n: nat, key: Key)
    requires n <= |atts| && Carries(atts[..n], key)
    ensures FirstLength(atts[..n], key) == FirstLength(atts, key)
  {
    if atts[0].Committee() != key {
      var k :| 0 <= k < n && atts[..n][k].Committee() == key;
      assert atts[..n][1..] == atts[1..][..n - 1];
      assert atts[1..][..n - 1][k - 1].Committee() == key;
      FirstLengthStable(atts[1..], n - 1, key);
    }
  }

  lemma RepeatedMember(history: set<Vote>, atts: seq<Attestation>, k: nat, v: Vote)
    requires k < |atts|
    ensures v in RepeatedAt(history, atts, k) <==>
            && v in VotesOf(atts[k]) && v !in history && v in BlockVotes(atts[..k])
            && v.bit >= FirstLength(atts, v.key)
  {
    AbsorbMeaning(EMPTY, atts[..k], v);
    if v in BlockVotes(atts[..k]) {
      BlockVotesMember(atts[..k], v);
      var j :| 0 <= j < k && v in VotesOf(atts[..k][j]);
      assert atts[..k][j].Committee() == v.key;
      FirstLengthStable(atts, k, v.key);
    }
  }

  ghost predicate AllRemembered(history: set<Vote>, atts: seq<Attestation>, check: Attestation -> bool) {
    forall k | 0 <= k < |atts| && check(atts[k]) :: RepeatedAt(history, atts, k) == {}
  }

  lemma RememberedInPrefix(history: set<Vote>, atts: seq<Attestation>, check: Attestation -> bool)
    requires atts != []
    ensures var n := |atts| - 1;
            AllRemembered(history, atts, check) <==>
            AllRemembered(history, atts[..n], check) && (check(atts[n]) ==> RepeatedAt(history, atts, n) == {})
  {
    var n := |atts| - 1;
    forall k | 0 <= k < n ensures RepeatedAt(history, atts[..n], k) == RepeatedAt(history, atts, k) {
      assert atts[..n][..k] == atts[..k];
    }
  }

  lemma {:induction false} RepeatsZero(history: set<Vote>, atts: seq<Attestation>, check: Attestation -> bool)
    ensures Repeats(history, atts, check) == 0 <==> AllRemembered(history, atts, check)
  {
    if atts == [] {
    } else {
      RepeatsZero(history, atts[..|atts| - 1], check);
      RememberedInPrefix(history, atts, check);
    }
  }

  lemma NoDoubleCountMeansNoRepeats(history: set<Vote>, atts: seq<Attestation>, check: Attestation -> bool)
    requires NoDoubleCount(history, atts)
    ensures Repeats(history, atts, check) == 0
  {
    RepeatsZero(history, atts, check);
    forall k | 0 <= k < |atts| ensures RepeatedAt(history, atts, k) == {} {
      forall v ensures v !in RepeatedAt(history, atts, k) {
        RepeatedMember(history, atts, k, v);
        BlockVotesMember(atts[..k], v);
      }
    }
  }

  lemma NoRepeatsMeansNoDoubleCount(history: set<Vote>, atts: seq<Attestation>)
    requires Repeats(history, atts, AnyVote()) == 0
    ensures NoDoubleCount(history, atts)
  {
    RepeatsZero(history, atts, AnyVote());
    forall j, k, v | 0 <= j < k < |atts| && v in VotesOf(atts[j]) && v in VotesOf(atts[k])
      ensures v in history || v.bit < FirstLength(atts, v.key)
    {
      assert AnyVote()(atts[k]);
      RepeatedMember(history, atts, k, v);
      assert atts[..k][j] == atts[j];
      BlockVotesMember(atts[..k], v);
    }
  }

  /** NewVotes never misses a new vote; it counts each exactly once if and only if no vote
      past the end of the block's bitlist is carried twice. */
  lemma NewVotesExact(history: set<Vote>, atts: seq<Attestation>)
    ensures Credit(history, atts, AnyVote()) >= |Fresh(history, atts)|
    ensures Credit(history, atts, AnyVote()) == |Fresh(history, atts)| <==> NoDoubleCount(history, atts)
    ensures NoDoubleCount(history, atts) ==>
              Credit(history, atts, AnyVote()) + |BlockVotes(atts) * history| == |BlockVotes(atts)|
  {
    CreditMeaning(history, atts, AnyVote());
    if NoDoubleCount(history, atts) {
      NoDoubleCountMeansNoRepeats(history, atts, AnyVote());
    } else if Repeats(history, atts, AnyVote()) == 0 {
      NoRepeatsMeansNoDoubleCount(history, atts);
    }
    AnyFreshPasses(history, atts);
    DisjointUnionSize(Fresh(history, atts), BlockVotes(atts) * history, BlockVotes(atts));
  }

  lemma AnyFreshPasses(history: set<Vote>, atts: seq<Attestation>)
    ensures FreshPassing(history, atts, AnyVote()) == Fresh(history, atts)
  {
    forall v <- Fresh(history, atts) ensures FirstCarrierPasses(atts, v, AnyVote()) {
      FirstCarrierExists(atts, v);
    }
  }

  lemma {:induction false} FirstCarrierExists(atts: seq<Attestation>, v: Vote)
    requires v in BlockVotes(atts)
    ensures exists k :: 0 <= k < |atts| && v in VotesOf(atts[k]) && v !in BlockVotes(atts[..k])
  {
    var n := |atts| - 1;
    if v in BlockVotes(atts[..n]) {
      FirstCarrierExists(atts[..n], v);
      var k :| 0 <= k < n && v in VotesOf(atts[..n][k]) && v !in BlockVotes(atts[..n][..k]);
      assert atts[..n][..k] == atts[..k];
      assert v in VotesOf(atts[k]);
    }
  }

  /** Fresh votes whose slot passes the source test of the proposal. */
  function TimelySource(history: set<Vote>, header: Header, atts: seq<Attestation>): set<Vote> {
    set v | v in Fresh(history, atts) && header.slot.Some? && Sub(header.slot.value, v.key.slot) <= 5
  }

  /** Although votes are credited to whichever attestation comes first, the source count is
      the number of fresh votes with a timely slot; the target and head counts are the fresh
      votes whose first carrier passes. */
  lemma CreditsExact(history: set<Vote>, roots: map<u64, Root>, header: Header, atts: seq<Attestation>)
    requires NoDoubleCount(history, atts)
    ensures var t := TallyOf(history, roots, header, atts);
            && t.newVotes == |Fresh(history, atts)|
            && t.source == |TimelySource(history, header, atts)|
            && t.target == |FreshPassing(history, atts, TargetCheck(roots))|
            && t.head == |FreshPassing(history, atts, HeadCheck(header))|
  {
    TallyCredits(history, roots, header, atts);
    NewVotesExact(history, atts);
    CreditIsPassing(history, atts, SourceCheck(header));
    CreditIsPassing(history, atts, TargetCheck(roots));
    CreditIsPassing(history, atts, HeadCheck(header));
    PassingSource(history, header, atts);
  }

  /** All four counters on every input. */
  lemma TallyMeaning(history: set<Vote>, roots: map<u64, Root>, header: Header, atts: seq<Attestation>)
    ensures var t := TallyOf(history, roots, header, atts);
            && t.newVotes == |Fresh(history, atts)| + Repeats(history, atts, AnyVote())
            && t.source == |TimelySource(history, header, atts)| + Repeats(history, atts, SourceCheck(header))
            && t.target ==
               |FreshPassing(history, atts, TargetCheck(roots))| + Repeats(history, atts, TargetCheck(roots))
            && t.head == |FreshPassing(history, atts, HeadCheck(header))| + Repeats(history, atts, HeadCheck(header))
  {
    TallyCredits(history, roots, header, atts);
    CreditMeaning(history, atts, AnyVote());
    AnyFreshPasses(history, atts);
    CreditMeaning(history, atts, SourceCheck(header));
    PassingSource(history, header, atts);
    CreditMeaning(history, atts, TargetCheck(roots));
    CreditMeaning(history, atts, HeadCheck(header));
  }

  lemma CreditIsPassing(history: set<Vote>, atts: seq<Attestation>, check: Attestation -> bool)
    requires NoDoubleCount(history, atts)
    ensures Credit(history, atts, check) == |FreshPassing(history, atts, check)|
  {
    CreditMeaning(history, atts, check);
    NoDoubleCountMeansNoRepeats(history, atts, check);
  }

  lemma PassingSource(history: set<Vote>, header: Header, atts: seq<Attestation>)
    ensures FreshPassing(history, atts, SourceCheck(header)) == TimelySource(history, header, atts)
  {
    forall v <- Fresh(history, atts)
      ensures FirstCarrierPasses(atts, v, SourceCheck(header)) <==> v in TimelySource(history, header, atts)
    {
      FirstCarrierExists(atts, v);
      var k :| 0 <= k < |atts| && v in VotesOf(atts[k]) && v !in BlockVotes(atts[..k]);
      assert atts[k].slot == v.key.slot;
      assert SourceCheck(header)(atts[k]) <==> v in TimelySource(history, header, atts);
    }
  }

  lemma SizedNeverDoubleCounts(history: set<Vote>, atts: seq<Attestation>, size: Key -> nat)
    requires CommitteeSized(atts, size)
    ensures NoDoubleCount(history, atts)
  {
    forall j, k, v | 0 <= j < k < |atts| && v in VotesOf(atts[j]) && v in VotesOf(atts[k])
      ensures v.bit < FirstLength(atts, v.key)
    {
      assert atts[j].Committee() == v.key;
      FirstLengthSized(atts, size, v.key);
    }
  }

  // ---------- Invariance ----------

  /** Aggregates that carry the same votes, however they are ordered, split or merged, bring
      the same new votes and the same source credit, as long as neither counts a vote twice. */
  lemma AggregationInvariant(history: set<Vote>, roots: map<u64, Root>, header: Header,
                             a: seq<Attestation>, b: seq<Attestation>)
    requires NoDoubleCount(history, a) && NoDoubleCount(history, b)
    requires BlockVotes(a) == BlockVotes(b)
    ensures TallyOf(history, roots, header, a).newVotes == TallyOf(history, roots, header, b).newVotes
    ensures TallyOf(history, roots, header, a).source == TallyOf(history, roots, header, b).source
  {
    CreditsExact(history, roots, header, a);
    CreditsExact(history, roots, header, b);
  }

  lemma PermutationKeepsVotes(a: seq<Attestation>, b: seq<Attestation>)
    requires multiset(a) == multiset(b)
    ensures BlockVotes(a) == BlockVotes(b)
    ensures forall size: Key -> nat :: CommitteeSized(a, size) ==> CommitteeSized(b, size)
  {
    SameElements(a, b);
    forall v ensures v in BlockVotes(a) <==> v in BlockVotes(b) {
      BlockVotesMember(a, v);
      BlockVotesMember(b, v);
      if k :| 0 <= k < |a| && v in VotesOf(a[k]) {
        assert a[k] in b;
      }
      if k :| 0 <= k < |b| && v in VotesOf(b[k]) {
        assert b[k] in a;
      }
    }
  }

  lemma SameElements<T>(a: seq<T>, b: seq<T>)
    requires multiset(a) == multiset(b)
    ensures forall x :: x in a <==> x in b
  {
    forall x ensures x in a <==> x in b {
      assert x in a <==> x in multiset(a);
      assert x in b <==> x in multiset(b);
    }
  }

  /** Two attestations for one committee and their aggregate carry the same votes. */
  lemma MergeKeepsVotes(front: seq<Attestation>, a: Attestation, b: Attestation, merged: Attestation)
    requires a.Committee() == b.Committee() == merged.Committee()
    requires |a.bits| == |b.bits| == |merged.bits|
    requires forall i | 0 <= i < |a.bits| :: merged.bits[i] == (a.bits[i] || b.bits[i])
    ensures BlockVotes(front + [a, b]) == BlockVotes(front + [merged])
  {
    BlockVotesOfConcat(front, [a, b]);
    BlockVotesOfConcat(front, [merged]);
    assert [a, b][..1] == [a] && [a][..0] == [] && [merged][..0] == [];
    assert VotesOf(merged) == VotesOf(a) + VotesOf(b) by {
      forall v | v in VotesOf(merged) ensures v in VotesOf(a) + VotesOf(b) {
        assert a.bits[v.bit] || b.bits[v.bit];
      }
      forall v | v in VotesOf(a) + VotesOf(b) ensures v in VotesOf(merged) {
        assert merged.bits[v.bit];
      }
    }
  }

  // ---------- Bounds and monotonicity ----------

  lemma {:induction false} CreditMonotone(small: set<Vote>, large: set<Vote>, atts: seq<Attestation>,
                                          weak: Attestation -> bool, strong: Attestation -> bool)
    requires small <= large
    requires forall a <- atts | strong(a) :: weak(a)
    ensures Credit(large, atts, strong) <= Credit(small, atts, weak)
  {
    if atts == [] {
    } else {
      var k := |atts| - 1;
      CreditMonotone(small, large, atts[..k], weak, strong);
      SubsetSize(NewAt(large, atts, k), NewAt(small, atts, k));
    }
  }

  lemma SubsetSize<T>(a: set<T>, b: set<T>)
    requires a <= b
    ensures |a| <= |b|
  {
    assert b == a + (b - a);
  }

  /** A correct head is also a correct source, with wrap-around too; so no counter exceeds
      the new votes and the score is at most 54/64 a vote. */
  lemma ScoreBounds(history: set<Vote>, roots: map<u64, Root>, header: Header, atts: seq<Attestation>)
    ensures var t := TallyOf(history, roots, header, atts);
            && t.head <= t.source <= t.newVotes
            && t.target <= t.newVotes
            && t.score64 <= 54 * t.newVotes
  {
    TallyCredits(history, roots, header, atts);
    CreditMonotone(history, history, atts, SourceCheck(header), HeadCheck(header));
    CreditMonotone(history, history, atts, AnyVote(), SourceCheck(header));
    CreditMonotone(history, history, atts, AnyVote(), TargetCheck(roots));
  }

  /** A larger vote history and more recorded roots never help a proposal. */
  lemma ScoreMonotone(small: set<Vote>, large: set<Vote>, few: map<u64, Root>, many: map<u64, Root>,
                      header: Header, atts: seq<Attestation>)
    requires small <= large
    requires forall s <- few :: s in many && many[s] == few[s]
    ensures var more, less := TallyOf(small, few, header, atts), TallyOf(large, many, header, atts);
            && less.newVotes <= more.newVotes
            && less.source <= more.source
            && less.target <= more.target
            && less.head <= more.head
            && less.score64 <= more.score64
  {
    TallyCredits(small, few, header, atts);
    TallyCredits(large, many, header, atts);
    CreditMonotone(small, large, atts, AnyVote(), AnyVote());
    CreditMonotone(small, large, atts, SourceCheck(header), SourceCheck(header));
    CreditMonotone(small, large, atts, HeadCheck(header), HeadCheck(header));
    CreditMonotone(small, large, atts, TargetCheck(few), TargetCheck(many));
  }

  lemma {:induction false} NothingNew(history: set<Vote>, atts: seq<Attestation>, check: Attestation -> bool)
    requires BlockVotes(atts) <= history
    ensures Credit(history, atts, check) == 0
  {
    if atts == [] {
    } else {
      var k := |atts| - 1;
      NothingNew(history, atts[..k], check);
      assert NewAt(history, atts, k) == {};
    }
  }

  /** A block earns nothing for attestations if and only if all its votes are in the history. */
  lemma ZeroScoreIff(history: set<Vote>, roots: map<u64, Root>, header: Header, atts: seq<Attestation>)
    ensures TallyOf(history, roots, header, atts) == Tally(0, 0, 0, 0, 0) <==> BlockVotes(atts) <= history
    ensures TallyOf(history, roots, header, atts).newVotes == 0 <==> BlockVotes(atts) <= history
  {
    TallyCredits(history, roots, header, atts);
    NewVotesExact(history, atts);
    if BlockVotes(atts) <= history {
      NothingNew(history, atts, AnyVote());
      NothingNew(history, atts, SourceCheck(header));
      NothingNew(history, atts, TargetCheck(roots));
      NothingNew(history, atts, HeadCheck(header));
    } else {
      var v :| v in BlockVotes(atts) && v !in history;
      assert v in Fresh(history, atts);
    }
  }

  /** Once a block is absorbed, a proposal that only repeats votes of that block or of the
      history scores zero if and only if each of its votes was known or fitted its bitlist. */
  lemma AbsorbedBlockScoresZero(h: Hist, block: seq<Attestation>, roots: map<u64, Root>, header: Header,
                                atts: seq<Attestation>)
    requires BlockVotes(atts) <= h.votes + BlockVotes(block)
    ensures TallyOf(Absorb(h, block).votes, roots, header, atts) == Tally(0, 0, 0, 0, 0) <==>
            forall v <- BlockVotes(atts) :: v in h.votes || v.bit < EffectiveLength(h, block, v.key)
  {
    var history := Absorb(h, block).votes;
    ZeroScoreIff(history, roots, header, atts);
    forall v <- BlockVotes(atts)
      ensures v in history <==> v in h.votes || v.bit < EffectiveLength(h, block, v.key)
    {
      AbsorbMeaning(h, block, v);
    }
  }

  // ---------- Locality ----------

  /** Histories that agree on the slots a proposal votes for give the same credit. */
  lemma {:induction false} CreditLocal(h1: set<Vote>, h2: set<Vote>, atts: seq<Attestation>,
                                       check1: Attestation -> bool, check2: Attestation -> bool)
    requires forall a <- atts, v <- VotesOf(a) :: v in h1 <==> v in h2
    requires forall a <- atts :: check1(a) == check2(a)
    ensures Credit(h1, atts, check1) == Credit(h2, atts, check2)
  {
    if atts == [] {
    } else {
      var k := |atts| - 1;
      CreditLocal(h1, h2, atts[..k], check1, check2);
      assert atts[k] in atts;
      assert NewAt(h1, atts, k) == NewAt(h2, atts, k);
    }
  }

  lemma TallyLocal(h1: set<Vote>, h2: set<Vote>, roots1: map<u64, Root>, roots2: map<u64, Root>,
                   header: Header, atts: seq<Attestation>)
    requires forall a <- atts, v <- VotesOf(a) :: v in h1 <==> v in h2
    requires forall a <- atts :: IsCorrectTarget(a, roots1) == IsCorrectTarget(a, roots2)
    ensures TallyOf(h1, roots1, header, atts) == TallyOf(h2, roots2, header, atts)
  {
    TallyCredits(h1, roots1, header, atts);
    TallyCredits(h2, roots2, header, atts);
    CreditLocal(h1, h2, atts, AnyVote(), AnyVote());
    CreditLocal(h1, h2, atts, SourceCheck(header), SourceCheck(header));
    CreditLocal(h1, h2, atts, TargetCheck(roots1), TargetCheck(roots2));
    CreditLocal(h1, h2, atts, HeadCheck(header), HeadCheck(header));
  }
}
