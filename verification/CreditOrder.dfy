/** When the order of a proposal's attestations decides a counter. Votes are credited to the
    first attestation that carries them, so only disagreeing carriers of one new vote matter. */
module CreditOrder {
  import opened Wrappers
  import opened U64
  import opened Votes
  import opened Scoring

  /** Any two attestations that share a vote not in the history agree on the check. */
  ghost predicate CarriersAgree(history: set<Vote>, atts: seq<Attestation>, check: Attestation -> bool) {
    forall a <- atts, b <- atts, v | v in VotesOf(a) && v in VotesOf(b) && v !in history :: check(a) == check(b)
  }

  /** Some attestation that passes, or fails, the check carries the vote. */
  ghost predicate Carried(atts: seq<Attestation>, v: Vote, check: Attestation -> bool, passes: bool) {
    exists a <- atts :: v in VotesOf(a) && check(a) == passes
  }

  ghost function CarriedBy(history: set<Vote>, atts: seq<Attestation>,
                           check: Attestation -> bool, passes: bool): set<Vote> {
    set v | v in Fresh(history, atts) && Carried(atts, v, check, passes)
  }

  // ---------- Two orders ----------

  /** The attestations with the given verdict, in their order. */
  function Sieve(atts: seq<Attestation>, check: Attestation -> bool, passes: bool): (s: seq<Attestation>)
    ensures forall a <- s :: a in atts && check(a) == passes
  {
    if atts == [] then []
    else (if check(atts[0]) == passes then [atts[0]] else []) + Sieve(atts[1..], check, passes)
  }

  lemma HeadAndTail(atts: seq<Attestation>)
    requires atts != []
    ensures multiset(atts) == multiset{atts[0]} + multiset(atts[1..])
  {
    assert atts == [atts[0]] + atts[1..];
  }

  lemma {:induction false} SieveSplits(atts: seq<Attestation>, check: Attestation -> bool)
    ensures multiset(Sieve(atts, check, true)) + multiset(Sieve(atts, check, false)) == multiset(atts)
  {
    if atts == [] {
    } else {
      SieveSplits(atts[1..], check);
      HeadAndTail(atts);
    }
  }

  /** The passing attestations first, and the failing ones first. */
  function PassFail(atts: seq<Attestation>, check: Attestation -> bool): seq<Attestation> {
    Sieve(atts, check, true) + Sieve(atts, check, false)
  }

  function FailPass(atts: seq<Attestation>, check: Attestation -> bool): seq<Attestation> {
    Sieve(atts, check, false) + Sieve(atts, check, true)
  }

  lemma SieveKeeps(atts: seq<Attestation>, check: Attestation -> bool)
    ensures multiset(PassFail(atts, check)) == multiset(FailPass(atts, check)) == multiset(atts)
  {
    SieveSplits(atts, check);
  }

  lemma SieveVotes(atts: seq<Attestation>, check: Attestation -> bool, passes: bool, v: Vote)
    ensures v in BlockVotes(Sieve(atts, check, passes)) <==> Carried(atts, v, check, passes)
  {
    var s := Sieve(atts, check, passes);
    BlockVotesMember(s, v);
    if k :| 0 <= k < |s| && v in VotesOf(s[k]) {
      assert s[k] in s;
    }
    if a :| a in atts && v in VotesOf(a) && check(a) == passes {
      SieveFinds(atts, check, passes, a);
    }
  }

  lemma {:induction false} SieveFinds(atts: seq<Attestation>, check: Attestation -> bool, passes: bool, a: Attestation)
    requires a in atts && check(a) == passes
    ensures exists k :: 0 <= k < |Sieve(atts, check, passes)| && Sieve(atts, check, passes)[k] == a
  {
    var s := Sieve(atts, check, passes);
    if atts[0] == a {
      assert s[0] == a;
    } else {
      assert a in atts[1..];
      SieveFinds(atts[1..], check, passes, a);
      var rest := Sieve(atts[1..], check, passes);
      var k :| 0 <= k < |rest| && rest[k] == a;
      assert s[k + (|s| - |rest|)] == a;
    }
  }

  /** With all passing attestations in front, a vote's first carrier passes if any carrier does. */
  lemma PassingFirst(front: seq<Attestation>, back: seq<Attestation>, v: Vote, check: Attestation -> bool)
    requires (forall a <- front :: check(a)) && (forall a <- back :: !check(a))
    ensures FirstCarrierPasses(front + back, v, check) <==> v in BlockVotes(front)
  {
    var atts := front + back;
    if v in BlockVotes(front) {
      FirstCarrierExists(front, v);
      var k :| 0 <= k < |front| && v in VotesOf(front[k]) && v !in BlockVotes(front[..k]);
      assert atts[k] == front[k] && atts[..k] == front[..k];
      assert front[k] in front;
    }
    if k :| 0 <= k < |atts| && v in VotesOf(atts[k]) && v !in BlockVotes(atts[..k]) && check(atts[k]) {
      InFrontOrBack(front, back, k);
      assert front[k] == atts[k];
      BlockVotesMember(front, v);
    }
  }

  /** With all of them at the back, only if no failing attestation carries it. */
  lemma FailingFirst(front: seq<Attestation>, back: seq<Attestation>, v: Vote, check: Attestation -> bool)
    requires (forall a <- front :: !check(a)) && (forall a <- back :: check(a))
    ensures FirstCarrierPasses(front + back, v, check) <==> v in BlockVotes(back) && v !in BlockVotes(front)
  {
    var atts := front + back;
    BlockVotesOfConcat(front, back);
    if v in BlockVotes(back) && v !in BlockVotes(front) {
      FirstCarrierExists(atts, v);
      var k :| 0 <= k < |atts| && v in VotesOf(atts[k]) && v !in BlockVotes(atts[..k]);
      NotInFront(front, back, v, k);
      assert atts[k] in back;
    }
    if k :| 0 <= k < |atts| && v in VotesOf(atts[k]) && v !in BlockVotes(atts[..k]) && check(atts[k]) {
      InFrontOrBack(front, back, k);
      assert atts[..k] == front + back[..k - |front|];
      BlockVotesOfConcat(front, back[..k - |front|]);
      assert atts[k] == back[k - |front|];
      BlockVotesMember(back, v);
    }
  }

  lemma InFrontOrBack(front: seq<Attestation>, back: seq<Attestation>, k: nat)
    requires k < |front + back|
    ensures if k < |front| then (front + back)[k] in front else (front + back)[k] in back
  {}

  lemma NotInFront(front: seq<Attestation>, back: seq<Attestation>, v: Vote, k: nat)
    requires k < |front + back| && v in VotesOf((front + back)[k]) && v !in BlockVotes(front)
    ensures k >= |front| && (front + back)[k] == back[k - |front|]
  {
    BlockVotesMember(front, v);
  }

  // ---------- Distinct votes over all orders ----------

  lemma PermutationFresh(history: set<Vote>, atts: seq<Attestation>, b: seq<Attestation>)
    requires multiset(b) == multiset(atts)
    ensures Fresh(history, b) == Fresh(history, atts)
    ensures forall a :: a in b <==> a in atts
  {
    PermutationKeepsVotes(atts, b);
    SameElements(atts, b);
  }

  /** The two extreme orders: with the passing attestations first the first carrier of every new
      vote that a passing one carries passes, with the failing ones first only of those that no
      failing one carries. */
  lemma ExtremeOrders(history: set<Vote>, atts: seq<Attestation>, check: Attestation -> bool)
    ensures multiset(PassFail(atts, check)) == multiset(FailPass(atts, check)) == multiset(atts)
    ensures FreshPassing(history, PassFail(atts, check), check) == CarriedBy(history, atts, check, true)
    ensures FreshPassing(history, FailPass(atts, check), check) ==
            CarriedBy(history, atts, check, true) - CarriedBy(history, atts, check, false)
  {
    SieveKeeps(atts, check);
    PermutationFresh(history, atts, PassFail(atts, check));
    PermutationFresh(history, atts, FailPass(atts, check));
    PassingFirstSet(history, atts, check);
    FailingFirstSet(history, atts, check);
  }

  lemma PassingFirstSet(history: set<Vote>, atts: seq<Attestation>, check: Attestation -> bool)
    requires Fresh(history, PassFail(atts, check)) == Fresh(history, atts)
    ensures FreshPassing(history, PassFail(atts, check), check) == CarriedBy(history, atts, check, true)
  {
    var pass, fail := Sieve(atts, check, true), Sieve(atts, check, false);
    forall v ensures FirstCarrierPasses(pass + fail, v, check) <==> Carried(atts, v, check, true) {
      PassingFirst(pass, fail, v, check);
      SieveVotes(atts, check, true, v);
    }
  }

  lemma FailingFirstSet(history: set<Vote>, atts: seq<Attestation>, check: Attestation -> bool)
    requires Fresh(history, FailPass(atts, check)) == Fresh(history, atts)
    ensures FreshPassing(history, FailPass(atts, check), check) ==
            CarriedBy(history, atts, check, true) - CarriedBy(history, atts, check, false)
  {
    var pass, fail := Sieve(atts, check, true), Sieve(atts, check, false);
    forall v ensures FirstCarrierPasses(fail + pass, v, check) <==>
                     Carried(atts, v, check, true) && !Carried(atts, v, check, false) {
      FailingFirst(fail, pass, v, check);
      SieveVotes(atts, check, true, v);
      SieveVotes(atts, check, false, v);
    }
  }

  lemma AgreementMeansDisjoint(history: set<Vote>, atts: seq<Attestation>, check: Attestation -> bool)
    ensures CarriersAgree(history, atts, check) <==>
            CarriedBy(history, atts, check, true) !! CarriedBy(history, atts, check, false)
  {
    var passing, failing := CarriedBy(history, atts, check, true), CarriedBy(history, atts, check, false);
    if v :| v in passing && v in failing {
      var a :| a in atts && v in VotesOf(a) && check(a);
      var b :| b in atts && v in VotesOf(b) && !check(b);
      assert !CarriersAgree(history, atts, check);
    }
    forall a <- atts, b <- atts, v | v in VotesOf(a) && v in VotesOf(b) && v !in history && check(a) && !check(b)
      ensures v in passing && v in failing
    {
      var k :| 0 <= k < |atts| && atts[k] == a;
      BlockVotesMember(atts, v);
    }
  }

  /** If the carriers agree, in every order the first carrier passes exactly of the new votes
      that some passing attestation carries. */
  lemma AgreementFixesPassing(history: set<Vote>, atts: seq<Attestation>, b: seq<Attestation>,
                              check: Attestation -> bool)
    requires multiset(b) == multiset(atts) && CarriersAgree(history, atts, check)
    ensures FreshPassing(history, b, check) == CarriedBy(history, atts, check, true)
  {
    PermutationFresh(history, atts, b);
    forall v <- Fresh(history, b) ensures FirstCarrierPasses(b, v, check) <==> Carried(atts, v, check, true) {
      FirstCarrierExists(b, v);
      var k :| 0 <= k < |b| && v in VotesOf(b[k]) && v !in BlockVotes(b[..k]);
      assert b[k] in b;
      assert check(b[k]) <==> Carried(atts, v, check, true);
      OnlyFirstCarrier(b, v, k, check);
    }
  }

  lemma OnlyFirstCarrier(atts: seq<Attestation>, v: Vote, k: nat, check: Attestation -> bool)
    requires k < |atts| && v in VotesOf(atts[k]) && v !in BlockVotes(atts[..k])
    ensures FirstCarrierPasses(atts, v, check) <==> check(atts[k])
  {
    if j :| 0 <= j < |atts| && v in VotesOf(atts[j]) && v !in BlockVotes(atts[..j]) && check(atts[j]) {
      if j < k {
        assert atts[..k][j] == atts[j];
        BlockVotesMember(atts[..k], v);
      } else if k < j {
        assert atts[..j][k] == atts[k];
        BlockVotesMember(atts[..j], v);
      }
    }
  }

  /** The number of new votes whose first carrier passes is the same in every order. */
  ghost predicate PassingOrderFree(history: set<Vote>, atts: seq<Attestation>, check: Attestation -> bool) {
    forall b: seq<Attestation> | multiset(b) == multiset(atts) ::
      |FreshPassing(history, b, check)| == |FreshPassing(history, atts, check)|
  }

  /** It is, if and only if any two attestations that share a new vote agree on the check. */
  lemma PassingOrderFreeIff(history: set<Vote>, atts: seq<Attestation>, check: Attestation -> bool)
    ensures PassingOrderFree(history, atts, check) <==> CarriersAgree(history, atts, check)
  {
    if CarriersAgree(history, atts, check) {
      forall b: seq<Attestation> | multiset(b) == multiset(atts)
        ensures |FreshPassing(history, b, check)| == |FreshPassing(history, atts, check)|
      {
        AgreementFixesPassing(history, atts, b, check);
        AgreementFixesPassing(history, atts, atts, check);
      }
    }
    if PassingOrderFree(history, atts, check) {
      SameInExtremeOrders(history, atts, check);
      DisjointBySize(CarriedBy(history, atts, check, true), CarriedBy(history, atts, check, false));
      AgreementMeansDisjoint(history, atts, check);
    }
  }

  lemma SameInExtremeOrders(history: set<Vote>, atts: seq<Attestation>, check: Attestation -> bool)
    requires PassingOrderFree(history, atts, check)
    ensures |CarriedBy(history, atts, check, true)| ==
            |CarriedBy(history, atts, check, true) - CarriedBy(history, atts, check, false)|
  {
    ExtremeOrders(history, atts, check);
  }

  lemma DisjointBySize<T>(a: set<T>, b: set<T>)
    requires |a| == |a - b|
    ensures a !! b
  {
    assert a == (a - b) + a * b;
  }

  // ---------- Checks on the committee: NewVotes and CorrectSource ----------

  /** Every order of the attestations gives the same counter. */
  ghost predicate OrderFree(history: set<Vote>, atts: seq<Attestation>, check: Attestation -> bool) {
    forall b: seq<Attestation> | multiset(b) == multiset(atts) ::
      Credit(history, b, check) == Credit(history, atts, check)
  }

  /** The check only looks at the slot and the committee index. */
  ghost predicate OnCommittee(check: Attestation -> bool) {
    forall a: Attestation, b: Attestation | a.Committee() == b.Committee() :: check(a) == check(b)
  }

  ghost predicate CarriedTwice(atts: seq<Attestation>, v: Vote) {
    exists j, k :: 0 <= j < k < |atts| && v in VotesOf(atts[j]) && v in VotesOf(atts[k])
  }

  /** A new vote that two attestations carry fits the bitfield of every attestation of its
      committee; only votes that pass the check matter. */
  ghost predicate RoomForRepeats(history: set<Vote>, atts: seq<Attestation>, check: Attestation -> bool) {
    forall a <- atts, v: Vote | CarriedTwice(atts, v) && v !in history && v.key == a.Committee() && check(a) ::
      v.bit < |a.bits|
  }

  lemma TakeOne(atts: seq<Attestation>, k: nat)
    requires k < |atts|
    ensures multiset([atts[k]] + (atts[..k] + atts[k + 1..])) == multiset(atts)
  {
    assert atts == atts[..k] + [atts[k]] + atts[k + 1..];
  }

  function CarriesVote(v: Vote): Attestation -> bool { a => v in VotesOf(a) }

  /** Two carriers, told by counting. */
  lemma {:induction false} TwiceByCount(atts: seq<Attestation>, v: Vote)
    ensures CarriedTwice(atts, v) <==> |Sieve(atts, CarriesVote(v), true)| >= 2
    ensures v in BlockVotes(atts) <==> |Sieve(atts, CarriesVote(v), true)| >= 1
  {
    BlockVotesMember(atts, v);
    if atts == [] {
    } else {
      var rest := atts[1..];
      TwiceByCount(rest, v);
      BlockVotesMember(rest, v);
      if j, k :| 0 <= j < k < |rest| && v in VotesOf(rest[j]) && v in VotesOf(rest[k]) {
        assert v in VotesOf(atts[j + 1]) && v in VotesOf(atts[k + 1]);
      }
      if k :| 0 <= k < |rest| && v in VotesOf(rest[k]) {
        assert v in VotesOf(atts[k + 1]);
      }
      if j, k :| 0 <= j < k < |atts| && v in VotesOf(atts[j]) && v in VotesOf(atts[k]) {
        assert v in VotesOf(rest[k - 1]);
        if j > 0 {
          assert v in VotesOf(rest[j - 1]);
        }
      }
    }
  }

  lemma {:induction false} SieveCounts(atts: seq<Attestation>, check: Attestation -> bool, passes: bool, a: Attestation)
    ensures multiset(Sieve(atts, check, passes))[a] == if check(a) == passes then multiset(atts)[a] else 0
  {
    if atts == [] {
    } else {
      SieveCounts(atts[1..], check, passes, a);
      HeadAndTail(atts);
    }
  }

  lemma PermutationSieve(atts: seq<Attestation>, b: seq<Attestation>, check: Attestation -> bool, passes: bool)
    requires multiset(b) == multiset(atts)
    ensures multiset(Sieve(b, check, passes)) == multiset(Sieve(atts, check, passes))
    ensures |Sieve(b, check, passes)| == |Sieve(atts, check, passes)|
  {
    forall a ensures multiset(Sieve(b, check, passes))[a] == multiset(Sieve(atts, check, passes))[a] {
      SieveCounts(atts, check, passes, a);
      SieveCounts(b, check, passes, a);
    }
    assert |multiset(Sieve(b, check, passes))| == |Sieve(b, check, passes)|;
    assert |multiset(Sieve(atts, check, passes))| == |Sieve(atts, check, passes)|;
  }

  lemma PermutationKeepsRoom(history: set<Vote>, atts: seq<Attestation>, b: seq<Attestation>,
                             check: Attestation -> bool)
    requires multiset(b) == multiset(atts)
    ensures RoomForRepeats(history, b, check) <==> RoomForRepeats(history, atts, check)
  {
    SameElements(atts, b);
    forall v ensures CarriedTwice(b, v) <==> CarriedTwice(atts, v) {
      PermutationKeepsTwice(atts, b, v);
    }
  }

  lemma PermutationKeepsTwice(atts: seq<Attestation>, b: seq<Attestation>, v: Vote)
    requires multiset(b) == multiset(atts)
    ensures CarriedTwice(b, v) <==> CarriedTwice(atts, v)
  {
    TwiceByCount(atts, v);
    TwiceByCount(b, v);
    PermutationSieve(atts, b, CarriesVote(v), true);
  }

  lemma {:induction false} FirstLengthOfSome(atts: seq<Attestation>, key: Key) returns (j: nat)
    requires Carries(atts, key)
    ensures j < |atts| && atts[j].Committee() == key && FirstLength(atts, key) == |atts[j].bits|
    ensures forall i | 0 <= i < j :: atts[i].Committee() != key
  {
    if atts[0].Committee() == key {
      j := 0;
    } else {
      var k :| 0 <= k < |atts| && atts[k].Committee() == key;
      assert atts[1..][k - 1].Committee() == key;
      j := FirstLengthOfSome(atts[1..], key);
      j := j + 1;
    }
  }

  /** With that room no order counts a vote again. */
  lemma RoomMeansNoRepeats(history: set<Vote>, atts: seq<Attestation>, check: Attestation -> bool)
    requires OnCommittee(check) && RoomForRepeats(history, atts, check)
    ensures Repeats(history, atts, check) == 0
  {
    RepeatsZero(history, atts, check);
    forall k | 0 <= k < |atts| && check(atts[k]) ensures RepeatedAt(history, atts, k) == {} {
      forall v ensures v !in RepeatedAt(history, atts, k) {
        RepeatedMember(history, atts, k, v);
        if v in RepeatedAt(history, atts, k) {
          RepeatedHasNoRoom(history, atts, k, v, check);
        }
      }
    }
  }

  lemma RepeatedHasNoRoom(history: set<Vote>, atts: seq<Attestation>, k: nat, v: Vote, check: Attestation -> bool)
    requires OnCommittee(check) && k < |atts| && check(atts[k]) && v in RepeatedAt(history, atts, k)
    ensures !RoomForRepeats(history, atts, check)
  {
    RepeatedMember(history, atts, k, v);
    BlockVotesMember(atts[..k], v);
    var j :| 0 <= j < k && v in VotesOf(atts[..k][j]);
    assert CarriedTwice(atts, v);
    assert atts[k].Committee() == v.key;
    var first := FirstLengthOfSome(atts, v.key);
    assert check(atts[first]) && atts[first] in atts;
  }

  /** Without it, the attestation that has no room comes first and the vote is counted again. */
  lemma NoRoomMeansRepeats(history: set<Vote>, atts: seq<Attestation>, check: Attestation -> bool)
    returns (b: seq<Attestation>)
    requires OnCommittee(check) && !RoomForRepeats(history, atts, check)
    ensures multiset(b) == multiset(atts) && Repeats(history, b, check) > 0
  {
    var a, v :| a in atts && CarriedTwice(atts, v) && v !in history && v.key == a.Committee() && check(a)
      && v.bit >= |a.bits|;
    var i :| 0 <= i < |atts| && atts[i] == a;
    b := [a] + (atts[..i] + atts[i + 1..]);
    TakeOne(atts, i);
    PermutationKeepsTwice(atts, b, v);
    ShortFirstRepeats(history, b, v, check);
  }

  lemma ShortFirstRepeats(history: set<Vote>, atts: seq<Attestation>, v: Vote, check: Attestation -> bool)
    requires OnCommittee(check) && CarriedTwice(atts, v) && v !in history
    requires v.key == atts[0].Committee() && check(atts[0]) && v.bit >= |atts[0].bits|
    ensures Repeats(history, atts, check) > 0
  {
    var j, k :| 0 <= j < k < |atts| && v in VotesOf(atts[j]) && v in VotesOf(atts[k]);
    assert atts[..k][j] == atts[j];
    BlockVotesMember(atts[..k], v);
    RepeatedMember(history, atts, k, v);
    assert atts[k].Committee() == atts[0].Committee();
    assert v in RepeatedAt(history, atts, k);
    RepeatsZero(history, atts, check);
  }

  // ---------- Longest bitfields first ----------

  ghost predicate ByLength(atts: seq<Attestation>) {
    forall i, j | 0 <= i < j < |atts| :: |atts[i].bits| >= |atts[j].bits|
  }

  function Insert(a: Attestation, atts: seq<Attestation>): seq<Attestation> {
    if atts == [] || |a.bits| >= |atts[0].bits| then [a] + atts else [atts[0]] + Insert(a, atts[1..])
  }

  lemma {:induction false} InsertKeepsOrder(a: Attestation, atts: seq<Attestation>)
    requires ByLength(atts)
    ensures ByLength(Insert(a, atts)) && multiset(Insert(a, atts)) == multiset(atts) + multiset{a}
  {
    if atts == [] || |a.bits| >= |atts[0].bits| {
    } else {
      InsertKeepsOrder(a, atts[1..]);
      HeadAndTail(atts);
      var rest := Insert(a, atts[1..]);
      assert multiset([atts[0]] + rest) == multiset{atts[0]} + multiset(rest);
      forall b <- rest ensures |atts[0].bits| >= |b.bits| {
        assert b in multiset(rest);
        assert b == a || b in atts[1..];
      }
      LongerFirst(atts[0], rest);
    }
  }

  lemma LongerFirst(a: Attestation, atts: seq<Attestation>)
    requires ByLength(atts) && forall b <- atts :: |a.bits| >= |b.bits|
    ensures ByLength([a] + atts)
  {}

  function LongestFirst(atts: seq<Attestation>): seq<Attestation> {
    if atts == [] then [] else Insert(atts[0], LongestFirst(atts[1..]))
  }

  lemma {:induction false} LongestFirstSorts(atts: seq<Attestation>)
    ensures ByLength(LongestFirst(atts)) && multiset(LongestFirst(atts)) == multiset(atts)
  {
    if atts == [] {
    } else {
      LongestFirstSorts(atts[1..]);
      InsertKeepsOrder(atts[0], LongestFirst(atts[1..]));
      HeadAndTail(atts);
    }
  }

  /** In this order every vote fits. */
  lemma LongestFirstCountsOnce(history: set<Vote>, atts: seq<Attestation>)
    requires ByLength(atts)
    ensures NoDoubleCount(history, atts)
  {
    forall j, k, v | 0 <= j < k < |atts| && v in VotesOf(atts[j]) && v in VotesOf(atts[k])
      ensures v.bit < FirstLength(atts, v.key)
    {
      assert atts[j].Committee() == v.key;
      var first := FirstLengthOfSome(atts, v.key);
      assert first <= j;
    }
  }

  /** A counter whose check only looks at the committee is the same in every order, if and only
      if every new vote that two passing attestations carry fits the bitfield of every attestation
      of its committee. */
  lemma CommitteeCheckOrderIff(history: set<Vote>, atts: seq<Attestation>, check: Attestation -> bool)
    requires OnCommittee(check)
    ensures OrderFree(history, atts, check) <==> RoomForRepeats(history, atts, check)
  {
    if RoomForRepeats(history, atts, check) {
      forall b: seq<Attestation> | multiset(b) == multiset(atts)
        ensures Credit(history, b, check) == Credit(history, atts, check)
      {
        PermutationKeepsRoom(history, atts, b, check);
        RoomMeansNoRepeats(history, b, check);
        RoomMeansNoRepeats(history, atts, check);
        CreditOnCommittee(history, atts, b, check);
        CreditOnCommittee(history, atts, atts, check);
      }
    } else {
      var b := NoRoomMeansRepeats(history, atts, check);
      LongestFirstSorts(atts);
      LongestFirstCountsOnce(history, LongestFirst(atts));
      NoDoubleCountMeansNoRepeats(history, LongestFirst(atts), check);
      CreditOnCommittee(history, atts, b, check);
      CreditOnCommittee(history, atts, LongestFirst(atts), check);
    }
  }

  lemma CreditOnCommittee(history: set<Vote>, atts: seq<Attestation>, b: seq<Attestation>, check: Attestation -> bool)
    requires OnCommittee(check) && multiset(b) == multiset(atts)
    ensures Credit(history, b, check) == |CarriedBy(history, atts, check, true)| + Repeats(history, b, check)
  {
    CreditMeaning(history, b, check);
    forall a1 <- atts, a2 <- atts, v | v in VotesOf(a1) && v in VotesOf(a2) ensures check(a1) == check(a2) {
      assert a1.Committee() == v.key == a2.Committee();
    }
    AgreementFixesPassing(history, atts, b, check);
  }

  /** NewVotes is the same in every order if and only if every new vote carried twice fits every
      bitfield of its committee; CorrectSource, if and only if the timely ones among them do. */
  lemma NewVotesAndSourceOrderIff(history: set<Vote>, atts: seq<Attestation>, header: Header)
    ensures OrderFree(history, atts, AnyVote()) <==>
            forall a <- atts, v: Vote | CarriedTwice(atts, v) && v !in history && v.key == a.Committee() ::
              v.bit < |a.bits|
    ensures OrderFree(history, atts, SourceCheck(header)) <==>
            forall a <- atts, v: Vote | CarriedTwice(atts, v) && v !in history && v.key == a.Committee()
              && IsCorrectSource(a, header) :: v.bit < |a.bits|
  {
    CommitteeCheckOrderIff(history, atts, AnyVote());
    assert OnCommittee(SourceCheck(header));
    CommitteeCheckOrderIff(history, atts, SourceCheck(header));
  }

  /** For instance, a shorter bitfield of the committee and two carriers of a vote past its end. */
  lemma NewVotesDependOnOrder(history: set<Vote>, short: Attestation, a: Attestation, b: Attestation, v: Vote)
    requires v !in history && v in VotesOf(a) && v in VotesOf(b)
    requires short.Committee() == v.key && |short.bits| <= v.bit
    ensures !OrderFree(history, [short, a, b], AnyVote())
  {
    var atts := [short, a, b];
    NewVotesAndSourceOrderIff(history, atts, Header(None, None));
    assert v in VotesOf(atts[1]) && v in VotesOf(atts[2]) && CarriedTwice(atts, v);
    assert short in atts;
  }

  /** When NewVotes is the same in every order, any counter is, if and only if any two
      attestations that share a new vote agree on its check. */
  lemma OnceCountedOrderIff(history: set<Vote>, atts: seq<Attestation>, check: Attestation -> bool)
    requires OrderFree(history, atts, AnyVote())
    ensures OrderFree(history, atts, check) <==> CarriersAgree(history, atts, check)
  {
    CommitteeCheckOrderIff(history, atts, AnyVote());
    forall b: seq<Attestation> | multiset(b) == multiset(atts)
      ensures Credit(history, b, check) == |FreshPassing(history, b, check)|
    {
      PermutationKeepsRoom(history, atts, b, AnyVote());
      RoomMeansNoRepeats(history, b, AnyVote());
      NoRepeatsMeansNoDoubleCount(history, b);
      CreditIsPassing(history, b, check);
    }
    PassingOrderFreeIff(history, atts, check);
  }

  lemma SizedNewVotesOrderFree(history: set<Vote>, atts: seq<Attestation>, size: Key -> nat)
    requires CommitteeSized(atts, size)
    ensures OrderFree(history, atts, AnyVote())
  {
    CommitteeCheckOrderIff(history, atts, AnyVote());
    forall a <- atts, v: Vote | CarriedTwice(atts, v) && v.key == a.Committee() ensures v.bit < |a.bits| {
      var j, k :| 0 <= j < k < |atts| && v in VotesOf(atts[j]) && v in VotesOf(atts[k]);
      assert atts[j] in atts && atts[j].Committee() == v.key;
    }
  }

  /** Two attestations for one vote always have room for it; so two carriers with different
      target roots, one of them recorded, make CorrectTarget depend on their order. */
  lemma TargetDependsOnOrder(a: Attestation, b: Attestation, v: Vote, roots: map<u64, Root>)
    requires v in VotesOf(a) && v in VotesOf(b)
    requires FirstSlotOfEpoch(a.slot) in roots && roots[FirstSlotOfEpoch(a.slot)] == a.targetRoot != b.targetRoot
    ensures !OrderFree({}, [a, b], TargetCheck(roots))
  {
    var history: set<Vote> := {};
    PairHasRoom(history, a, b);
    OnceCountedOrderIff(history, [a, b], TargetCheck(roots));
    assert a in [a, b] && b in [a, b] && a.slot == v.key.slot == b.slot;
    assert TargetCheck(roots)(a) && !TargetCheck(roots)(b);
    assert v !in history && !CarriersAgree(history, [a, b], TargetCheck(roots));
  }

  lemma PairHasRoom(history: set<Vote>, a: Attestation, b: Attestation)
    ensures OrderFree(history, [a, b], AnyVote())
  {
    CommitteeCheckOrderIff(history, [a, b], AnyVote());
    forall v: Vote | CarriedTwice([a, b], v) ensures v in VotesOf(a) && v in VotesOf(b) {
      var j, k :| 0 <= j < k < |[a, b]| && v in VotesOf([a, b][j]) && v in VotesOf([a, b][k]);
      assert j == 0 && k == 1;
    }
  }
}
