/** Attestations, the votes they carry, and the set-level account of the vote history:
    which votes a nested map of bitlists holds after blocks are folded into it and old
    slots are pruned from it. */
module Votes {
  import opened U64

  /** A 32-byte root; only compared for equality. */
  type Root = nat

  datatype Key = Key(slot: u64, index: u64)

  datatype Vote = Vote(key: Key, bit: nat)

  datatype Attestation = Attestation(slot: u64, index: u64, bits: seq<bool>, targetRoot: Root, headRoot: Root)
  {
    function Committee(): Key { Key(slot, index) }
  }

  function VotesOf(a: Attestation): set<Vote> {
    set i | 0 <= i < |a.bits| && a.bits[i] :: Vote(a.Committee(), i)
  }

  /** A vote names its slot, committee and position; so attestations for different slots or
      committees share none. */
  lemma VotesMeaning(a: Attestation, v: Vote)
    ensures v in VotesOf(a) <==>
            v.key.slot == a.slot && v.key.index == a.index && v.bit < |a.bits| && a.bits[v.bit]
  {
    assert v == Vote(Key(v.key.slot, v.key.index), v.bit);
  }

  /** Every vote some attestation of the list carries. */
  function BlockVotes(atts: seq<Attestation>): set<Vote> {
    if atts == [] then {} else BlockVotes(atts[..|atts| - 1]) + VotesOf(atts[|atts| - 1])
  }

  lemma {:induction false} BlockVotesMember(atts: seq<Attestation>, v: Vote)
    ensures v in BlockVotes(atts) <==> exists k :: 0 <= k < |atts| && v in VotesOf(atts[k])
  {
    if atts == [] {
    } else {
      var front := atts[..|atts| - 1];
      BlockVotesMember(front, v);
      if v in VotesOf(atts[|atts| - 1]) {
      } else if k :| 0 <= k < |atts| && v in VotesOf(atts[k]) {
        assert front[k] == atts[k];
      }
    }
  }

  lemma BlockVotesOfConcat(a: seq<Attestation>, b: seq<Attestation>)
    ensures BlockVotes(a + b) == BlockVotes(a) + BlockVotes(b)
  {
    if b == [] {
      assert a + b == a;
    } else {
      assert (a + b)[..|a + b| - 1] == a + b[..|b| - 1];
      BlockVotesOfConcat(a, b[..|b| - 1]);
    }
  }

  // ---------- The vote history ----------

  /** What a nested map of bitlists holds: the length each bitlist was created with, and
      the bits that are set in it. */
  datatype Hist = Hist(lens: map<Key, nat>, votes: set<Vote>)
  {
    predicate WellFormed() {
      forall v <- votes :: v.key in lens && v.bit < lens[v.key]
    }
  }

  const EMPTY: Hist := Hist(map[], {})

  /** A bitlist is created with the length of the first attestation that needs it. */
  function Sized(lens: map<Key, nat>, a: Attestation): map<Key, nat> {
    if a.Committee() in lens then lens else lens[a.Committee() := |a.bits|]
  }

  /** Bits at or past the length of the bitlist are not recorded. */
  function AbsorbOne(h: Hist, a: Attestation): Hist {
    var lens := Sized(h.lens, a);
    Hist(lens, h.votes + set v | v in VotesOf(a) && v.bit < lens[v.key])
  }

  function Absorb(h: Hist, atts: seq<Attestation>): Hist {
    if atts == [] then h else AbsorbOne(Absorb(h, atts[..|atts| - 1]), atts[|atts| - 1])
  }

  function Prune(h: Hist, slot: u64): Hist {
    Hist(map k | k in h.lens && VoteKept(k.slot, slot) :: h.lens[k],
         set v | v in h.votes && VoteKept(v.key.slot, slot))
  }

  /** A prune at `slot` drops the bitlists and votes of the slots more than 32 before it, and
      nothing else. */
  lemma PruneMeaning(h: Hist, slot: u64, v: Vote)
    ensures v in Prune(h, slot).votes <==> v in h.votes && UpTo(slot, v.key.slot, 32)
    ensures v.key in Prune(h, slot).lens <==> v.key in h.lens && UpTo(slot, v.key.slot, 32)
    ensures v.key in Prune(h, slot).lens ==> Prune(h, slot).lens[v.key] == h.lens[v.key]
  {
    WindowsMeaning(v.key.slot, slot);
  }

  // ---------- What absorbing a block means ----------

  ghost predicate Carries(atts: seq<Attestation>, key: Key) {
    exists k :: 0 <= k < |atts| && atts[k].Committee() == key
  }

  /** Length of the first attestation of the list for `key`. */
  function FirstLength(atts: seq<Attestation>, key: Key): nat {
    if atts == [] then 0
    else if atts[0].Committee() == key then |atts[0].bits|
    else FirstLength(atts[1..], key)
  }

  /** Length of the bitlist that records the block's votes for `key`. */
  function EffectiveLength(h: Hist, atts: seq<Attestation>, key: Key): nat {
    if key in h.lens then h.lens[key] else FirstLength(atts, key)
  }

  lemma {:induction false} FirstLengthOfPrefix(atts: seq<Attestation>, last: Attestation, key: Key)
    ensures FirstLength(atts + [last], key) ==
            if Carries(atts, key) then FirstLength(atts, key)
            else if last.Committee() == key then |last.bits| else 0
  {
    if atts == [] {
      assert ([last])[1..] == [];
    } else {
      assert (atts + [last])[1..] == atts[1..] + [last];
      FirstLengthOfPrefix(atts[1..], last, key);
      if atts[0].Committee() != key {
        if k :| 0 <= k < |atts| && atts[k].Committee() == key {
          assert atts[1..][k - 1].Committee() == key;
        }
        if k :| 0 <= k < |atts[1..]| && atts[1..][k].Committee() == key {
          assert atts[k + 1].Committee() == key;
        }
      }
    }
  }

  lemma {:induction false} AbsorbLengths(h: Hist, atts: seq<Attestation>, key: Key)
    ensures key in Absorb(h, atts).lens <==> key in h.lens || Carries(atts, key)
    ensures key in Absorb(h, atts).lens ==> Absorb(h, atts).lens[key] == EffectiveLength(h, atts, key)
  {
    if atts == [] {
    } else {
      var front, last := atts[..|atts| - 1], atts[|atts| - 1];
      assert atts == front + [last];
      AbsorbLengths(h, front, key);
      FirstLengthOfPrefix(front, last, key);
      if last.Committee() == key {
        assert atts[|atts| - 1].Committee() == key;
      }
      if Carries(front, key) {
        var k :| 0 <= k < |front| && front[k].Committee() == key;
        assert atts[k].Committee() == key;
      }
    }
  }

  /** The history after a block is exactly the old one plus every vote of the block whose
      bit fits in the bitlist of its slot and committee. */
  lemma {:induction false} AbsorbMeaning(h: Hist, atts: seq<Attestation>, v: Vote)
    ensures v in Absorb(h, atts).votes <==>
            v in h.votes || (v in BlockVotes(atts) && v.bit < EffectiveLength(h, atts, v.key))
  {
    if atts == [] {
    } else {
      var front, last := atts[..|atts| - 1], atts[|atts| - 1];
      assert atts == front + [last];
      AbsorbMeaning(h, front, v);
      AbsorbLengths(h, atts, v.key);
      if v in BlockVotes(front) {
        BlockVotesAreCarried(front, v);
        FirstLengthOfPrefix(front, last, v.key);
      }
    }
  }

  lemma BlockVotesAreCarried(atts: seq<Attestation>, v: Vote)
    requires v in BlockVotes(atts)
    ensures Carries(atts, v.key)
  {
    BlockVotesMember(atts, v);
    var k :| 0 <= k < |atts| && v in VotesOf(atts[k]);
    assert atts[k].Committee() == v.key;
  }

  lemma {:induction false} AbsorbWellFormed(h: Hist, atts: seq<Attestation>)
    requires h.WellFormed()
    ensures Absorb(h, atts).WellFormed()
  {
    if atts == [] {
    } else {
      AbsorbWellFormed(h, atts[..|atts| - 1]);
    }
  }

  /** Every vote of the block fits in the bitlist that records it. */
  ghost predicate Fits(h: Hist, atts: seq<Attestation>) {
    forall v <- BlockVotes(atts) :: v.bit < EffectiveLength(h, atts, v.key)
  }

  /** Folding a block into the history is set union exactly when its votes fit. */
  lemma AbsorbIsUnion(h: Hist, atts: seq<Attestation>)
    requires h.WellFormed()
    ensures Absorb(h, atts).votes == h.votes + BlockVotes(atts) <==> Fits(h, atts)
  {
    forall v ensures v in Absorb(h, atts).votes <==>
                     v in h.votes || (v in BlockVotes(atts) && v.bit < EffectiveLength(h, atts, v.key)) {
      AbsorbMeaning(h, atts, v);
    }
    if !Fits(h, atts) {
      var v :| v in BlockVotes(atts) && v.bit >= EffectiveLength(h, atts, v.key);
      assert v !in Absorb(h, atts).votes;
    }
  }

  // ---------- Committee sizes ----------

  /** Every bitfield has the size of its committee, as the consensus rules demand. */
  ghost predicate CommitteeSized(atts: seq<Attestation>, size: Key -> nat) {
    forall a <- atts :: |a.bits| == size(a.Committee())
  }

  ghost predicate HistSized(h: Hist, size: Key -> nat) {
    h.WellFormed() && forall k <- h.lens :: h.lens[k] == size(k)
  }

  lemma {:induction false} FirstLengthSized(atts: seq<Attestation>, size: Key -> nat, key: Key)
    requires CommitteeSized(atts, size)
    ensures FirstLength(atts, key) == if Carries(atts, key) then size(key) else 0
  {
    if atts != [] && atts[0].Committee() != key {
      FirstLengthSized(atts[1..], size, key);
      if k :| 0 <= k < |atts| && atts[k].Committee() == key {
        assert atts[1..][k - 1].Committee() == key;
      }
      if k :| 0 <= k < |atts[1..]| && atts[1..][k].Committee() == key {
        assert atts[k + 1].Committee() == key;
      }
    }
  }

  lemma SizedVotesFit(h: Hist, atts: seq<Attestation>, size: Key -> nat)
    requires HistSized(h, size) && CommitteeSized(atts, size)
    ensures Fits(h, atts)
    ensures HistSized(Absorb(h, atts), size)
  {
    forall v <- BlockVotes(atts) ensures v.bit < EffectiveLength(h, atts, v.key) {
      BlockVotesMember(atts, v);
      var k :| 0 <= k < |atts| && v in VotesOf(atts[k]);
      assert atts[k].Committee() == v.key;
      FirstLengthSized(atts, size, v.key);
    }
    AbsorbWellFormed(h, atts);
    forall k <- Absorb(h, atts).lens ensures Absorb(h, atts).lens[k] == size(k) {
      AbsorbLengths(h, atts, k);
      FirstLengthSized(atts, size, k);
    }
  }

  lemma SizedIsUnion(h: Hist, atts: seq<Attestation>, size: Key -> nat)
    requires HistSized(h, size) && CommitteeSized(atts, size)
    ensures Absorb(h, atts).votes == h.votes + BlockVotes(atts) && HistSized(Absorb(h, atts), size)
  {
    SizedVotesFit(h, atts, size);
    AbsorbIsUnion(h, atts);
  }

  /** With committee-sized bitfields the history is a plain set: any two lists of
      attestations that carry the same votes, in any order and any aggregation, leave the
      same votes behind; and absorbing a list again changes nothing. */
  lemma AbsorbOrderIndependent(h: Hist, a: seq<Attestation>, b: seq<Attestation>, size: Key -> nat)
    requires HistSized(h, size) && CommitteeSized(a, size) && CommitteeSized(b, size)
    ensures BlockVotes(a) == BlockVotes(b) ==> Absorb(h, a).votes == Absorb(h, b).votes
    ensures Absorb(Absorb(h, a), b).votes == Absorb(Absorb(h, b), a).votes == h.votes + BlockVotes(a) + BlockVotes(b)
    ensures Absorb(Absorb(h, a), a) == Absorb(h, a)
  {
    SizedIsUnion(h, a, size);
    SizedIsUnion(h, b, size);
    SizedIsUnion(Absorb(h, a), b, size);
    SizedIsUnion(Absorb(h, b), a, size);
    AbsorbTwice(h, a, size);
  }

  lemma AbsorbTwice(h: Hist, a: seq<Attestation>, size: Key -> nat)
    requires HistSized(h, size) && CommitteeSized(a, size)
    ensures Absorb(Absorb(h, a), a) == Absorb(h, a)
  {
    SizedIsUnion(h, a, size);
    var once := Absorb(h, a);
    SizedIsUnion(once, a, size);
    forall k ensures k in Absorb(once, a).lens <==> k in once.lens
             ensures k in once.lens ==> Absorb(once, a).lens[k] == once.lens[k] {
      AbsorbLengths(once, a, k);
      AbsorbLengths(h, a, k);
    }
    assert Absorb(once, a).lens == once.lens;
  }

  // ---------- When the order matters ----------

  lemma {:induction false} AbsorbConcat(h: Hist, a: seq<Attestation>, b: seq<Attestation>)
    ensures Absorb(h, a + b) == Absorb(Absorb(h, a), b)
  {
    if b == [] {
      assert a + b == a;
    } else {
      assert (a + b)[..|a + b| - 1] == a + b[..|b| - 1];
      AbsorbConcat(h, a, b[..|b| - 1]);
    }
  }

  lemma {:induction false} FirstLengthOfConcat(a: seq<Attestation>, b: seq<Attestation>, key: Key)
    ensures FirstLength(a + b, key) == if Carries(a, key) then FirstLength(a, key) else FirstLength(b, key)
  {
    if a == [] {
      assert a + b == b;
    } else {
      assert (a + b)[1..] == a[1..] + b;
      FirstLengthOfConcat(a[1..], b, key);
      CarriesTail(a, key);
    }
  }

  lemma CarriesTail(a: seq<Attestation>, key: Key)
    requires a != []
    ensures Carries(a, key) <==> a[0].Committee() == key || Carries(a[1..], key)
  {
    if k :| 0 <= k < |a| && a[k].Committee() == key {
      assert k > 0 ==> a[1..][k - 1].Committee() == key;
    }
    if k :| 0 <= k < |a[1..]| && a[1..][k].Committee() == key {
      assert a[k + 1].Committee() == key;
    }
  }

  /** Which of two blocks comes first decides whether this new vote is remembered: both blocks
      carry its committee for the first time, and only one of the two lengths has room for it. */
  ghost predicate OrderSensitive(h: Hist, a: seq<Attestation>, b: seq<Attestation>, v: Vote) {
    && v in BlockVotes(a) + BlockVotes(b)
    && v !in h.votes && v.key !in h.lens
    && Carries(a, v.key) && Carries(b, v.key)
    && (v.bit < FirstLength(a, v.key)) != (v.bit < FirstLength(b, v.key))
  }

  /** One vote is remembered in one order and not in the other exactly when it is sensitive. */
  lemma VoteOfTwoBlocks(h: Hist, a: seq<Attestation>, b: seq<Attestation>, v: Vote)
    ensures (v in Absorb(h, a + b).votes <==> v in Absorb(h, b + a).votes) <==> !OrderSensitive(h, a, b, v)
  {
    AbsorbMeaning(h, a + b, v);
    AbsorbMeaning(h, b + a, v);
    BlockVotesOfConcat(a, b);
    BlockVotesOfConcat(b, a);
    FirstLengthOfConcat(a, b, v.key);
    FirstLengthOfConcat(b, a, v.key);
    if v in BlockVotes(a) {
      BlockVotesAreCarried(a, v);
    }
    if v in BlockVotes(b) {
      BlockVotesAreCarried(b, v);
    }
  }

  /** Two blocks leave the same votes in either order if and only if no vote is sensitive to it. */
  lemma OrderIndependentIff(h: Hist, a: seq<Attestation>, b: seq<Attestation>)
    ensures Absorb(Absorb(h, a), b).votes == Absorb(Absorb(h, b), a).votes <==>
            forall v :: !OrderSensitive(h, a, b, v)
  {
    AbsorbConcat(h, a, b);
    AbsorbConcat(h, b, a);
    forall v ensures (v in Absorb(h, a + b).votes <==> v in Absorb(h, b + a).votes) <==> !OrderSensitive(h, a, b, v) {
      VoteOfTwoBlocks(h, a, b, v);
    }
    if Absorb(h, a + b).votes != Absorb(h, b + a).votes {
      var v :| v in Absorb(h, a + b).votes <==> v !in Absorb(h, b + a).votes;
      assert OrderSensitive(h, a, b, v);
    }
  }

  /** So for every two bitfields of different lengths for one new committee of which the longer
      has a bit set past the shorter one's end, the order matters. */
  lemma UnequalLengthsOrderMatters(h: Hist, short: Attestation, long: Attestation, bit: nat)
    requires short.Committee() == long.Committee() && short.Committee() !in h.lens
    requires |short.bits| <= bit < |long.bits| && long.bits[bit]
    requires Vote(long.Committee(), bit) !in h.votes
    ensures Absorb(Absorb(h, [short]), [long]).votes != Absorb(Absorb(h, [long]), [short]).votes
  {
    var v := Vote(long.Committee(), bit);
    OrderIndependentIff(h, [short], [long]);
    BlockVotesMember([long], v);
    assert [long][0] == long && [short][0] == short && v in VotesOf(long);
    assert OrderSensitive(h, [short], [long], v);
  }
}
