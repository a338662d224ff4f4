/** The attestation loop of the scorer over nested maps of bitlists, proved against the counts
    of `Scoring`. */
module Counting {
  import opened U64
  import opened Votes
  import opened Bitlists
  import opened Scoring

  /** After `k` attestations the block's votes are absorbed in `block` and tallied in `t`. */
  ghost predicate Scored(history: set<Vote>, roots: map<u64, Root>, header: Header, atts: seq<Attestation>, k: nat,
                         block: Hist, t: Tally)
    requires k <= |atts|
  {
    block == Absorb(EMPTY, atts[..k]) && t == TallyOf(history, roots, header, atts[..k])
  }

  /** State of the loop: the bitlists of the history, those made for the block, the counters. */
  ghost predicate AtRound(history: BitMap, attested: BitMap, roots: map<u64, Root>, header: Header,
                          atts: seq<Attestation>,
                          k: nat, past: Hist, block: Hist, t: Tally)
    requires k <= |atts|
    reads Objects(history)`bits, Objects(attested)`bits
  {
    && Represents(history, past) && Represents(attested, Without(block, past.votes))
    && Scored(past.votes, roots, header, atts, k, block, t)
  }

  lemma ScoredNone(history: set<Vote>, roots: map<u64, Root>, header: Header, atts: seq<Attestation>)
    ensures Scored(history, roots, header, atts, 0, EMPTY, Tally(0, 0, 0, 0, 0))
  {}

  lemma ScoredNext(history: set<Vote>, roots: map<u64, Root>, header: Header, atts: seq<Attestation>, k: nat,
                   block: Hist, t: Tally, n: nat)
    requires k < |atts| && Scored(history, roots, header, atts, k, block, t)
    requires n == |VotesOf(atts[k]) - history - block.votes|
    ensures Scored(history, roots, header, atts, k + 1,
                   AbsorbOne(block, atts[k]), Awarded(t, atts[k], header, roots, n))
  {
    assert atts[..k + 1][..k] == atts[..k];
  }

  lemma ScoredAll(history: set<Vote>, roots: map<u64, Root>, header: Header, atts: seq<Attestation>, block: Hist,
                  t: Tally)
    requires Scored(history, roots, header, atts, |atts|, block, t)
    ensures t == TallyOf(history, roots, header, atts)
  {
    assert atts[..|atts|] == atts;
  }

  /** Credits the new votes of one attestation to the checks it passes. */
  method Award(tally: Tally, a: Attestation, header: Header, roots: map<u64, Root>,
               newVotes: nat) returns (tally': Tally)
    ensures tally' == Awarded(tally, a, header, roots, newVotes)
  {
    var score := 0;
    var source, target, head := tally.source, tally.target, tally.head;
    if IsCorrectSource(a, header) {
      score := score + newVotes * TIMELY_SOURCE_WEIGHT;
      source := source + newVotes;
    }
    if IsCorrectTarget(a, roots) {
      score := score + newVotes * TIMELY_TARGET_WEIGHT;
      target := target + newVotes;
    }
    if IsCorrectHead(a, header) {
      score := score + newVotes * TIMELY_HEAD_WEIGHT;
      head := head + newVotes;
    }
    tally' := Tally(tally.newVotes + newVotes, source, target, head, tally.score64 + score);
  }

  /** One round of the loop. */
  method ScoreNext(history: BitMap, attested: BitMap, roots: map<u64, Root>, header: Header, atts: seq<Attestation>,
                   k: nat,
                   tally: Tally, ghost past: Hist, ghost block: Hist)
    returns (tally': Tally, attested': BitMap, ghost block': Hist)
    requires k < |atts| && AtRound(history, attested, roots, header, atts, k, past, block, tally)
    requires Objects(attested) !! Objects(history)
    modifies Objects(attested)
    ensures AtRound(history, attested', roots, header, atts, k + 1, past, block', tally')
    ensures fresh(Objects(attested') - Objects(attested))
  {
    var newVotes: nat;
    newVotes, attested' := ScoreInto(history, attested, atts[k], past, block);
    ScoredNext(past.votes, roots, header, atts, k, block, tally, newVotes);
    tally' := Award(tally, atts[k], header, roots, newVotes);
    block' := AbsorbOne(block, atts[k]);
  }

  /** The attestation loop: the tally against the history and the roots. Only bitlists made
      for the block are changed. */
  method ScoreAttestations(history: BitMap, roots: map<u64, Root>, header: Header, atts: seq<Attestation>,
                           ghost past: Hist)
    returns (tally: Tally)
    requires Represents(history, past)
    ensures tally == TallyOf(past.votes, roots, header, atts)
    ensures Represents(history, past)
  {
    var attested: BitMap := map[];
    ghost var block := EMPTY;
    tally := Tally(0, 0, 0, 0, 0);
    ScoredNone(past.votes, roots, header, atts);
    assert Objects(attested) == {} && Without(EMPTY, past.votes) == EMPTY;
    for k := 0 to |atts|
      invariant fresh(Objects(attested))
      invariant AtRound(history, attested, roots, header, atts, k, past, block, tally)
    {
      tally, attested, block := ScoreNext(history, attested, roots, header, atts, k, tally, past, block);
    }
    ScoredAll(past.votes, roots, header, atts, block, tally);
  }
}
