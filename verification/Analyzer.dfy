/** One analyzer per beacon node: the object that keeps both histories and the head, scores
    proposals, and sends rows to the database writers. */
module Analyzer {
  import opened Wrappers
  import opened U64
  import opened Votes
  import opened Bitlists
  import opened Scoring
  import opened Counting
  import opened Slashing
  import opened PrunedRuns
  import opened HistoryBuilder
  import opened HeadTracker

  /** A block proposal, as far as it is scored. */
  datatype Proposal = Proposal(header: Header, atts: seq<Attestation>, syncBits: seq<bool>,
                               attesterSlashings: seq<AttesterSlashing>, proposerSlashings: nat)

  /** What the beacon node answers to a request for a proposal. */
  datatype Response = Failed | Answered(proposal: Proposal)

  /** A row of the score table; scores are in 64ths. */
  datatype ScoreRow = ScoreRow(slot: u64, client: string, nodeLabel: string,
                               score64: int, attNum: nat, syncBits: nat,
                               newVotes: nat, correctSource: nat, correctTarget: nat, correctHead: nat,
                               attesterSlashings: nat, proposerSlashings: nat,
                               attesterSlashing64: nat, proposerSlashing64: nat, sync64: nat)

  datatype WriteTask = HeadTask(row: HeadRow, nodeLabel: string) | ScoreTask(score: ScoreRow)

  function CountBits(bits: seq<bool>): nat {
    if bits == [] then 0 else CountBits(bits[1..]) + if bits[0] then 1 else 0
  }

  function HeadTasks(rows: seq<HeadRow>, nodeLabel: string): seq<WriteTask> {
    seq(|rows|, i requires 0 <= i < |rows| => HeadTask(rows[i], nodeLabel))
  }

  /** Puts the parts of a score together: the total adds two 64ths for every sync bit. */
  function RowOf(p: Proposal, t: Tally, attester64: nat, proposer64: nat, client: string, nodeLabel: string): ScoreRow {
    var syncBits := CountBits(p.syncBits);
    var slot := if p.header.slot.Some? then p.header.slot.value else 0;
    ScoreRow(slot, client, nodeLabel,
             t.score64 + 2 * syncBits + attester64 + proposer64, |p.atts|, syncBits,
             t.newVotes, t.source, t.target, t.head,
             |p.attesterSlashings|, p.proposerSlashings, attester64, proposer64, 2 * syncBits)
  }

  /** The row of a scored proposal: its tally against the histories, and 2700 for every
      proposer slashing and every slashed index. */
  ghost function ScoredRow(s: Store, p: Proposal, indicesSlashed: nat, client: string, nodeLabel: string): ScoreRow {
    RowOf(p, TallyOf(s.hist.votes, s.roots, p.header, p.atts),
          SlashingWeight64(indicesSlashed), SlashingWeight64(p.proposerSlashings), client, nodeLabel)
  }

  /** The row of a failed request: score -1. */
  function FailedRow(slot: u64, nodeLabel: string): ScoreRow {
    ScoreRow(slot, "", nodeLabel, -64, 0, 0, 0, 0, 0, 0, 0, 0, 0, 0, 0)
  }

  /** The index arrays a response brings, and the indices they slash. */
  ghost function Slashed(response: Response): set<array<u64>> {
    if response.Answered? then Arrays(response.proposal.attesterSlashings) else {}
  }

  ghost function SlashedBy(response: Response): nat
    reads Slashed(response)
  {
    if response.Answered? then IndicesSlashed(response.proposal.attesterSlashings) else 0
  }

  ghost function ResponseRow(s: Store, slot: u64, response: Response, indicesSlashed: nat,
                             client: string, nodeLabel: string): ScoreRow {
    match response
    case Failed => FailedRow(slot, nodeLabel)
    case Answered(p) => ScoredRow(s, p, indicesSlashed, client, nodeLabel)
  }

  /** What the row of a proposal says, column by column, when `known` and `roots` are the histories:
      the new votes, the timely ones, those whose first carrier has the right target or head, each
      with the votes counted again because they did not fit the block's bitlist; the score as the
      weighted counters and its parts; and each part alone. */
  ghost predicate ReportsProposal(row: ScoreRow, known: set<Vote>, roots: map<u64, Root>, p: Proposal,
                                  indicesSlashed: nat, client: string, nodeLabel: string) {
    && row.client == client && row.nodeLabel == nodeLabel && row.attNum == |p.atts|
    && row.slot == (if p.header.slot.Some? then p.header.slot.value else 0)
    && row.newVotes == |Fresh(known, p.atts)| + Repeats(known, p.atts, AnyVote())
    && row.correctSource ==
       |TimelySource(known, p.header, p.atts)| + Repeats(known, p.atts, SourceCheck(p.header))
    && row.correctTarget ==
       |FreshPassing(known, p.atts, TargetCheck(roots))| + Repeats(known, p.atts, TargetCheck(roots))
    && row.correctHead ==
       |FreshPassing(known, p.atts, HeadCheck(p.header))| + Repeats(known, p.atts, HeadCheck(p.header))
    && row.syncBits == multiset(p.syncBits)[true] && row.sync64 == 2 * multiset(p.syncBits)[true]
    && row.attesterSlashings == |p.attesterSlashings| && row.attesterSlashing64 == 172800 * indicesSlashed
    && row.proposerSlashings == p.proposerSlashings && row.proposerSlashing64 == 172800 * p.proposerSlashings
    && row.score64 == 14 * row.correctSource + 26 * row.correctTarget + 14 * row.correctHead +
                      2 * multiset(p.syncBits)[true] + 172800 * indicesSlashed + 172800 * p.proposerSlashings
  }

  /** A failed request scores -1 and reports nothing but its slot and the node. */
  ghost predicate ReportsFailure(row: ScoreRow, slot: u64, nodeLabel: string) {
    && row.slot == slot && row.nodeLabel == nodeLabel && row.client == "" && row.score64 == -64
    && row.attNum == row.syncBits == row.attesterSlashings == row.proposerSlashings == 0
    && row.newVotes == row.correctSource == row.correctTarget == row.correctHead == 0
    && row.attesterSlashing64 == row.proposerSlashing64 == row.sync64 == 0
  }

  ghost predicate ReportsResponse(row: ScoreRow, s: Store, slot: u64, response: Response, indicesSlashed: nat,
                                  client: string, nodeLabel: string) {
    match response
    case Failed => ReportsFailure(row, slot, nodeLabel)
    case Answered(p) => ReportsProposal(row, s.hist.votes, s.roots, p, indicesSlashed, client, nodeLabel)
  }

  /** Every task sent since then is a row that reports this response. */
  ghost predicate ReportsSince(before: seq<WriteTask>, after: seq<WriteTask>, s: Store, slot: u64, response: Response,
                               indicesSlashed: nat, client: string, nodeLabel: string) {
    && before <= after
    && forall i | |before| <= i < |after| ::
         && after[i].ScoreTask?
         && ReportsResponse(after[i].score, s, slot, response, indicesSlashed, client, nodeLabel)
  }

  /** The node is too far behind to be asked for a proposal. */
  predicate Unsynced(head: u64, slot: u64) {
    slot > Add(head, SLOTS_PER_EPOCH)
  }

  class ClientLiveData {
    const client: string
    const nodeLabel: string
    var attHistory: BitMap
    var blockRootHistory: map<u64, Root>
    var currentHeadSlot: u64
    var proposalStatus: int
    /** Tasks sent to the shared write channel, and epochs handed to the proposer preparation. */
    var sent: seq<WriteTask>
    var preparedEpochs: seq<u64>
    /** What `attHistory` holds. */
    ghost var hist: Hist

    ghost predicate Valid()
      reads this`attHistory, this`hist, Objects(attHistory)`bits
    {
      Represents(attHistory, hist)
    }

    /** The two histories as values. */
    ghost function Histories(): Store
      reads this`hist, this`blockRootHistory
    {
      Store(hist, blockRootHistory)
    }

    constructor (client: string, nodeLabel: string)
      ensures Valid() && fresh(Objects(attHistory))
      ensures Histories() == Store(EMPTY, map[])
      ensures currentHeadSlot == 0 && sent == [] && preparedEpochs == []
      ensures this.client == client && this.nodeLabel == nodeLabel
    {
      this.client, this.nodeLabel := client, nodeLabel;
      attHistory, blockRootHistory := map[], map[];
      currentHeadSlot, proposalStatus := 0, 0;
      sent, preparedEpochs := [], [];
      hist := EMPTY;
    }

    /** Folds the attestations of a block into the history. */
    method UpdateAttestations(atts: seq<Attestation>)
      requires Valid()
      modifies this`attHistory, this`hist, Objects(attHistory)
      ensures Valid() && fresh(Objects(attHistory) - old(Objects(attHistory)))
      ensures hist == Absorb(old(hist), atts)
    {
      attHistory, hist := AbsorbAll(attHistory, atts, hist);
    }

    /** Metrics of a proposed block. Neither history is touched, and the indices of the
        slashings are only reordered. */
    method BlockMetrics(p: Proposal) returns (row: ScoreRow)
      requires Valid()
      modifies Arrays(p.attesterSlashings)
      ensures row == ScoredRow(Histories(), p, old(IndicesSlashed(p.attesterSlashings)), client, nodeLabel)
      ensures IndicesSlashed(p.attesterSlashings) == old(IndicesSlashed(p.attesterSlashings))
      ensures forall a <- Arrays(p.attesterSlashings) :: multiset(a[..]) == multiset(old(a[..]))
      ensures Valid()
    {
      var tally := ScoreAttestations(attHistory, blockRootHistory, p.header, p.atts, hist);
      var attester64, proposer64 := SlashingScores(p);
      row := RowOf(p, tally, attester64, proposer64, client, nodeLabel);
    }

    /** The slashing scores of a block; reordering its index arrays leaves the history alone. */
    method SlashingScores(p: Proposal) returns (attester64: nat, proposer64: nat)
      requires Valid()
      modifies Arrays(p.attesterSlashings)
      ensures attester64 == SlashingWeight64(old(IndicesSlashed(p.attesterSlashings)))
      ensures proposer64 == SlashingWeight64(p.proposerSlashings)
      ensures IndicesSlashed(p.attesterSlashings) == old(IndicesSlashed(p.attesterSlashings))
      ensures forall a <- Arrays(p.attesterSlashings) :: multiset(a[..]) == multiset(old(a[..]))
      ensures Valid()
    {
      attester64, proposer64 := ScoreSlashings(p.attesterSlashings, p.proposerSlashings);
      forall v: Vote ensures VoteIn(attHistory, v) <==> v in hist.votes {
        assert old(VoteIn(attHistory, v)) <==> v in hist.votes;
      }
    }

    /** Prunes both histories, asks for a proposal unless the node is behind, and sends one
        score row for it, also when the request failed. */
    method ProposeNewBlock(slot: u64, response: Response)
      requires Valid()
      modifies this`attHistory, this`hist, this`blockRootHistory, this`proposalStatus, this`sent, Slashed(response)
      ensures Valid() && Objects(attHistory) <= old(Objects(attHistory))
      ensures Histories() == PruneStore(old(Histories()), slot)
      ensures sent == old(sent) +
              if Unsynced(currentHeadSlot, slot) then []
              else [ScoreTask(ResponseRow(Histories(), slot, response, old(SlashedBy(response)), client, nodeLabel))]
      ensures currentHeadSlot < TWO64 - 32 ==>
                && |sent| == |old(sent)| + (if slot <= currentHeadSlot + 32 then 1 else 0)
                && proposalStatus == if slot <= currentHeadSlot + 32 && response.Answered? then 1 else 0
      ensures currentHeadSlot >= TWO64 - 32 ==>
                && |sent| == |old(sent)| + (if slot <= currentHeadSlot + 32 - TWO64 then 1 else 0)
                && proposalStatus == if slot <= currentHeadSlot + 32 - TWO64 && response.Answered? then 1 else 0
      ensures ReportsSince(old(sent), sent, Histories(), slot, response, old(SlashedBy(response)), client, nodeLabel)
      ensures forall a <- Slashed(response) :: multiset(a[..]) == multiset(old(a[..]))
    {
      PruneHistories(slot);
      Propose(slot, response);
      UnsyncedMeaning(currentHeadSlot, slot);
      SentReports(old(sent), sent, Unsynced(currentHeadSlot, slot), Histories(), slot, response,
                  old(SlashedBy(response)), client, nodeLabel);
    }

    /** The part of the handler after the prunes. */
    method Propose(slot: u64, response: Response)
      requires Valid()
      modifies this`proposalStatus, this`sent, Slashed(response)
      ensures Valid()
      ensures sent == old(sent) +
              if Unsynced(currentHeadSlot, slot) then []
              else [ScoreTask(ResponseRow(Histories(), slot, response, old(SlashedBy(response)), client, nodeLabel))]
      ensures proposalStatus == if !Unsynced(currentHeadSlot, slot) && response.Answered? then 1 else 0
      ensures forall a <- Slashed(response) :: multiset(a[..]) == multiset(old(a[..]))
    {
      if slot > Add(currentHeadSlot, SLOTS_PER_EPOCH) {
        proposalStatus := 0;
        return;
      }
      SendScore(slot, response);
    }

    /** Sends the row for what the node answered. */
    method SendScore(slot: u64, response: Response)
      requires Valid()
      modifies this`proposalStatus, this`sent, Slashed(response)
      ensures Valid()
      ensures sent == old(sent) +
              [ScoreTask(ResponseRow(Histories(), slot, response, old(SlashedBy(response)), client, nodeLabel))]
      ensures proposalStatus == if response.Answered? then 1 else 0
      ensures forall a <- Slashed(response) :: multiset(a[..]) == multiset(old(a[..]))
    {
      var metrics := ScoreResponse(slot, response);
      sent := sent + [ScoreTask(metrics)];
    }

    method ScoreResponse(slot: u64, response: Response) returns (metrics: ScoreRow)
      requires Valid()
      modifies this`proposalStatus, Slashed(response)
      ensures Valid()
      ensures metrics == ResponseRow(Histories(), slot, response, old(SlashedBy(response)), client, nodeLabel)
      ensures proposalStatus == if response.Answered? then 1 else 0
      ensures forall a <- Slashed(response) :: multiset(a[..]) == multiset(old(a[..]))
    {
      if response.Failed? {
        metrics := FailedRow(slot, nodeLabel);
        proposalStatus := 0;
      } else {
        assert Slashed(response) == Arrays(response.proposal.attesterSlashings);
        metrics := BlockMetrics(response.proposal);
        proposalStatus := 1;
      }
    }

    method PruneHistories(slot: u64)
      requires Valid()
      modifies this`attHistory, this`hist, this`blockRootHistory
      ensures Valid() && Objects(attHistory) <= old(Objects(attHistory))
      ensures Histories() == PruneStore(old(Histories()), slot)
    {
      PruneAttestations(slot);
      PruneRootHistory(slot);
    }

    /** Deletes the attestation entries a proposal can no longer reference; the keys come in
        any order. */
    method PruneAttestations(slot: u64)
      requires Valid()
      modifies this`attHistory, this`hist
      ensures Valid() && Objects(attHistory) <= old(Objects(attHistory))
      ensures hist == Prune(old(hist), slot)
      ensures forall i: u64 :: i in attHistory <==> i in old(attHistory) && UpTo(slot, i, 32)
      ensures forall i: u64 | i < TWO64 - 32 :: i in attHistory <==> i in old(attHistory) && slot <= i + 32
      ensures forall i <- attHistory :: attHistory[i] == old(attHistory)[i]
    {
      ghost var before := attHistory;
      var left := attHistory.Keys;
      while left != {}
        modifies this`attHistory
        invariant left <= attHistory.Keys <= before.Keys
        invariant forall i <- before :: i in attHistory <==> i in left || VoteKept(i, slot)
        invariant forall i <- attHistory :: attHistory[i] == before[i]
        decreases |left|
      {
        var i :| i in left;
        left := left - {i};
        if Add(i, VOTE_WINDOW) < slot {
          attHistory := map j | j in attHistory && j != i :: attHistory[j];
        }
      }
      hist := Prune(hist, slot);
      PrunedRepresents(before, attHistory, old(hist), slot);
    }

    /** Deletes the block roots that are out of the 64-slot window. */
    method PruneRootHistory(slot: u64)
      modifies this`blockRootHistory
      ensures blockRootHistory == PruneRoots(old(blockRootHistory), slot)
      ensures forall i: u64 :: i in blockRootHistory <==> i in old(blockRootHistory) && UpTo(slot, i, 64)
      ensures forall i: u64 | i < TWO64 - 64 :: i in blockRootHistory <==> i in old(blockRootHistory) && slot <= i + 64
    {
      ghost var before := blockRootHistory;
      var left := blockRootHistory.Keys;
      while left != {}
        invariant left <= blockRootHistory.Keys <= before.Keys
        invariant forall i <- before :: i in blockRootHistory <==> i in left || RootKept(i, slot)
        invariant forall i <- blockRootHistory :: blockRootHistory[i] == before[i]
        decreases |left|
      {
        var i :| i in left;
        left := left - {i};
        if Add(i, ROOT_WINDOW) < slot {
          blockRootHistory := map j | j in blockRootHistory && j != i :: blockRootHistory[j];
        }
      }
    }

    /** Fills the histories from the head down. True when there was nothing left to fill. */
    method BuildHistory(chain: Chain, headSlot: u64) returns (done: bool)
      requires Valid()
      requires headSlot == 64 ==> blockRootHistory.Keys + chain.Keys != {}
      modifies this`attHistory, this`hist, this`blockRootHistory, Objects(attHistory)
      ensures Valid() && fresh(Objects(attHistory) - old(Objects(attHistory)))
      ensures done <==> headSlot in old(blockRootHistory)
      ensures Histories() == Scan(chain, old(Histories()), headSlot, 0)
      ensures done ==> Histories() == old(Histories()) && attHistory == old(attHistory)
    {
      if headSlot in blockRootHistory {
        return true;
      }
      done := false;
      var i := headSlot;
      ghost var k, result := 0, Scan(chain, Histories(), headSlot, 0);
      while i >= Sub(headSlot, 64)
        invariant Valid() && fresh(Objects(attHistory) - old(Objects(attHistory)))
        invariant Scanning(chain, Histories(), headSlot, k, result) && i == Back(headSlot, k)
        decreases MaxVisits(headSlot) - k
      {
        if i in blockRootHistory {
          ScanStops(chain, Histories(), headSlot, k, result);
          return;
        }
        VisitSlot(chain, i, headSlot, k, result);
        i, k := Sub(i, 1), k + 1;
      }
      ScanStops(chain, Histories(), headSlot, k, result);
    }

    /** One slot of the scan. */
    method VisitSlot(chain: Chain, i: u64, headSlot: u64, ghost k: nat, ghost result: Store)
      requires Valid()
      requires Scanning(chain, Histories(), headSlot, k, result) && i == Back(headSlot, k)
      requires i >= Sub(headSlot, 64) && i !in blockRootHistory
      modifies this`attHistory, this`hist, this`blockRootHistory, Objects(attHistory)
      ensures Valid() && fresh(Objects(attHistory) - old(Objects(attHistory)))
      ensures Scanning(chain, Histories(), headSlot, k + 1, result) && Sub(i, 1) == Back(headSlot, k + 1)
    {
      ScanStep(chain, Histories(), headSlot, k);
      FillFrom(chain, i, headSlot);
    }

    /** Records the root of the block at `i`, if there is one, and its votes if they are recent. */
    method FillFrom(chain: Chain, i: u64, headSlot: u64)
      requires Valid()
      modifies this`attHistory, this`hist, this`blockRootHistory, Objects(attHistory)
      ensures Valid() && fresh(Objects(attHistory) - old(Objects(attHistory)))
      ensures Histories() == FillAt(chain, old(Histories()), headSlot, i)
    {
      if i in chain {
        blockRootHistory := blockRootHistory[i := chain[i].root];
        if Add(i, VOTE_WINDOW) >= headSlot {
          UpdateAttestations(chain[i].atts);
        }
      }
    }

    /** Handles a head event: absorbs the block if it can be fetched, reports the slots that
        were skipped, moves the head and reports the new one. */
    method HandleHeadEvent(slot: u64, block: Option<Block>)
      requires Valid()
      modifies this`attHistory, this`hist, this`currentHeadSlot, this`sent, this`preparedEpochs, Objects(attHistory)
      ensures Valid() && fresh(Objects(attHistory) - old(Objects(attHistory)))
      ensures block.None? ==>
                && hist == old(hist) && currentHeadSlot == old(currentHeadSlot)
                && sent == old(sent) && preparedEpochs == old(preparedEpochs)
      ensures forall i | |old(sent)| <= i < |sent| :: sent[i].HeadTask? && sent[i].nodeLabel == nodeLabel
      ensures block.Some? ==>
                && hist == Absorb(old(hist), block.value.atts) && currentHeadSlot == slot
                && sent == old(sent) + HeadTasks(HeadRows(old(currentHeadSlot), slot), nodeLabel)
                && preparedEpochs == old(preparedEpochs) + EpochTasks(slot)
    {
      if block.None? {
        return;
      }
      UpdateAttestations(block.value.atts);
      MoveHead(slot);
    }

    /** The part of the handler that does not touch the histories. */
    method MoveHead(slot: u64)
      modifies this`currentHeadSlot, this`sent, this`preparedEpochs
      ensures currentHeadSlot == slot
      ensures sent == old(sent) + HeadTasks(HeadRows(old(currentHeadSlot), slot), nodeLabel)
      ensures forall i | |old(sent)| <= i < |sent| :: sent[i].HeadTask? && sent[i].nodeLabel == nodeLabel
      ensures preparedEpochs == old(preparedEpochs) + EpochTasks(slot)
    {
      if currentHeadSlot != 0 && Sub(slot, currentHeadSlot) > 1 {
        ReportMissed(slot);
      }
      currentHeadSlot := slot;
      if currentHeadSlot % SLOTS_PER_EPOCH == SLOTS_PER_EPOCH / 2 {
        preparedEpochs := preparedEpochs + [currentHeadSlot / SLOTS_PER_EPOCH + 1];
      }
      sent := sent + [HeadTask(Received(slot), nodeLabel)];
      HeadTasksOf(old(currentHeadSlot), slot, nodeLabel);
    }

    /** Sends a missed row for every slot between the head and `slot`. */
    method ReportMissed(slot: u64)
      modifies this`sent
      ensures sent == old(sent) + HeadTasks(MissedRange(Add(currentHeadSlot, 1), slot), nodeLabel)
      ensures forall i | |old(sent)| <= i < |sent| :: sent[i].HeadTask? && sent[i].nodeLabel == nodeLabel
    {
      var start := Add(currentHeadSlot, 1);
      var i: u64 := start;
      while i < slot
        invariant start <= i && (if start <= slot then i <= slot else i == start)
        invariant sent == old(sent) + HeadTasks(MissedRange(start, i), nodeLabel)
      {
        sent := sent + [HeadTask(Missed(i), nodeLabel)];
        i := i + 1;
      }
      assert MissedRange(start, i) == MissedRange(start, slot);
    }
  }

  lemma HeadTasksOf(current: u64, slot: u64, nodeLabel: string)
    ensures HeadTasks(HeadRows(current, slot), nodeLabel) ==
            (if current != 0 && Sub(slot, current) > 1
             then HeadTasks(MissedRange(Add(current, 1), slot), nodeLabel) else []) +
            [HeadTask(Received(slot), nodeLabel)]
  {}

  /** The columns of a sent row fit together: no counter exceeds the new votes, the score is the
      weighted counters plus the other parts, and a failed request scores below every answer. */
  lemma RowIsConsistent(s: Store, p: Proposal, indicesSlashed: nat, slot: u64, client: string, nodeLabel: string)
    ensures var row := ScoredRow(s, p, indicesSlashed, client, nodeLabel);
            && row.correctHead <= row.correctSource <= row.newVotes
            && row.correctTarget <= row.newVotes
            && row.score64 == 14 * row.correctSource + 26 * row.correctTarget + 14 * row.correctHead
                              + row.sync64 + row.attesterSlashing64 + row.proposerSlashing64
            && row.score64 <= 54 * row.newVotes + 2 * row.syncBits + 172800 * (indicesSlashed + row.proposerSlashings)
            && row.syncBits <= |p.syncBits|
            && FailedRow(slot, nodeLabel).score64 < 0 <= row.score64
  {
    ScoreBounds(s.hist.votes, s.roots, p.header, p.atts);
    TallyScore(s.hist.votes, s.roots, p.header, p.atts);
    PartsFit(p, TallyOf(s.hist.votes, s.roots, p.header, p.atts), indicesSlashed, client, nodeLabel);
  }

  lemma PartsFit(p: Proposal, t: Tally, indicesSlashed: nat, client: string, nodeLabel: string)
    ensures var attester64, proposer64 := SlashingWeight64(indicesSlashed), SlashingWeight64(p.proposerSlashings);
            var row := RowOf(p, t, attester64, proposer64, client, nodeLabel);
            && row.score64 == t.score64 + row.sync64 + row.attesterSlashing64 + row.proposerSlashing64
            && row.score64 == t.score64 + 2 * row.syncBits + 172800 * (indicesSlashed + row.proposerSlashings)
            && row.syncBits <= |p.syncBits|
  {
    CountBitsBound(p.syncBits);
  }

  lemma {:induction false} CountBitsBound(bits: seq<bool>)
    ensures CountBits(bits) == multiset(bits)[true] <= |bits|
  {
    if bits == [] {
    } else {
      CountBitsBound(bits[1..]);
      assert bits == [bits[0]] + bits[1..];
    }
  }

  /** Each column of a scored row counts what it is named after. */
  lemma RowColumns(s: Store, p: Proposal, indicesSlashed: nat, client: string, nodeLabel: string)
    ensures ReportsProposal(ScoredRow(s, p, indicesSlashed, client, nodeLabel),
                            s.hist.votes, s.roots, p, indicesSlashed, client, nodeLabel)
  {
    TallyMeaning(s.hist.votes, s.roots, p.header, p.atts);
    TallyScore(s.hist.votes, s.roots, p.header, p.atts);
    CountBitsBound(p.syncBits);
  }

  /** An answered request sends the row of its proposal, a failed one a row that only says so. */
  lemma ResponseRowReports(s: Store, slot: u64, response: Response, indicesSlashed: nat,
                           client: string, nodeLabel: string)
    ensures ReportsResponse(ResponseRow(s, slot, response, indicesSlashed, client, nodeLabel),
                            s, slot, response, indicesSlashed, client, nodeLabel)
  {
    if response.Answered? {
      RowColumns(s, response.proposal, indicesSlashed, client, nodeLabel);
    }
  }

  lemma SentReports(before: seq<WriteTask>, after: seq<WriteTask>, unsynced: bool, s: Store, slot: u64,
                    response: Response, indicesSlashed: nat, client: string, nodeLabel: string)
    requires after == before +
             if unsynced then [] else [ScoreTask(ResponseRow(s, slot, response, indicesSlashed, client, nodeLabel))]
    ensures ReportsSince(before, after, s, slot, response, indicesSlashed, client, nodeLabel)
  {
    ResponseRowReports(s, slot, response, indicesSlashed, client, nodeLabel);
  }

  /** The guard in integers: a node may be up to 32 slots behind; for heads at the top of the
      range the end of that window has wrapped. */
  lemma UnsyncedMeaning(head: u64, slot: u64)
    ensures Unsynced(head, slot) <==> !UpTo(slot, head, 32)
    ensures head < TWO64 - 32 ==> (Unsynced(head, slot) <==> slot > head + 32)
    ensures head >= TWO64 - 32 ==> (Unsynced(head, slot) <==> slot > head + 32 - TWO64)
  {}

  /** Nothing is counted again in any column if and only if no vote past the end of the block's
      bitlist is carried twice. */
  lemma RowCountsOnceIff(history: set<Vote>, roots: map<u64, Root>, header: Header, atts: seq<Attestation>)
    ensures NoDoubleCount(history, atts) <==>
            && Repeats(history, atts, AnyVote()) == 0
            && Repeats(history, atts, SourceCheck(header)) == 0
            && Repeats(history, atts, TargetCheck(roots)) == 0
            && Repeats(history, atts, HeadCheck(header)) == 0
  {
    if NoDoubleCount(history, atts) {
      NoDoubleCountMeansNoRepeats(history, atts, AnyVote());
      NoDoubleCountMeansNoRepeats(history, atts, SourceCheck(header));
      NoDoubleCountMeansNoRepeats(history, atts, TargetCheck(roots));
      NoDoubleCountMeansNoRepeats(history, atts, HeadCheck(header));
    } else if Repeats(history, atts, AnyVote()) == 0 {
      NoRepeatsMeansNoDoubleCount(history, atts);
    }
  }

  /** The row a proposal sends does not depend on how much was pruned before, as long as its
      attestations lie in the vote window of the highest slot pruned at. */
  lemma RowSurvivesPruning(s: Store, es: seq<Event>, p: Proposal, indicesSlashed: nat, client: string,
                           nodeLabel: string)
    requires forall a <- p.atts :: VoteKept(a.slot, HighestPrune(es))
    requires forall a <- p.atts :: !EpochStartWraps(a.slot) || HighestPrune(es) == 0
    ensures ScoredRow(Run(s, es, true), p, indicesSlashed, client, nodeLabel) ==
            ScoredRow(Run(s, es, false), p, indicesSlashed, client, nodeLabel)
  {
    ScoresSurvivePruning(s, es, p.header, p.atts);
  }

  lemma PrunedRepresents(before: BitMap, after: BitMap, h: Hist, slot: u64)
    requires Represents(before, h)
    requires after.Keys <= before.Keys
    requires forall i <- before :: i in after <==> VoteKept(i, slot)
    requires forall i <- after :: after[i] == before[i]
    ensures Represents(after, Prune(h, slot)) && Objects(after) <= Objects(before)
  {
    forall key: Key ensures Holds(after, key) <==> Holds(before, key) && VoteKept(key.slot, slot) {}
    forall v: Vote ensures VoteIn(after, v) <==> v in Prune(h, slot).votes {
      assert VoteIn(before, v) <==> v in h.votes;
    }
  }
}
