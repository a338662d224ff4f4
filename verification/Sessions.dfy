/** From start-up to a score: one analyzer builds its history, then absorbs head blocks and
    prunes at proposals, and scores a proposal. The score is compared with the votes that are
    really known, told without maps, lengths, windows or pruning. */
module Sessions {
  import opened U64
  import opened Votes
  import opened Scoring
  import opened PrunedRuns
  import opened HistoryBuilder
  import opened Analyzer

  /** Every vote the session has seen: those of the available blocks from 32 slots before the
      first head of the build to its last head, and those of the head blocks since. */
  function KnownVotes(chain: Chain, heads: seq<u64>, es: seq<Event>): set<Vote>
    requires heads != []
  {
    var first: int := heads[0];
    WindowVotes(chain, first - 32, Top(heads[|heads| - 1])) + AllVotes(es)
  }

  /** A session: the build calls see heads at most 33 slots apart, and all bitfields have the
      size of their committee. */
  ghost predicate Session(chain: Chain, heads: seq<u64>, es: seq<Event>, size: Key -> nat) {
    && heads != [] && GoodHeads(chain, heads) && ChainSized(chain, size)
    && (forall k | 0 < k < |heads| :: heads[k] - heads[k - 1] <= 33)
    && forall e <- es | e.Absorbed? :: CommitteeSized(e.atts, size)
  }

  /** The histories of the analyzer at the end of the session. */
  ghost function SessionStore(chain: Chain, heads: seq<u64>, es: seq<Event>): Store
    requires GoodHeads(chain, heads)
  {
    Run(BuildRun(chain, heads), es, true)
  }

  /** In the window of the highest slot pruned at, the analyzer remembers exactly what is known. */
  lemma SessionRemembers(chain: Chain, heads: seq<u64>, es: seq<Event>, size: Key -> nat, v: Vote)
    requires Session(chain, heads, es, size)
    ensures UpTo(HighestPrune(es), v.key.slot, 32) ==>
              (v in SessionStore(chain, heads, es).hist.votes <==> v in KnownVotes(chain, heads, es))
    ensures v in SessionStore(chain, heads, es).hist.votes ==> v in KnownVotes(chain, heads, es)
  {
    BuildRunFillsWindow(chain, heads, size);
    CloseHeadsMissNothing(chain, heads);
    PrunedIsUnionInWindow(BuildRun(chain, heads), es, size, v);
  }

  /** The roots recorded over the session, had no proposal pruned any. */
  ghost function KnownRoots(chain: Chain, heads: seq<u64>, es: seq<Event>): map<u64, Root>
    requires GoodHeads(chain, heads)
  {
    Run(BuildRun(chain, heads), es, false).roots
  }

  lemma RemembersBlock(chain: Chain, heads: seq<u64>, es: seq<Event>, size: Key -> nat, atts: seq<Attestation>)
    requires Session(chain, heads, es, size)
    requires forall a <- atts :: VoteKept(a.slot, HighestPrune(es))
    ensures forall a <- atts, v <- VotesOf(a) ::
              v in SessionStore(chain, heads, es).hist.votes <==> v in KnownVotes(chain, heads, es)
  {
    forall a <- atts, v <- VotesOf(a)
      ensures v in SessionStore(chain, heads, es).hist.votes <==> v in KnownVotes(chain, heads, es)
    {
      WindowsMeaning(v.key.slot, HighestPrune(es));
      SessionRemembers(chain, heads, es, size, v);
    }
  }

  /** So a proposal whose attestations lie in that window is tallied as if the analyzer knew
      every one of these votes and every root ever recorded. */
  lemma SessionTally(chain: Chain, heads: seq<u64>, es: seq<Event>,
                     size: Key -> nat, header: Header, atts: seq<Attestation>)
    requires Session(chain, heads, es, size)
    requires forall a <- atts :: VoteKept(a.slot, HighestPrune(es))
    requires forall a <- atts :: !EpochStartWraps(a.slot) || HighestPrune(es) == 0
    ensures var s := SessionStore(chain, heads, es);
            TallyOf(s.hist.votes, s.roots, header, atts) ==
            TallyOf(KnownVotes(chain, heads, es), KnownRoots(chain, heads, es), header, atts)
  {
    var s := SessionStore(chain, heads, es);
    RemembersBlock(chain, heads, es, size, atts);
    forall a <- atts ensures IsCorrectTarget(a, s.roots) == IsCorrectTarget(a, KnownRoots(chain, heads, es)) {
      TargetSurvivesPruning(BuildRun(chain, heads), es, a);
    }
    TallyLocal(s.hist.votes, KnownVotes(chain, heads, es), s.roots, KnownRoots(chain, heads, es), header, atts);
  }

  /** With committee-sized bitfields its row counts exactly the votes that are not known yet:
      all of them, the timely ones, and those whose first carrier has the right target or the
      right head. */
  lemma SessionScoresUnknownVotes(chain: Chain, heads: seq<u64>, es: seq<Event>, size: Key -> nat,
                                  p: Proposal, indicesSlashed: nat, client: string, nodeLabel: string)
    requires Session(chain, heads, es, size) && CommitteeSized(p.atts, size)
    requires forall a <- p.atts :: VoteKept(a.slot, HighestPrune(es))
    requires forall a <- p.atts :: !EpochStartWraps(a.slot) || HighestPrune(es) == 0
    ensures var row := ScoredRow(SessionStore(chain, heads, es), p, indicesSlashed, client, nodeLabel);
            var known := KnownVotes(chain, heads, es);
            && row.newVotes == |Fresh(known, p.atts)|
            && row.correctSource == |TimelySource(known, p.header, p.atts)|
            && row.correctTarget == |FreshPassing(known, p.atts, TargetCheck(KnownRoots(chain, heads, es)))|
            && row.correctHead == |FreshPassing(known, p.atts, HeadCheck(p.header))|
  {
    SessionTally(chain, heads, es, size, p.header, p.atts);
    SizedNeverDoubleCounts(KnownVotes(chain, heads, es), p.atts, size);
    CreditsExact(KnownVotes(chain, heads, es), KnownRoots(chain, heads, es), p.header, p.atts);
  }

  // ---------- Roots after the build ----------

  /** The last head of the build. */
  function LastOf(heads: seq<u64>): u64
    requires heads != []
  {
    heads[|heads| - 1]
  }

  lemma SessionRoots(chain: Chain, heads: seq<u64>, es: seq<Event>, size: Key -> nat)
    requires Session(chain, heads, es, size) && forall e <- es :: !e.Recorded?
    ensures var r := SessionStore(chain, heads, es).roots;
            && (forall i: u64 :: i in r <==>
                  i in chain && heads[0] - 64 <= i <= LastOf(heads) && RootKept(i, HighestPrune(es)))
            && (forall i <- r :: r[i] == chain[i].root)
            && (LastOf(heads) in r <==> RootKept(LastOf(heads), HighestPrune(es)))
  {
    BuildRunFillsWindow(chain, heads, size);
    BuildRunRoots(chain, heads);
    RootsOnlyShrink(BuildRun(chain, heads), es);
  }

  /** Neither head events nor proposals record a root. So after the build a target verdict is
      real only for epochs that start at an available slot from 64 before the first head of the
      build to its last head, and not pruned yet; any other target counts as correct. */
  lemma SessionTargets(chain: Chain, heads: seq<u64>, es: seq<Event>, size: Key -> nat, a: Attestation)
    requires Session(chain, heads, es, size) && forall e <- es :: !e.Recorded?
    ensures var first := FirstSlotOfEpoch(a.slot);
            IsCorrectTarget(a, SessionStore(chain, heads, es).roots) <==>
            (first in chain && heads[0] - 64 <= first <= LastOf(heads) && RootKept(first, HighestPrune(es)) ==>
               chain[first].root == a.targetRoot)
  {
    SessionRoots(chain, heads, es, size);
  }

  /** Roots are left until a proposal comes more than 64 slots after the build, and none from
      then on (away from the wrap). When none is left CorrectTarget equals NewVotes for every
      proposal; no target is ever wrong, if and only if no epoch start is left. */
  lemma TargetsGoUnchecked(chain: Chain, heads: seq<u64>, es: seq<Event>, size: Key -> nat,
                           header: Header, atts: seq<Attestation>)
    requires Session(chain, heads, es, size) && forall e <- es :: !e.Recorded?
    ensures var s := SessionStore(chain, heads, es);
            var t := TallyOf(s.hist.votes, s.roots, header, atts);
            && (LastOf(heads) < TWO64 - 64 ==> (s.roots == map[] <==> LastOf(heads) + 64 < HighestPrune(es)))
            && (LastOf(heads) + 64 < HighestPrune(es) ==> s.roots == map[])
            && (s.roots == map[] ==> t.target == t.newVotes)
            && ((forall a: Attestation :: IsCorrectTarget(a, s.roots)) <==> forall f <- s.roots :: f % 32 != 0)
  {
    SessionRoots(chain, heads, es, size);
    var s := SessionStore(chain, heads, es);
    NoRootsNoWrongTarget(s.hist.votes, s.roots, header, atts);
    WrongTargetNeedsEpochStart(s.roots);
  }

  lemma NoRootsNoWrongTarget(history: set<Vote>, roots: map<u64, Root>, header: Header, atts: seq<Attestation>)
    ensures var t := TallyOf(history, roots, header, atts);
            roots == map[] ==> t.target == t.newVotes
  {
    TallyCredits(history, roots, header, atts);
    if roots == map[] {
      CreditMonotone(history, history, atts, AnyVote(), TargetCheck(roots));
      CreditMonotone(history, history, atts, TargetCheck(roots), AnyVote());
    }
  }

  lemma WrongTargetNeedsEpochStart(roots: map<u64, Root>)
    ensures (forall a: Attestation :: IsCorrectTarget(a, roots)) <==> forall f <- roots :: f % 32 != 0
  {
    if f :| f in roots && f % 32 == 0 {
      var wrong := Attestation(f, 0, [], roots[f] + 1, 0);
      assert FirstSlotOfEpoch(f) == f && !IsCorrectTarget(wrong, roots);
    }
  }
}
