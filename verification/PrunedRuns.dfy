/** Whole runs of one analyzer's histories: blocks are absorbed, roots are recorded and
    proposals prune. The pruned histories are compared with those of the same run in which
    no proposal prunes anything. */
module PrunedRuns {
  import opened U64
  import opened Votes
  import opened Scoring

  /** The two sliding-window histories of an analyzer. */
  datatype Store = Store(hist: Hist, roots: map<u64, Root>)

  datatype Event =
    | Absorbed(atts: seq<Attestation>)
    | Recorded(slot: u64, root: Root)
    | Proposed(slot: u64)

  function PruneRoots(roots: map<u64, Root>, slot: u64): map<u64, Root> {
    map s | s in roots && RootKept(s, slot) :: roots[s]
  }

  function PruneStore(s: Store, slot: u64): Store {
    Store(Prune(s.hist, slot), PruneRoots(s.roots, slot))
  }

  function Step(s: Store, e: Event, pruning: bool): Store {
    match e
    case Absorbed(atts) => s.(hist := Absorb(s.hist, atts))
    case Recorded(slot, root) => s.(roots := s.roots[slot := root])
    case Proposed(slot) => if pruning then PruneStore(s, slot) else s
  }

  function Run(s: Store, es: seq<Event>, pruning: bool): Store {
    if es == [] then s else Step(Run(s, es[..|es| - 1], pruning), es[|es| - 1], pruning)
  }

  /** The highest slot a proposal of the run pruned at. */
  function HighestPrune(es: seq<Event>): u64 {
    if es == [] then 0
    else
      var before := HighestPrune(es[..|es| - 1]);
      match es[|es| - 1]
      case Proposed(slot) => if before < slot then slot else before
      case _ => before
  }

  /** Every vote of every absorbed block, whatever its bitlist could hold. */
  function AllVotes(es: seq<Event>): set<Vote> {
    if es == [] then {}
    else AllVotes(es[..|es| - 1]) + if es[|es| - 1].Absorbed? then BlockVotes(es[|es| - 1].atts) else {}
  }

  ghost predicate SameVoteAt(a: Hist, b: Hist, k: Key) {
    && (k in a.lens <==> k in b.lens)
    && (k in a.lens ==> a.lens[k] == b.lens[k])
    && forall i: nat :: Vote(k, i) in a.votes <==> Vote(k, i) in b.votes
  }

  ghost predicate SameRootAt(a: map<u64, Root>, b: map<u64, Root>, s: u64) {
    (s in a <==> s in b) && (s in a ==> a[s] == b[s])
  }

  /** `a` and `b` agree on everything a proposal at `slot` leaves in the windows. */
  ghost predicate AgreeInWindow(a: Store, b: Store, slot: u64) {
    && (forall k: Key | VoteKept(k.slot, slot) :: SameVoteAt(a.hist, b.hist, k))
    && (forall s: u64 | RootKept(s, slot) :: SameRootAt(a.roots, b.roots, s))
  }

  lemma AbsorbKeepsAgreement(a: Hist, b: Hist, atts: seq<Attestation>, k: Key)
    requires SameVoteAt(a, b, k)
    ensures SameVoteAt(Absorb(a, atts), Absorb(b, atts), k)
  {
    AbsorbLengths(a, atts, k);
    AbsorbLengths(b, atts, k);
    forall i: nat ensures Vote(k, i) in Absorb(a, atts).votes <==> Vote(k, i) in Absorb(b, atts).votes {
      AbsorbMeaning(a, atts, Vote(k, i));
      AbsorbMeaning(b, atts, Vote(k, i));
    }
  }

  /** Pruning is unobservable inside the windows of the highest slot pruned at: for any
      interleaving of blocks, roots and proposals (in any slot order, with bitfields of any
      length), the pruned histories agree there with the histories never pruned. Elsewhere
      the pruned histories hold nothing that was not absorbed, even where an old
      attestation has re-created a deleted slot. */
  lemma {:induction false} PruningIsUnobservable(s: Store, es: seq<Event>)
    ensures AgreeInWindow(Run(s, es, true), Run(s, es, false), HighestPrune(es))
    ensures Run(s, es, true).hist.votes <= s.hist.votes + AllVotes(es)
  {
    if es == [] {
    } else {
      var front, last := es[..|es| - 1], es[|es| - 1];
      PruningIsUnobservable(s, front);
      var a, b := Run(s, front, true), Run(s, front, false);
      var before, after := HighestPrune(front), HighestPrune(es);
      assert before <= after;
      assert AgreeInWindow(a, b, after) by {
        forall k: Key | VoteKept(k.slot, after) ensures SameVoteAt(a.hist, b.hist, k) {
          assert VoteKept(k.slot, before);
        }
        forall r: u64 | RootKept(r, after) ensures SameRootAt(a.roots, b.roots, r) {
          assert RootKept(r, before);
        }
      }
      StepKeepsAgreement(a, b, last, after);
      if last.Absorbed? {
        forall v ensures v in Absorb(a.hist, last.atts).votes ==> v in a.hist.votes + BlockVotes(last.atts) {
          AbsorbMeaning(a.hist, last.atts, v);
        }
      }
    }
  }

  lemma StepKeepsAgreement(a: Store, b: Store, e: Event, slot: u64)
    requires AgreeInWindow(a, b, slot)
    requires e.Proposed? ==> e.slot <= slot
    ensures AgreeInWindow(Step(a, e, true), Step(b, e, false), slot)
  {
    match e
    case Absorbed(atts) =>
      forall k: Key | VoteKept(k.slot, slot) ensures SameVoteAt(Absorb(a.hist, atts), Absorb(b.hist, atts), k) {
        AbsorbKeepsAgreement(a.hist, b.hist, atts, k);
      }
    case Recorded(s, root) =>
      forall r: u64 | RootKept(r, slot)
        ensures SameRootAt(a.roots[s := root], b.roots[s := root], r)
      {
        assert SameRootAt(a.roots, b.roots, r);
      }
    case Proposed(s) =>
      forall k: Key | VoteKept(k.slot, slot) ensures SameVoteAt(Prune(a.hist, s), b.hist, k) {
        assert SameVoteAt(a.hist, b.hist, k) && VoteKept(k.slot, s);
      }
      forall r: u64 | RootKept(r, slot) ensures SameRootAt(PruneRoots(a.roots, s), b.roots, r) {
        assert SameRootAt(a.roots, b.roots, r) && RootKept(r, s);
      }
  }

  /** With committee-sized bitfields the history never pruned is the union of everything
      absorbed; so the pruned one equals that union inside the window. */
  lemma {:induction false} UnprunedIsUnion(s: Store, es: seq<Event>, size: Key -> nat)
    requires HistSized(s.hist, size)
    requires forall e <- es | e.Absorbed? :: CommitteeSized(e.atts, size)
    ensures HistSized(Run(s, es, false).hist, size)
    ensures Run(s, es, false).hist.votes == s.hist.votes + AllVotes(es)
  {
    if es == [] {
    } else {
      var front, last := es[..|es| - 1], es[|es| - 1];
      UnprunedIsUnion(s, front, size);
      if last.Absorbed? {
        assert last in es;
        SizedVotesFit(Run(s, front, false).hist, last.atts, size);
        AbsorbIsUnion(Run(s, front, false).hist, last.atts);
      }
    }
  }

  lemma PrunedIsUnionInWindow(s: Store, es: seq<Event>, size: Key -> nat, v: Vote)
    requires HistSized(s.hist, size)
    requires forall e <- es | e.Absorbed? :: CommitteeSized(e.atts, size)
    ensures UpTo(HighestPrune(es), v.key.slot, 32) ==>
              (v in Run(s, es, true).hist.votes <==> v in s.hist.votes + AllVotes(es))
    ensures v in Run(s, es, true).hist.votes ==> v in s.hist.votes + AllVotes(es)
  {
    PruningIsUnobservable(s, es);
    UnprunedIsUnion(s, es, size);
    WindowsMeaning(v.key.slot, HighestPrune(es));
    if VoteKept(v.key.slot, HighestPrune(es)) {
      assert SameVoteAt(Run(s, es, true).hist, Run(s, es, false).hist, v.key);
      assert v == Vote(v.key, v.bit);
    }
  }

  lemma TargetSurvivesPruning(s: Store, es: seq<Event>, a: Attestation)
    requires VoteKept(a.slot, HighestPrune(es)) && (!EpochStartWraps(a.slot) || HighestPrune(es) == 0)
    ensures IsCorrectTarget(a, Run(s, es, true).roots) == IsCorrectTarget(a, Run(s, es, false).roots)
  {
    PruningIsUnobservable(s, es);
    RootWindowCoversVoteWindow(a.slot, HighestPrune(es));
    assert SameRootAt(Run(s, es, true).roots, Run(s, es, false).roots, FirstSlotOfEpoch(a.slot));
  }

  /** A proposal whose attestations lie in the vote window of the highest prune is tallied
      the same on the pruned and on the unpruned histories. */
  lemma ScoresSurvivePruning(s: Store, es: seq<Event>, header: Header, atts: seq<Attestation>)
    requires forall a <- atts :: VoteKept(a.slot, HighestPrune(es))
    requires forall a <- atts :: !EpochStartWraps(a.slot) || HighestPrune(es) == 0
    ensures var pruned, full := Run(s, es, true), Run(s, es, false);
            TallyOf(pruned.hist.votes, pruned.roots, header, atts) == TallyOf(full.hist.votes, full.roots, header, atts)
  {
    PruningIsUnobservable(s, es);
    var pruned, full := Run(s, es, true), Run(s, es, false);
    forall a <- atts, v <- VotesOf(a) ensures v in pruned.hist.votes <==> v in full.hist.votes {
      assert SameVoteAt(pruned.hist, full.hist, a.Committee());
      assert v == Vote(a.Committee(), v.bit);
    }
    forall a <- atts ensures IsCorrectTarget(a, pruned.roots) == IsCorrectTarget(a, full.roots) {
      TargetSurvivesPruning(s, es, a);
    }
    TallyLocal(pruned.hist.votes, full.hist.votes, pruned.roots, full.roots, header, atts);
  }

  /** The excluded epoch is a real exception: for every attestation in it that a proposal
      keeps, there is a run in which pruning changes its target verdict. */
  lemma WrappingEpochLosesItsRoot(a: Attestation, slot: u64)
    requires EpochStartWraps(a.slot) && slot != 0 && VoteKept(a.slot, slot)
    ensures exists es: seq<Event> ::
              && HighestPrune(es) == slot
              && IsCorrectTarget(a, Run(Store(EMPTY, map[]), es, true).roots)
              && !IsCorrectTarget(a, Run(Store(EMPTY, map[]), es, false).roots)
  {
    var first := FirstSlotOfEpoch(a.slot);
    RootWindowCoversVoteWindow(a.slot, slot);
    RecordThenPrune(first, a.targetRoot + 1, slot);
  }

  /** A run that records one root and then prunes it. */
  lemma RecordThenPrune(s: u64, root: Root, slot: u64)
    requires !RootKept(s, slot)
    ensures var es := [Recorded(s, root), Proposed(slot)];
            && HighestPrune(es) == slot
            && Run(Store(EMPTY, map[]), es, true).roots == map[]
            && Run(Store(EMPTY, map[]), es, false).roots == map[s := root]
  {
    var start := Store(EMPTY, map[]);
    var none: seq<Event> := [];
    RunNext(start, none, Recorded(s, root));
    RunNext(start, [Recorded(s, root)], Proposed(slot));
    assert none + [Recorded(s, root)] == [Recorded(s, root)];
    assert [Recorded(s, root)] + [Proposed(slot)] == [Recorded(s, root), Proposed(slot)];
  }

  lemma {:induction false} RunOfConcat(s: Store, a: seq<Event>, b: seq<Event>, pruning: bool)
    ensures Run(s, a + b, pruning) == Run(Run(s, a, pruning), b, pruning)
  {
    if b == [] {
      assert a + b == a;
    } else {
      assert (a + b)[..|a + b| - 1] == a + b[..|b| - 1];
      RunOfConcat(s, a, b[..|b| - 1], pruning);
    }
  }

  lemma RunNext(s: Store, es: seq<Event>, e: Event)
    ensures forall pruning :: Run(s, es + [e], pruning) == Step(Run(s, es, pruning), e, pruning)
    ensures HighestPrune(es + [e]) ==
            if e.Proposed? && HighestPrune(es) < e.slot then e.slot else HighestPrune(es)
  {
    assert (es + [e])[..|es|] == es;
  }

  /** Two prunes are one prune at the later slot. */
  lemma PruneTwice(s: Store, early: u64, late: u64)
    requires early <= late
    ensures PruneStore(PruneStore(s, early), late) == PruneStore(s, late) == PruneStore(PruneStore(s, late), early)
  {
    var once := PruneStore(s, late);
    var a, b := PruneStore(PruneStore(s, early), late), PruneStore(once, early);
    assert a.hist.lens == once.hist.lens == b.hist.lens;
    assert a.roots == once.roots == b.roots;
  }

  lemma PruneRootsTwice(roots: map<u64, Root>, a: u64, b: u64)
    ensures PruneRoots(PruneRoots(roots, a), b) == PruneRoots(roots, if a < b then b else a)
  {
    assert forall s :: s in PruneRoots(PruneRoots(roots, a), b) <==> s in PruneRoots(roots, if a < b then b else a);
  }

  /** In a run that records no root, the roots are those of the start that the highest prune
      leaves: the root history only shrinks. */
  lemma {:induction false} RootsOnlyShrink(s: Store, es: seq<Event>)
    requires forall e <- es :: !e.Recorded?
    ensures Run(s, es, true).roots == PruneRoots(s.roots, HighestPrune(es))
  {
    if es == [] {
      assert PruneRoots(s.roots, 0) == s.roots;
    } else {
      var front, last := es[..|es| - 1], es[|es| - 1];
      RootsOnlyShrink(s, front);
      assert last in es;
      if last.Proposed? {
        PruneRootsTwice(s.roots, HighestPrune(front), last.slot);
      }
    }
  }

  /** New votes of one attestation against the history. */
  function NewVotesOf(s: Store, a: Attestation): nat {
    Credit(s.hist.votes, [a], AnyVote())
  }

  lemma NewVotesOfOne(s: Store, a: Attestation)
    ensures NewVotesOf(s, a) == |VotesOf(a) - s.hist.votes|
  {
    assert [a][..0] == [];
    assert Credit(s.hist.votes, [a][..0], AnyVote()) == 0;
    assert NewAt(s.hist.votes, [a], 0) == VotesOf(a) - s.hist.votes;
  }

  /** A run that absorbs one attestation and then prunes its slot. */
  lemma AbsorbThenPrune(a: Attestation, slot: u64)
    requires !VoteKept(a.slot, slot)
    ensures var es := [Absorbed([a]), Proposed(slot)];
            && HighestPrune(es) == slot
            && Run(Store(EMPTY, map[]), es, true).hist.votes == {}
            && Run(Store(EMPTY, map[]), es, false).hist.votes == VotesOf(a)
  {
    var start := Store(EMPTY, map[]);
    var none: seq<Event> := [];
    RunNext(start, none, Absorbed([a]));
    RunNext(start, [Absorbed([a])], Proposed(slot));
    assert none + [Absorbed([a])] == [Absorbed([a])];
    assert [Absorbed([a])] + [Proposed(slot)] == [Absorbed([a]), Proposed(slot)];
    AbsorbOnlyOne(a);
  }

  lemma AbsorbOnlyOne(a: Attestation)
    ensures Absorb(EMPTY, [a]).votes == VotesOf(a)
  {
    assert [a][..0] == [] && Absorb(EMPTY, [a]) == AbsorbOne(EMPTY, a);
  }

  lemma NewVotesSurvivePruning(s: Store, es: seq<Event>, a: Attestation)
    requires VoteKept(a.slot, HighestPrune(es))
    ensures NewVotesOf(Run(s, es, true), a) == NewVotesOf(Run(s, es, false), a)
  {
    PruningIsUnobservable(s, es);
    var pruned, full := Run(s, es, true), Run(s, es, false);
    forall v <- VotesOf(a) ensures v in pruned.hist.votes <==> v in full.hist.votes {
      assert SameVoteAt(pruned.hist, full.hist, a.Committee());
      assert v == Vote(a.Committee(), v.bit);
    }
    NewVotesOfOne(pruned, a);
    NewVotesOfOne(full, a);
    assert VotesOf(a) - pruned.hist.votes == VotesOf(a) - full.hist.votes;
  }

  /** Pruning during `es` changes how many votes of `a` count as new. */
  ghost predicate PruningShows(es: seq<Event>, a: Attestation) {
    NewVotesOf(Run(Store(EMPTY, map[]), es, true), a) != NewVotesOf(Run(Store(EMPTY, map[]), es, false), a)
  }

  /** The window is exact: for every attestation that carries a vote and every slot, some run
      whose highest prune is at that slot counts the attestation's votes differently without
      pruning, if and only if that prune leaves the attestation outside the window. */
  lemma PruningShowsOutsideWindow(a: Attestation, slot: u64)
    requires VotesOf(a) != {}
    ensures (exists es :: HighestPrune(es) == slot && PruningShows(es, a)) <==> !UpTo(slot, a.slot, 32)
  {
    WindowsMeaning(a.slot, slot);
    var start := Store(EMPTY, map[]);
    if VoteKept(a.slot, slot) {
      forall es | HighestPrune(es) == slot ensures !PruningShows(es, a) {
        NewVotesSurvivePruning(start, es, a);
      }
    } else {
      var es := [Absorbed([a]), Proposed(slot)];
      AbsorbThenPrune(a, slot);
      NewVotesOfOne(Run(start, es, true), a);
      NewVotesOfOne(Run(start, es, false), a);
      assert VotesOf(a) - {} == VotesOf(a) && VotesOf(a) - VotesOf(a) == {};
      assert PruningShows(es, a);
    }
  }
}
