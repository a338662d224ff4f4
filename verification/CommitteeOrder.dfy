/** When the order of a proposal's attestations decides a counter, for any check and bitfields of
    any length. Within one committee the first attestation fixes the length of the bitlist: votes
    past it are counted once for every carrier, the others once for their first carrier. */
module CommitteeOrder {
  import opened U64
  import opened Votes
  import opened Scoring
  import opened CreditOrder

  // ---------- One committee ----------

  ghost predicate OneCommittee(atts: seq<Attestation>, key: Key) {
    forall a <- atts :: a.Committee() == key
  }

  /** New votes of `a` at or past bit `n`. */
  function Beyond(history: set<Vote>, a: Attestation, n: nat): set<Vote> {
    set v | v in VotesOf(a) && v !in history && v.bit >= n
  }

  /** The votes past bit `n`, once for every passing carrier. */
  function Recounted(history: set<Vote>, atts: seq<Attestation>, n: nat, check: Attestation -> bool): nat {
    if atts == [] then 0
    else (if check(atts[0]) then |Beyond(history, atts[0], n)| else 0) + Recounted(history, atts[1..], n, check)
  }

  lemma {:induction false} RecountedOfConcat(history: set<Vote>, a: seq<Attestation>, b: seq<Attestation>, n: nat,
                                             check: Attestation -> bool)
    ensures Recounted(history, a + b, n, check) == Recounted(history, a, n, check) + Recounted(history, b, n, check)
  {
    if a == [] {
      assert a + b == b;
    } else {
      assert (a + b)[1..] == a[1..] + b;
      RecountedOfConcat(history, a[1..], b, n, check);
    }
  }

  lemma {:induction false} RecountedInAnyOrder(history: set<Vote>, a: seq<Attestation>, b: seq<Attestation>, n: nat,
                                               check: Attestation -> bool)
    requires multiset(a) == multiset(b)
    ensures Recounted(history, a, n, check) == Recounted(history, b, n, check)
  {
    assert |a| == |multiset(a)| && |b| == |multiset(b)|;
    if a == [] {
    } else {
      SameElements(a, b);
      assert a[0] in b;
      var i :| 0 <= i < |b| && b[i] == a[0];
      var rest := b[..i] + b[i + 1..];
      TakeOne(b, i);
      HeadAndTail(a);
      CancelOne(a[0], multiset(a[1..]), multiset(rest));
      RecountedInAnyOrder(history, a[1..], rest, n, check);
      assert b == b[..i] + ([b[i]] + b[i + 1..]);
      RecountedOfConcat(history, b[..i], [b[i]] + b[i + 1..], n, check);
      RecountedOfConcat(history, b[..i], b[i + 1..], n, check);
    }
  }

  lemma CancelOne<T>(x: T, p: multiset<T>, q: multiset<T>)
    requires multiset{x} + p == multiset{x} + q
    ensures p == q
  {
    assert p == multiset{x} + p - multiset{x};
    assert q == multiset{x} + q - multiset{x};
  }

  /** What is decided once `f` comes first: its own votes, and the votes past its end. */
  function Settled(history: set<Vote>, atts: seq<Attestation>, f: Attestation): set<Vote> {
    history + VotesOf(f) + set v | v in BlockVotes(atts) && v.bit >= |f.bits|
  }

  lemma AbsorbedAfterFirst(f: Attestation, rest: seq<Attestation>, key: Key, v: Vote)
    requires OneCommittee([f] + rest, key) && v.key == key
    ensures v in Absorb(EMPTY, [f] + rest).votes <==>
            (v in VotesOf(f) || v in BlockVotes(rest)) && v.bit < |f.bits|
  {
    AbsorbMeaning(EMPTY, [f] + rest, v);
    BlockVotesOfConcat([f], rest);
    assert [f][..0] == [] && BlockVotes([f]) == VotesOf(f);
    assert f in [f] + rest && ([f] + rest)[0] == f;
  }

  /** The attestation after `rest`: its new votes are those nobody carried before, and those
      past the end of `f`. */
  lemma NewAfterFirst(history: set<Vote>, f: Attestation, rest: seq<Attestation>, a: Attestation, settled: set<Vote>,
                      key: Key)
    requires OneCommittee([f] + rest, key) && a.Committee() == key
    requires forall v <- VotesOf(a) :: v in settled <==> v in history || v in VotesOf(f) || v.bit >= |f.bits|
    ensures |VotesOf(a) - history - Absorb(EMPTY, [f] + rest).votes| ==
            |VotesOf(a) - settled - BlockVotes(rest)| + |Beyond(history, a, |f.bits|)|
  {
    forall v <- VotesOf(a)
      ensures v in Absorb(EMPTY, [f] + rest).votes <==> (v in VotesOf(f) || v in BlockVotes(rest)) && v.bit < |f.bits|
    {
      AbsorbedAfterFirst(f, rest, key, v);
    }
    DisjointUnionSize(VotesOf(a) - settled - BlockVotes(rest), Beyond(history, a, |f.bits|),
                      VotesOf(a) - history - Absorb(EMPTY, [f] + rest).votes);
  }

  function OwnCredit(history: set<Vote>, f: Attestation, check: Attestation -> bool): nat {
    if check(f) then |VotesOf(f) - history| else 0
  }

  lemma CreditOfLast(history: set<Vote>, front: seq<Attestation>, a: Attestation, check: Attestation -> bool)
    ensures Credit(history, front + [a], check) ==
            Credit(history, front, check) +
            if check(a) then |VotesOf(a) - history - Absorb(EMPTY, front).votes| else 0
  {
    assert (front + [a])[..|front|] == front;
  }

  lemma {:induction false} CreditAfterFirst(history: set<Vote>, f: Attestation, rest: seq<Attestation>,
                                            settled: set<Vote>, check: Attestation -> bool, key: Key)
    requires OneCommittee([f] + rest, key)
    requires forall v <- BlockVotes(rest) :: v in settled <==> v in history || v in VotesOf(f) || v.bit >= |f.bits|
    ensures Credit(history, [f] + rest, check) ==
            OwnCredit(history, f, check) + |FreshPassing(settled, rest, check)| +
            Recounted(history, rest, |f.bits|, check)
  {
    if rest == [] {
      assert [f] + rest == [f] && [f][..0] == [];
      assert NewAt(history, [f], 0) == VotesOf(f) - history;
      assert FreshPassing(settled, rest, check) == {};
    } else {
      var front, a := rest[..|rest| - 1], rest[|rest| - 1];
      assert rest == front + [a];
      CreditAfterFirst(history, f, front, settled, check, key);
      OneMoreAfterFirst(history, f, front, a, settled, check, key);
    }
  }

  lemma OneMoreAfterFirst(history: set<Vote>, f: Attestation, front: seq<Attestation>, a: Attestation,
                          settled: set<Vote>, check: Attestation -> bool, key: Key)
    requires OneCommittee([f] + (front + [a]), key)
    requires forall v <- VotesOf(a) :: v in settled <==> v in history || v in VotesOf(f) || v.bit >= |f.bits|
    ensures Credit(history, [f] + (front + [a]), check) - Credit(history, [f] + front, check) ==
            |FreshPassing(settled, front + [a], check)| - |FreshPassing(settled, front, check)| +
            Recounted(history, front + [a], |f.bits|, check) - Recounted(history, front, |f.bits|, check)
  {
    var whole := [f] + (front + [a]);
    assert whole[|front| + 1] == a && a in whole;
    forall b <- [f] + front ensures b in whole {}
    assert whole == [f] + front + [a];
    CreditOfLast(history, [f] + front, a, check);
    NewAfterFirst(history, f, front, a, settled, key);
    FreshPassingOfLast(settled, front, a, check);
    RecountedOfConcat(history, front, [a], |f.bits|, check);
    assert [a][1..] == [];
  }

  lemma FreshPassingOfLast(history: set<Vote>, front: seq<Attestation>, a: Attestation, check: Attestation -> bool)
    ensures |FreshPassing(history, front + [a], check)| == |FreshPassing(history, front, check)| +
            if check(a) then |VotesOf(a) - history - BlockVotes(front)| else 0
  {
    assert (front + [a])[..|front|] == front;
    FreshPassingStep(history, front + [a], check);
  }

  /** The counter in any order of the committee that begins with `f`. */
  lemma CreditWithFirst(history: set<Vote>, atts: seq<Attestation>, f: Attestation, rest: seq<Attestation>,
                        check: Attestation -> bool, key: Key)
    requires OneCommittee(atts, key) && multiset([f] + rest) == multiset(atts)
    ensures Credit(history, [f] + rest, check) ==
            OwnCredit(history, f, check) + |FreshPassing(Settled(history, atts, f), rest, check)| +
            Recounted(history, atts, |f.bits|, check)
  {
    var settled := Settled(history, atts, f);
    SameElements([f] + rest, atts);
    PermutationKeepsVotes([f] + rest, atts);
    BlockVotesOfConcat([f], rest);
    CreditAfterFirst(history, f, rest, settled, check, key);
    RecountedInAnyOrder(history, [f] + rest, atts, |f.bits|, check);
    assert ([f] + rest)[1..] == rest && Beyond(history, f, |f.bits|) == {};
  }

  lemma SettledHidesFirst(history: set<Vote>, atts: seq<Attestation>, f: Attestation, rest: seq<Attestation>,
                          check: Attestation -> bool)
    requires multiset([f] + rest) == multiset(atts)
    ensures var settled := Settled(history, atts, f);
            && CarriedBy(settled, rest, check, true) == CarriedBy(settled, atts, check, true)
            && (CarriersAgree(settled, rest, check) <==> CarriersAgree(settled, atts, check))
  {
    var settled := Settled(history, atts, f);
    SameElements([f] + rest, atts);
    PermutationKeepsVotes([f] + rest, atts);
    BlockVotesOfConcat([f], rest);
    assert [f][..0] == [] && BlockVotes([f]) == VotesOf(f);
    assert Fresh(settled, rest) == Fresh(settled, atts);
    forall a ensures a in atts <==> a == f || a in rest {
      assert a in [f] + rest <==> a == f || a in rest;
    }
  }

  /** The counter when `f` comes first and the carriers of what it leaves open agree. */
  ghost function FirstCredit(history: set<Vote>, atts: seq<Attestation>, f: Attestation,
                             check: Attestation -> bool): nat {
    OwnCredit(history, f, check) + |CarriedBy(Settled(history, atts, f), atts, check, true)| +
    Recounted(history, atts, |f.bits|, check)
  }

  /** Whichever attestation comes first, the carriers of any vote it leaves open agree, and the
      counter is the same. */
  ghost predicate CommitteeFree(history: set<Vote>, atts: seq<Attestation>, check: Attestation -> bool) {
    && (forall f <- atts :: CarriersAgree(Settled(history, atts, f), atts, check))
    && (forall f <- atts, g <- atts :: FirstCredit(history, atts, f, check) == FirstCredit(history, atts, g, check))
  }

  lemma CreditIsFirstCredit(history: set<Vote>, atts: seq<Attestation>, f: Attestation, rest: seq<Attestation>,
                            check: Attestation -> bool, key: Key)
    requires OneCommittee(atts, key) && multiset([f] + rest) == multiset(atts)
    requires CarriersAgree(Settled(history, atts, f), atts, check)
    ensures Credit(history, [f] + rest, check) == FirstCredit(history, atts, f, check)
  {
    CreditWithFirst(history, atts, f, rest, check, key);
    SettledHidesFirst(history, atts, f, rest, check);
    AgreementFixesPassing(Settled(history, atts, f), rest, rest, check);
  }

  lemma OrderFreeMeansAgreement(history: set<Vote>, atts: seq<Attestation>, f: Attestation, rest: seq<Attestation>,
                                check: Attestation -> bool, key: Key)
    requires OneCommittee(atts, key) && multiset([f] + rest) == multiset(atts)
    requires OrderFree(history, atts, check)
    ensures CarriersAgree(Settled(history, atts, f), atts, check)
  {
    var settled := Settled(history, atts, f);
    forall b: seq<Attestation> | multiset(b) == multiset(rest)
      ensures |FreshPassing(settled, b, check)| == |FreshPassing(settled, rest, check)|
    {
      SamePassingAfterFirst(history, atts, f, rest, b, check, key);
    }
    PassingOrderFreeIff(settled, rest, check);
    SettledHidesFirst(history, atts, f, rest, check);
  }

  lemma SamePassingAfterFirst(history: set<Vote>, atts: seq<Attestation>, f: Attestation, rest: seq<Attestation>,
                              b: seq<Attestation>, check: Attestation -> bool, key: Key)
    requires OneCommittee(atts, key) && multiset([f] + rest) == multiset(atts) && multiset(b) == multiset(rest)
    requires OrderFree(history, atts, check)
    ensures |FreshPassing(Settled(history, atts, f), b, check)| ==
            |FreshPassing(Settled(history, atts, f), rest, check)|
  {
    assert multiset([f] + b) == multiset{f} + multiset(b);
    assert multiset([f] + rest) == multiset{f} + multiset(rest);
    CreditWithFirst(history, atts, f, b, check, key);
    CreditWithFirst(history, atts, f, rest, check, key);
    assert Credit(history, [f] + b, check) == Credit(history, [f] + rest, check);
  }

  lemma OneCommitteeOrderIff(history: set<Vote>, atts: seq<Attestation>, check: Attestation -> bool, key: Key)
    requires OneCommittee(atts, key)
    ensures OrderFree(history, atts, check) <==> CommitteeFree(history, atts, check)
  {
    if CommitteeFree(history, atts, check) {
      forall b: seq<Attestation> | multiset(b) == multiset(atts)
        ensures Credit(history, b, check) == Credit(history, atts, check)
      {
        FreeCommitteeCredit(history, atts, b, check, key);
      }
    }
    if OrderFree(history, atts, check) {
      forall f <- atts
        ensures CarriersAgree(Settled(history, atts, f), atts, check)
        ensures FirstCredit(history, atts, f, check) == Credit(history, atts, check)
      {
        OrderFreeFirst(history, atts, f, check, key);
      }
    }
  }

  lemma OrderFreeFirst(history: set<Vote>, atts: seq<Attestation>, f: Attestation, check: Attestation -> bool, key: Key)
    requires OneCommittee(atts, key) && OrderFree(history, atts, check) && f in atts
    ensures CarriersAgree(Settled(history, atts, f), atts, check)
    ensures FirstCredit(history, atts, f, check) == Credit(history, atts, check)
  {
    var i :| 0 <= i < |atts| && atts[i] == f;
    var rest := atts[..i] + atts[i + 1..];
    TakeOne(atts, i);
    OrderFreeMeansAgreement(history, atts, f, rest, check, key);
    CreditIsFirstCredit(history, atts, f, rest, check, key);
  }

  lemma FreeCommitteeCredit(history: set<Vote>, atts: seq<Attestation>, b: seq<Attestation>,
                            check: Attestation -> bool, key: Key)
    requires OneCommittee(atts, key) && multiset(b) == multiset(atts) && CommitteeFree(history, atts, check)
    ensures Credit(history, b, check) == Credit(history, atts, check)
  {
    assert |b| == |multiset(b)| == |atts|;
    if atts == [] {
    } else {
      SameElements(b, atts);
      assert b == [b[0]] + b[1..] && atts == [atts[0]] + atts[1..];
      CreditIsFirstCredit(history, atts, b[0], b[1..], check, key);
      CreditIsFirstCredit(history, atts, atts[0], atts[1..], check, key);
    }
  }

  // ---------- Committee by committee ----------

  function InCommittee(key: Key): Attestation -> bool { (a: Attestation) => a.Committee() == key }

  function Only(atts: seq<Attestation>, key: Key): seq<Attestation> { Sieve(atts, InCommittee(key), true) }

  function Except(atts: seq<Attestation>, key: Key): seq<Attestation> { Sieve(atts, InCommittee(key), false) }

  lemma {:induction false} SieveOfConcat(a: seq<Attestation>, b: seq<Attestation>, check: Attestation -> bool,
                                         passes: bool)
    ensures Sieve(a + b, check, passes) == Sieve(a, check, passes) + Sieve(b, check, passes)
  {
    if a == [] {
      assert a + b == b;
    } else {
      assert (a + b)[1..] == a[1..] + b;
      SieveOfConcat(a[1..], b, check, passes);
    }
  }

  lemma {:induction false} SieveAll(atts: seq<Attestation>, check: Attestation -> bool, passes: bool)
    requires forall a <- atts :: check(a) == passes
    ensures Sieve(atts, check, passes) == atts && Sieve(atts, check, !passes) == []
  {
    if atts == [] {
    } else {
      SieveAll(atts[1..], check, passes);
    }
  }

  lemma SieveOfHead(atts: seq<Attestation>, check: Attestation -> bool, passes: bool)
    requires atts != []
    ensures var s, rest := Sieve(atts, check, passes), Sieve(atts[1..], check, passes);
            if check(atts[0]) == passes then s != [] && s[0] == atts[0] && s[1..] == rest else s == rest
  {}

  lemma {:induction false} FirstLengthOfSieve(atts: seq<Attestation>, key: Key, passes: bool, k: Key)
    requires (k == key) == passes
    ensures FirstLength(Sieve(atts, InCommittee(key), passes), k) == FirstLength(atts, k)
  {
    if atts == [] {
    } else {
      FirstLengthOfSieve(atts[1..], key, passes, k);
      SieveOfHead(atts, InCommittee(key), passes);
    }
  }

  lemma AbsorbOfSieve(atts: seq<Attestation>, key: Key, passes: bool, v: Vote)
    requires (v.key == key) == passes
    ensures v in Absorb(EMPTY, Sieve(atts, InCommittee(key), passes)).votes <==> v in Absorb(EMPTY, atts).votes
  {
    var part := Sieve(atts, InCommittee(key), passes);
    AbsorbMeaning(EMPTY, part, v);
    AbsorbMeaning(EMPTY, atts, v);
    FirstLengthOfSieve(atts, key, passes, v.key);
    SieveVotes(atts, InCommittee(key), passes, v);
    BlockVotesMember(atts, v);
    if k :| 0 <= k < |atts| && v in VotesOf(atts[k]) {
      assert atts[k] in atts && InCommittee(key)(atts[k]) == passes;
    }
  }

  lemma NewOfSieve(history: set<Vote>, atts: seq<Attestation>, a: Attestation, key: Key, passes: bool)
    requires InCommittee(key)(a) == passes
    ensures VotesOf(a) - history - Absorb(EMPTY, atts).votes ==
            VotesOf(a) - history - Absorb(EMPTY, Sieve(atts, InCommittee(key), passes)).votes
  {
    forall v <- VotesOf(a)
      ensures v in Absorb(EMPTY, atts).votes <==> v in Absorb(EMPTY, Sieve(atts, InCommittee(key), passes)).votes
    {
      AbsorbOfSieve(atts, key, passes, v);
    }
  }

  /** A counter is the sum over the committees: none changes what another is credited. */
  lemma {:induction false} CreditSplits(history: set<Vote>, atts: seq<Attestation>, check: Attestation -> bool,
                                        key: Key)
    ensures Credit(history, atts, check) ==
            Credit(history, Only(atts, key), check) + Credit(history, Except(atts, key), check)
  {
    if atts == [] {
    } else {
      var front, a := atts[..|atts| - 1], atts[|atts| - 1];
      assert atts == front + [a];
      CreditSplits(history, front, check, key);
      LastSplits(history, front, a, check, key, InCommittee(key)(a));
    }
  }

  lemma LastSplits(history: set<Vote>, front: seq<Attestation>, a: Attestation, check: Attestation -> bool, key: Key,
                   mine: bool)
    requires mine == InCommittee(key)(a)
    ensures Credit(history, Sieve(front + [a], InCommittee(key), mine), check) -
            Credit(history, Sieve(front, InCommittee(key), mine), check) ==
            Credit(history, front + [a], check) - Credit(history, front, check)
    ensures Sieve(front + [a], InCommittee(key), !mine) == Sieve(front, InCommittee(key), !mine)
  {
    SieveOfLast(front, a, InCommittee(key));
    NewOfSieve(history, front, a, key, mine);
    CreditOfLast(history, front, a, check);
    CreditOfLast(history, Sieve(front, InCommittee(key), mine), a, check);
  }

  lemma SieveOfLast(front: seq<Attestation>, a: Attestation, check: Attestation -> bool)
    ensures Sieve(front + [a], check, check(a)) == Sieve(front, check, check(a)) + [a]
    ensures Sieve(front + [a], check, !check(a)) == Sieve(front, check, !check(a))
  {
    SieveOfConcat(front, [a], check, true);
    SieveOfConcat(front, [a], check, false);
    SieveAll([a], check, check(a));
  }

  lemma OrderFreePart(history: set<Vote>, atts: seq<Attestation>, check: Attestation -> bool, key: Key)
    requires OrderFree(history, atts, check)
    ensures OrderFree(history, Only(atts, key), check)
  {
    var mine := Only(atts, key);
    forall b: seq<Attestation> | multiset(b) == multiset(mine)
      ensures Credit(history, b, check) == Credit(history, mine, check)
    {
      var whole := ReplacePart(history, atts, b, check, key);
      assert Credit(history, whole, check) == Credit(history, atts, check);
    }
  }

  /** The attestations with those of one committee in another order. */
  lemma ReplacePart(history: set<Vote>, atts: seq<Attestation>, b: seq<Attestation>, check: Attestation -> bool,
                    key: Key)
    returns (whole: seq<Attestation>)
    requires multiset(b) == multiset(Only(atts, key))
    ensures multiset(whole) == multiset(atts)
    ensures Credit(history, whole, check) - Credit(history, b, check) ==
            Credit(history, atts, check) - Credit(history, Only(atts, key), check)
  {
    var others := Except(atts, key);
    whole := b + others;
    SieveSplits(atts, InCommittee(key));
    CreditSplits(history, whole, check, key);
    CreditSplits(history, atts, check, key);
    SameElements(b, Only(atts, key));
    PartsOfConcat(b, others, key);
  }

  lemma PartsOfConcat(mine: seq<Attestation>, others: seq<Attestation>, key: Key)
    requires (forall a <- mine :: a.Committee() == key) && (forall a <- others :: a.Committee() != key)
    ensures Only(mine + others, key) == mine && Except(mine + others, key) == others
  {
    SieveAll(mine, InCommittee(key), true);
    SieveAll(others, InCommittee(key), false);
    SieveOfConcat(mine, others, InCommittee(key), true);
    SieveOfConcat(mine, others, InCommittee(key), false);
  }

  lemma {:induction false} OnlyOfExcept(atts: seq<Attestation>, key: Key, k: Key)
    ensures Only(Except(atts, key), k) == if k == key then [] else Only(atts, k)
  {
    if atts == [] {
    } else {
      OnlyOfExcept(atts[1..], key, k);
      SieveOfHead(atts, InCommittee(key), false);
      SieveOfHead(atts, InCommittee(k), true);
      if atts[0].Committee() != key {
        SieveOfHead(Except(atts, key), InCommittee(k), true);
      }
    }
  }

  lemma {:induction false} PartsOrderFree(history: set<Vote>, atts: seq<Attestation>, b: seq<Attestation>,
                                          check: Attestation -> bool)
    requires multiset(b) == multiset(atts)
    requires forall key :: OrderFree(history, Only(atts, key), check)
    ensures Credit(history, b, check) == Credit(history, atts, check)
    decreases |atts|
  {
    assert |b| == |multiset(b)| == |atts|;
    if atts == [] {
    } else {
      var key := atts[0].Committee();
      CreditSplits(history, atts, check, key);
      CreditSplits(history, b, check, key);
      PermutationSieve(atts, b, InCommittee(key), true);
      PermutationSieve(atts, b, InCommittee(key), false);
      ExceptIsShorter(atts);
      forall k ensures OrderFree(history, Only(Except(atts, key), k), check) {
        OnlyOfExcept(atts, key, k);
        EmptyIsOrderFree(history, check);
      }
      PartsOrderFree(history, Except(atts, key), Except(b, key), check);
    }
  }

  lemma EmptyIsOrderFree(history: set<Vote>, check: Attestation -> bool)
    ensures OrderFree(history, [], check)
  {
    var none: seq<Attestation> := [];
    forall b: seq<Attestation> | multiset(b) == multiset(none)
      ensures Credit(history, b, check) == Credit(history, none, check)
    {
      assert |b| == |multiset(b)|;
    }
  }

  lemma ExceptIsShorter(atts: seq<Attestation>)
    requires atts != []
    ensures |Except(atts, atts[0].Committee())| < |atts|
  {
    SieveLength(atts[1..], InCommittee(atts[0].Committee()), false);
  }

  lemma {:induction false} SieveLength(atts: seq<Attestation>, check: Attestation -> bool, passes: bool)
    ensures |Sieve(atts, check, passes)| <= |atts|
  {
    if atts == [] {
    } else {
      SieveLength(atts[1..], check, passes);
    }
  }

  /** For any check and any bitfields: a counter is the same in every order of the attestations if
      and only if in each committee, whichever attestation comes first, the carriers of any vote
      it leaves open agree, and the counter it leads to is the same. */
  lemma CreditOrderFreeIff(history: set<Vote>, atts: seq<Attestation>, check: Attestation -> bool)
    ensures OrderFree(history, atts, check) <==> forall key :: CommitteeFree(history, Only(atts, key), check)
  {
    forall key ensures OrderFree(history, Only(atts, key), check) <==> CommitteeFree(history, Only(atts, key), check) {
      OneCommitteeOrderIff(history, Only(atts, key), check, key);
    }
    if OrderFree(history, atts, check) {
      forall key ensures OrderFree(history, Only(atts, key), check) {
        OrderFreePart(history, atts, check, key);
      }
    } else {
      var b: seq<Attestation> :| multiset(b) == multiset(atts)
        && Credit(history, b, check) != Credit(history, atts, check);
      if forall key :: OrderFree(history, Only(atts, key), check) {
        PartsOrderFree(history, atts, b, check);
      }
    }
  }

  /** So for CorrectTarget and CorrectHead. */
  lemma TargetAndHeadOrderIff(history: set<Vote>, atts: seq<Attestation>, roots: map<u64, Root>, header: Header)
    ensures OrderFree(history, atts, TargetCheck(roots)) <==>
            forall key :: CommitteeFree(history, Only(atts, key), TargetCheck(roots))
    ensures OrderFree(history, atts, HeadCheck(header)) <==>
            forall key :: CommitteeFree(history, Only(atts, key), HeadCheck(header))
  {
    CreditOrderFreeIff(history, atts, TargetCheck(roots));
    CreditOrderFreeIff(history, atts, HeadCheck(header));
  }

  /** A failing attestation and two passing ones share a vote, and the two that pass share another
      one past the end of the failing one. */
  ghost predicate Cancelling(atts: seq<Attestation>, short: Attestation, long: Attestation, v: Vote, w: Vote,
                             check: Attestation -> bool) {
    && atts == [short, long, long] && short.Committee() == long.Committee() && !check(short) && check(long)
    && VotesOf(short) == {v} && VotesOf(long) == {v, w} && |short.bits| <= w.bit
  }

  /** The two parts of the condition can cancel, so agreement alone is not it: with a passing one
      first both votes count once, with the failing one first only the second counts, but twice. */
  lemma DisagreementCanCancel(atts: seq<Attestation>, short: Attestation, long: Attestation, v: Vote, w: Vote,
                              check: Attestation -> bool)
    requires Cancelling(atts, short, long, v, w, check)
    ensures OrderFree({}, atts, check) && !CarriersAgree({}, atts, check)
  {
    assert short in atts && long in atts && v in VotesOf(short) && v in VotesOf(long);
    forall f <- atts
      ensures CarriersAgree(Settled({}, atts, f), atts, check)
      ensures FirstCredit({}, atts, f, check) == 2
    {
      CancellingSettled(atts, short, long, v, w, f, check);
      CancellingCredit(atts, short, long, v, w, f, check);
    }
    CancellingCommittee(atts, short, long, v, w, check);
    OneCommitteeOrderIff({}, atts, check, short.Committee());
  }

  lemma CancellingCommittee(atts: seq<Attestation>, short: Attestation, long: Attestation, v: Vote, w: Vote,
                            check: Attestation -> bool)
    requires Cancelling(atts, short, long, v, w, check)
    ensures OneCommittee(atts, short.Committee())
  {}

  lemma CancellingSettled(atts: seq<Attestation>, short: Attestation, long: Attestation, v: Vote, w: Vote,
                          f: Attestation, check: Attestation -> bool)
    requires Cancelling(atts, short, long, v, w, check) && f in atts
    ensures forall a <- atts :: VotesOf(a) <= Settled({}, atts, f)
    ensures CarriedBy(Settled({}, atts, f), atts, check, true) == {}
    ensures CarriersAgree(Settled({}, atts, f), atts, check)
  {
    BlockVotesMember(atts, w);
    assert w in VotesOf(atts[1]);
    assert v in Settled({}, atts, f) && w in Settled({}, atts, f);
    forall a <- atts ensures VotesOf(a) <= {v, w} {
      assert a == short || a == long;
    }
  }

  lemma CancellingCredit(atts: seq<Attestation>, short: Attestation, long: Attestation, v: Vote, w: Vote,
                         f: Attestation, check: Attestation -> bool)
    requires Cancelling(atts, short, long, v, w, check) && f in atts
    ensures OwnCredit({}, f, check) + Recounted({}, atts, |f.bits|, check) == 2
  {
    var n := |f.bits|;
    assert atts[1..] == [long, long] && [long, long][1..] == [long] && [long][1..] == [];
    assert Recounted({}, [long], n, check) == |Beyond({}, long, n)|;
    assert Recounted({}, atts, n, check) == 2 * |Beyond({}, long, n)|;
    if f == short {
      assert v.bit < |short.bits| && Beyond({}, long, n) == {w};
    } else {
      assert f == long && Beyond({}, long, n) == {};
      assert VotesOf(long) - {} == {v, w} && v != w by {
        assert v.bit < |short.bits|;
      }
    }
  }
}
