/** Bitlists as heap objects, and the nested slot -> committee -> bitlist map in which both
    the vote history and the scorer's per-block record are kept. */
module Bitlists {
  import opened U64
  import opened Votes

  /** A fixed-length bit array, updated in place. The ghost field names the one place of a
      nested map that may hold it, so no two places share a bitlist. */
  class Bitlist {
    ghost const home: Key
    var bits: seq<bool>

    constructor (n: nat, ghost home: Key)
      ensures this.home == home
      ensures bits == seq(n, _ => false)
    {
      this.home := home;
      bits := seq(n, _ => false);
    }

    function BitAt(i: nat): bool
      reads this`bits
    {
      i < |bits| && bits[i]
    }

    /** Setting a bit past the end does nothing. */
    method SetBitAt(i: nat, value: bool)
      modifies this
      ensures bits == if i < |old(bits)| then old(bits)[i := value] else old(bits)
    {
      if i < |bits| {
        bits := bits[i := value];
      }
    }
  }

  ghost predicate Ascending(indices: seq<nat>) {
    forall i, j | 0 <= i < j < |indices| :: indices[i] < indices[j]
  }

  /** Positions of the set bits, in ascending order. */
  method BitIndices(bits: seq<bool>) returns (indices: seq<nat>)
    ensures Ascending(indices)
    ensures forall i :: i in indices <==> 0 <= i < |bits| && bits[i]
  {
    indices := [];
    for n := 0 to |bits|
      invariant Ascending(indices)
      invariant forall k | 0 <= k < |indices| :: indices[k] < n
      invariant forall i :: i in indices <==> 0 <= i < n && bits[i]
    {
      if bits[n] {
        indices := indices + [n];
      }
    }
  }

  /** The votes a list of bit positions stands for. */
  function VotesAt(key: Key, indices: seq<nat>): set<Vote> {
    set i | i in indices :: Vote(key, i)
  }

  lemma VotesAtNext(key: Key, indices: seq<nat>, j: nat)
    requires Ascending(indices) && j < |indices|
    ensures VotesAt(key, indices[..j + 1]) == VotesAt(key, indices[..j]) + {Vote(key, indices[j])}
    ensures Vote(key, indices[j]) !in VotesAt(key, indices[..j])
  {
    assert indices[..j + 1] == indices[..j] + [indices[j]];
  }

  // ---------- The nested map ----------

  type BitMap = map<u64, map<u64, Bitlist>>

  predicate Holds(m: BitMap, key: Key) {
    key.slot in m && key.index in m[key.slot]
  }

  function At(m: BitMap, key: Key): Bitlist
    requires Holds(m, key)
  {
    m[key.slot][key.index]
  }

  ghost function Objects(m: BitMap): set<Bitlist> {
    set s, c | s in m && c in m[s] :: m[s][c]
  }

  /** Looking up an absent bitlist gives the nil bitlist, none of whose bits are set. */
  predicate VoteIn(m: BitMap, v: Vote)
    reads (if Holds(m, v.key) then {At(m, v.key)} else {})`bits
  {
    Holds(m, v.key) && At(m, v.key).BitAt(v.bit)
  }

  /** The nested map holds exactly `h`, each bitlist in its own place. */
  ghost predicate Represents(m: BitMap, h: Hist)
    reads Objects(m)`bits
  {
    && (forall key: Key :: Holds(m, key) <==> key in h.lens)
    && (forall key <- h.lens :: At(m, key).home == key && |At(m, key).bits| == h.lens[key])
    && (forall v: Vote :: VoteIn(m, v) <==> v in h.votes)
  }

  /** Makes sure there is a bitlist for the attestation, sized by it if it is a new one. */
  method EnsureBitlist(m: BitMap, a: Attestation, ghost h: Hist) returns (m': BitMap, ghost h': Hist)
    requires Represents(m, h)
    ensures h' == Hist(Sized(h.lens, a), h.votes)
    ensures Represents(m', h') && Holds(m', a.Committee())
    ensures fresh(Objects(m') - Objects(m))
  {
    m' := m;
    if a.slot !in m' {
      m' := m'[a.slot := map[]];
    }
    if a.index !in m'[a.slot] {
      var b := new Bitlist(|a.bits|, a.Committee());
      var committees: map<u64, Bitlist> := m'[a.slot];
      committees := committees[a.index := b];
      m' := m'[a.slot := committees];
    }
    h' := Hist(Sized(h.lens, a), h.votes);
    forall key: Key ensures Holds(m', key) <==> key in h'.lens {
      assert Holds(m, key) <==> key in h.lens;
    }
    forall v: Vote ensures VoteIn(m', v) <==> v in h'.votes {
      assert VoteIn(m, v) <==> v in h.votes;
    }
  }

  /** Sets one bit of the nested map. */
  method Record(m: BitMap, key: Key, i: nat, ghost h: Hist) returns (ghost h': Hist)
    requires Represents(m, h) && Holds(m, key)
    modifies At(m, key)
    ensures h' == Hist(h.lens, if i < h.lens[key] then h.votes + {Vote(key, i)} else h.votes)
    ensures Represents(m, h')
  {
    var b := At(m, key);
    h' := Hist(h.lens, if i < h.lens[key] then h.votes + {Vote(key, i)} else h.votes);
    assert At(m, key).home == key;
    b.SetBitAt(i, true);
    forall v: Vote ensures VoteIn(m, v) <==> v in h'.votes {
      assert old(VoteIn(m, v)) <==> v in h.votes;
      if Holds(m, v.key) && v.key != key {
        assert At(m, v.key).home == v.key;
      }
    }
  }

  /** `h` after the votes at `indices` are registered, except those in `past`. */
  function Registered(h: Hist, key: Key, indices: seq<nat>, past: set<Vote>): Hist
    requires key in h.lens
  {
    Hist(h.lens, h.votes + set v | v in VotesAt(key, indices) && v !in past && v.bit < h.lens[key])
  }

  /** Votes at `indices` that neither `past` nor `h` has. */
  function Unseen(h: Hist, key: Key, indices: seq<nat>, past: set<Vote>): set<Vote> {
    VotesAt(key, indices) - past - h.votes
  }

  lemma RegisteredNext(h: Hist, key: Key, indices: seq<nat>, past: set<Vote>, j: nat)
    requires key in h.lens && Ascending(indices) && j < |indices|
    ensures var now, next := Registered(h, key, indices[..j], past), Registered(h, key, indices[..j + 1], past);
            var v := Vote(key, indices[j]);
            next == if v in past || v in now.votes || v.bit >= h.lens[key] then now else Hist(h.lens, now.votes + {v})
  {
    VotesAtNext(key, indices, j);
    var v := Vote(key, indices[j]);
    var now, next := Registered(h, key, indices[..j], past), Registered(h, key, indices[..j + 1], past);
    assert next.votes == now.votes + if v in past || v.bit >= h.lens[key] then {} else {v};
  }

  lemma UnseenNext(h: Hist, key: Key, indices: seq<nat>, past: set<Vote>, j: nat)
    requires key in h.lens && Ascending(indices) && j < |indices|
    ensures var v := Vote(key, indices[j]);
            && (v in Registered(h, key, indices[..j], past).votes <==> v in h.votes)
            && |Unseen(h, key, indices[..j + 1], past)| ==
               |Unseen(h, key, indices[..j], past)| + if v in past || v in h.votes then 0 else 1
  {
    VotesAtNext(key, indices, j);
    var v := Vote(key, indices[j]);
    var before, after := Unseen(h, key, indices[..j], past), Unseen(h, key, indices[..j + 1], past);
    assert after == if v in past || v in h.votes then before else before + {v};
  }

  lemma NothingRegistered(h: Hist, key: Key, past: set<Vote>)
    requires key in h.lens
    ensures Registered(h, key, [], past) == h && Unseen(h, key, [], past) == {}
  {}

  /** Registers the votes of one attestation, skipping those already registered. */
  method RecordVotes(m: BitMap, key: Key, indices: seq<nat>, ghost h: Hist) returns (ghost h': Hist)
    requires Represents(m, h) && Holds(m, key) && Ascending(indices)
    modifies At(m, key)
    ensures h' == Registered(h, key, indices, {})
    ensures Represents(m, h')
  {
    h' := h;
    NothingRegistered(h, key, {});
    assert indices[..0] == [];
    for j := 0 to |indices|
      invariant h' == Registered(h, key, indices[..j], {})
      invariant Represents(m, h')
    {
      RegisteredNext(h, key, indices, {}, j);
      assert VoteIn(m, Vote(key, indices[j])) <==> Vote(key, indices[j]) in h'.votes;
      if At(m, key).BitAt(indices[j]) {
        continue;
      }
      h' := Record(m, key, indices[j], h');
    }
    assert indices[..|indices|] == indices;
  }

  /** Looks one vote up in both maps and registers it in the second if neither has it. */
  method CountOne(history: BitMap, attested: BitMap, key: Key, i: nat, ghost past: Hist, ghost h: Hist)
    returns (isNew: bool, ghost h': Hist)
    requires Represents(history, past) && Represents(attested, h)
    requires Holds(attested, key) && At(attested, key) !in Objects(history)
    modifies At(attested, key)
    ensures isNew <==> Vote(key, i) !in past.votes && Vote(key, i) !in h.votes
    ensures h' == if isNew && i < h.lens[key] then Hist(h.lens, h.votes + {Vote(key, i)}) else h
    ensures Represents(attested, h') && Represents(history, past)
  {
    assert VoteIn(history, Vote(key, i)) <==> Vote(key, i) in past.votes;
    assert VoteIn(attested, Vote(key, i)) <==> Vote(key, i) in h.votes;
    if VoteIn(history, Vote(key, i)) {
      return false, h;
    }
    if At(attested, key).BitAt(i) {
      return false, h;
    }
    isNew := true;
    h' := Record(attested, key, i, h);
  }

  /** After `j` of the indices, `n` votes were new and the second map holds `now`. */
  ghost predicate CountedUpTo(h: Hist, key: Key, indices: seq<nat>, past: set<Vote>, j: nat, n: nat, now: Hist)
    requires key in h.lens && j <= |indices|
  {
    n == |Unseen(h, key, indices[..j], past)| && now == Registered(h, key, indices[..j], past)
  }

  lemma CountedNone(h: Hist, key: Key, indices: seq<nat>, past: set<Vote>)
    requires key in h.lens
    ensures CountedUpTo(h, key, indices, past, 0, 0, h)
  {
    assert indices[..0] == [];
    NothingRegistered(h, key, past);
  }

  lemma CountedNext(h: Hist, key: Key, indices: seq<nat>, past: set<Vote>, j: nat, n: nat, now: Hist)
    requires key in h.lens && j < |indices| && Ascending(indices)
    requires CountedUpTo(h, key, indices, past, j, n, now)
    ensures var v := Vote(key, indices[j]);
            var isNew := v !in past && v !in now.votes;
            CountedUpTo(h, key, indices, past, j + 1, if isNew then n + 1 else n,
                        if isNew && v.bit < h.lens[key] then Hist(h.lens, now.votes + {v}) else now)
  {
    RegisteredNext(h, key, indices, past, j);
    UnseenNext(h, key, indices, past, j);
  }

  /** Counts the votes of one attestation that are in neither map, and registers them in the
      second one. */
  method CountNewVotes(history: BitMap, attested: BitMap, key: Key, indices: seq<nat>,
                       ghost past: Hist, ghost h: Hist)
    returns (newVotes: nat, ghost h': Hist)
    requires Represents(history, past) && Represents(attested, h)
    requires Holds(attested, key) && At(attested, key) !in Objects(history)
    requires Ascending(indices)
    modifies At(attested, key)
    ensures newVotes == |Unseen(h, key, indices, past.votes)|
    ensures h' == Registered(h, key, indices, past.votes)
    ensures Represents(attested, h') && Represents(history, past)
  {
    newVotes, h' := 0, h;
    CountedNone(h, key, indices, past.votes);
    for j := 0 to |indices|
      invariant CountedUpTo(h, key, indices, past.votes, j, newVotes, h')
      invariant Represents(attested, h') && Represents(history, past)
    {
      CountedNext(h, key, indices, past.votes, j, newVotes, h');
      var isNew;
      isNew, h' := CountOne(history, attested, key, indices[j], past, h');
      if isNew {
        newVotes := newVotes + 1;
      }
    }
    assert indices[..|indices|] == indices;
  }

  lemma IndicesAreVotes(a: Attestation, indices: seq<nat>)
    requires forall i :: i in indices <==> 0 <= i < |a.bits| && a.bits[i]
    ensures VotesAt(a.Committee(), indices) == VotesOf(a)
  {}

  lemma RegisteredIsAbsorbed(h: Hist, a: Attestation, indices: seq<nat>)
    requires forall i :: i in indices <==> 0 <= i < |a.bits| && a.bits[i]
    ensures Registered(Hist(Sized(h.lens, a), h.votes), a.Committee(), indices, {}) == AbsorbOne(h, a)
  {
    IndicesAreVotes(a, indices);
  }

  /** Folds one attestation into the nested map. */
  method AbsorbInto(m: BitMap, a: Attestation, ghost h: Hist) returns (m': BitMap, ghost h': Hist)
    requires Represents(m, h)
    modifies Objects(m)
    ensures h' == AbsorbOne(h, a) && Represents(m', h')
    ensures fresh(Objects(m') - Objects(m))
  {
    m', h' := EnsureBitlist(m, a, h);
    var indices := BitIndices(a.bits);
    assert At(m', a.Committee()) in Objects(m');
    h' := RecordVotes(m', a.Committee(), indices, h');
    RegisteredIsAbsorbed(h, a, indices);
  }

  /** Folds a list of attestations into the nested map. */
  method AbsorbAll(m: BitMap, atts: seq<Attestation>, ghost h: Hist) returns (m': BitMap, ghost h': Hist)
    requires Represents(m, h)
    modifies Objects(m)
    ensures h' == Absorb(h, atts) && Represents(m', h')
    ensures fresh(Objects(m') - Objects(m))
  {
    m', h' := m, h;
    for k := 0 to |atts|
      invariant Represents(m', h') && fresh(Objects(m') - Objects(m))
      invariant h' == Absorb(h, atts[..k])
    {
      AbsorbNext(h, atts, k);
      m', h' := AbsorbInto(m', atts[k], h');
    }
    assert atts[..|atts|] == atts;
  }

  lemma AbsorbNext(h: Hist, atts: seq<Attestation>, k: nat)
    requires k < |atts|
    ensures Absorb(h, atts[..k + 1]) == AbsorbOne(Absorb(h, atts[..k]), atts[k])
  {
    assert atts[..k + 1][..k] == atts[..k];
  }

  /** What the scorer's bitlists hold, if they would hold `block` without the history. */
  function Without(block: Hist, past: set<Vote>): Hist {
    Hist(block.lens, block.votes - past)
  }

  lemma ScoredIsAbsorbed(block: Hist, a: Attestation, indices: seq<nat>, past: set<Vote>)
    requires forall i :: i in indices <==> 0 <= i < |a.bits| && a.bits[i]
    ensures var sized := Hist(Sized(block.lens, a), block.votes - past);
            && Unseen(sized, a.Committee(), indices, past) == VotesOf(a) - past - block.votes
            && Registered(sized, a.Committee(), indices, past) == Without(AbsorbOne(block, a), past)
  {
    IndicesAreVotes(a, indices);
  }

  /** Counts the new votes of one attestation: those in neither the history nor the block's own
      bitlists, which then hold them. */
  method ScoreInto(history: BitMap, attested: BitMap, a: Attestation, ghost past: Hist, ghost block: Hist)
    returns (newVotes: nat, attested': BitMap)
    requires Represents(history, past) && Represents(attested, Without(block, past.votes))
    requires Objects(attested) !! Objects(history)
    modifies Objects(attested)
    ensures newVotes == |VotesOf(a) - past.votes - block.votes|
    ensures Represents(attested', Without(AbsorbOne(block, a), past.votes))
    ensures fresh(Objects(attested') - Objects(attested)) && Represents(history, past)
  {
    ghost var seen;
    attested', seen := EnsureBitlist(attested, a, Without(block, past.votes));
    var indices := BitIndices(a.bits);
    ScoredIsAbsorbed(block, a, indices, past.votes);
    assert At(attested', a.Committee()) in Objects(attested');
    newVotes, seen := CountNewVotes(history, attested', a.Committee(), indices, past, seen);
  }
}
