/** The committee cache over two epochs, against an oracle table of all committees. */
module EpochCache {
  import opened Wrappers
  import opened U64
  import opened Votes

  datatype BeaconCommittee = BeaconCommittee(slot: u64, index: u64, validators: seq<nat>)
  {
    function Place(): Key { Key(slot, index) }
  }

  /** The committee of every slot and index. */
  type Oracle = map<Key, seq<nat>>

  /** The two lists with the epochs they are filed under. */
  datatype Cache = Cache(current: seq<BeaconCommittee>, currentEpoch: u64,
                         previous: seq<BeaconCommittee>, previousEpoch: u64)

  function EpochOf(slot: u64): u64 { slot / 32 }

  /** What the node answers for an epoch: exactly the oracle's committees of that epoch. */
  ghost predicate Faithful(list: seq<BeaconCommittee>, epoch: u64, oracle: Oracle) {
    && FiledUnder(list, epoch, oracle)
    && forall key <- oracle | EpochOf(key.slot) == epoch :: exists k :: 0 <= k < |list| && list[k].Place() == key
  }

  ghost predicate FiledUnder(list: seq<BeaconCommittee>, epoch: u64, oracle: Oracle) {
    forall k | 0 <= k < |list| ::
      && EpochOf(list[k].slot) == epoch
      && list[k].Place() in oracle && oracle[list[k].Place()] == list[k].validators
  }

  /** A list is empty until it is loaded, and then it is the oracle's list of its epoch. */
  ghost predicate Consistent(c: Cache, oracle: Oracle) {
    && c.previousEpoch <= c.currentEpoch
    && (c.current == [] || Faithful(c.current, c.currentEpoch, oracle))
    && (c.previous == [] || (Faithful(c.previous, c.previousEpoch, oracle) && c.previousEpoch < c.currentEpoch))
  }

  function Rotated(c: Cache, slot: u64, data: seq<BeaconCommittee>): Cache {
    Cache(data, EpochOf(slot), c.current, c.currentEpoch)
  }

  /** The locked section: the cache rotates if a newer epoch is asked for and the node answers. */
  function AfterRequest(c: Cache, slot: u64, response: Option<seq<BeaconCommittee>>): Cache {
    if EpochOf(slot) > c.currentEpoch && response.Some? then Rotated(c, slot, response.value) else c
  }

  ghost predicate GoodResponse(slot: u64, response: Option<seq<BeaconCommittee>>, oracle: Oracle) {
    response.Some? ==> Faithful(response.value, EpochOf(slot), oracle)
  }

  /** What the cache should answer: the oracle's committee if the epoch is one of the two
      loaded ones. */
  ghost function Expected(c: Cache, key: Key, oracle: Oracle): Option<seq<nat>> {
    var epoch := EpochOf(key.slot);
    if key in oracle && ((epoch == c.currentEpoch && c.current != []) ||
                         (epoch == c.previousEpoch && c.previous != []))
    then Some(oracle[key]) else None
  }

  class EpochStructs {
    var currentBeaconCommittees: seq<BeaconCommittee>
    var currentEpoch: u64
    var previousBeaconCommittees: seq<BeaconCommittee>
    var previousEpoch: u64

    function State(): Cache
      reads this
    {
      Cache(currentBeaconCommittees, currentEpoch, previousBeaconCommittees, previousEpoch)
    }

    constructor (ghost oracle: Oracle)
      ensures State() == Cache([], 0, [], 0) && Consistent(State(), oracle)
    {
      currentBeaconCommittees, currentEpoch := [], 0;
      previousBeaconCommittees, previousEpoch := [], 0;
    }

    method RequestNewBeaconCommittee(slot: u64, response: Option<seq<BeaconCommittee>>) returns (ok: bool)
      modifies this
      ensures ok <==> response.Some?
      ensures State() == if ok then Rotated(old(State()), slot, response.value) else old(State())
    {
      if response.None? {
        return false;
      }
      previousBeaconCommittees := currentBeaconCommittees;
      previousEpoch := currentEpoch;
      currentBeaconCommittees := response.value;
      currentEpoch := slot / 32;
      return true;
    }

    /** Validators of one committee. With no other caller in between, the answer is the
        oracle's committee exactly when its epoch is one of the two loaded ones; the current
        epoch never moves back. */
    method GetBeaconCommittee(slot: u64, index: u64, response: Option<seq<BeaconCommittee>>, ghost oracle: Oracle)
      returns (validators: Option<seq<nat>>)
      requires Consistent(State(), oracle) && GoodResponse(slot, response, oracle)
      modifies this
      ensures State() == AfterRequest(old(State()), slot, response)
      ensures Consistent(State(), oracle) && old(currentEpoch) <= currentEpoch
      ensures validators == Expected(State(), Key(slot, index), oracle)
      ensures slot / 32 > old(currentEpoch) && response.Some? ==>
                && currentEpoch == slot / 32 && previousEpoch == old(currentEpoch)
                && validators == if Key(slot, index) in oracle then Some(oracle[Key(slot, index)]) else None
      ensures slot / 32 <= old(currentEpoch) || response.None? ==> State() == old(State())
    {
      if slot / 32 > currentEpoch {
        var _ := RequestNewBeaconCommittee(slot, response);
      }
      var committeeList := previousBeaconCommittees;
      if slot / 32 == currentEpoch {
        committeeList := currentBeaconCommittees;
      }
      validators := Find(committeeList, slot, index);
      LoadedListAnswers(committeeList, if slot / 32 == currentEpoch then currentEpoch else previousEpoch,
                        Key(slot, index), oracle, validators);
    }
  }

  /** First committee of the list for the slot and index. */
  method Find(list: seq<BeaconCommittee>, slot: u64, index: u64) returns (validators: Option<seq<nat>>)
    ensures validators == Lookup(list, Key(slot, index))
  {
    for k := 0 to |list|
      invariant forall j | 0 <= j < k :: list[j].Place() != Key(slot, index)
    {
      if list[k].slot == slot && list[k].index == index {
        LookupFirst(list, k);
        return Some(list[k].validators);
      }
    }
    LookupNone(list, Key(slot, index));
    return None;
  }

  function Lookup(list: seq<BeaconCommittee>, key: Key): Option<seq<nat>> {
    if list == [] then None
    else if list[0].Place() == key then Some(list[0].validators)
    else Lookup(list[1..], key)
  }

  lemma {:induction false} LookupFirst(list: seq<BeaconCommittee>, k: nat)
    requires k < |list| && forall j | 0 <= j < k :: list[j].Place() != list[k].Place()
    ensures Lookup(list, list[k].Place()) == Some(list[k].validators)
  {
    if k > 0 {
      LookupFirst(list[1..], k - 1);
    }
  }

  lemma {:induction false} LookupNone(list: seq<BeaconCommittee>, key: Key)
    requires forall j | 0 <= j < |list| :: list[j].Place() != key
    ensures Lookup(list, key) == None
  {
    if list == [] {
    } else {
      LookupNone(list[1..], key);
    }
  }

  lemma {:induction false} LookupInOracle(list: seq<BeaconCommittee>, epoch: u64, key: Key, oracle: Oracle)
    requires FiledUnder(list, epoch, oracle)
    ensures Lookup(list, key).Some? ==>
              EpochOf(key.slot) == epoch && key in oracle && Lookup(list, key).value == oracle[key]
    ensures Lookup(list, key).None? ==> forall k | 0 <= k < |list| :: list[k].Place() != key
  {
    if list == [] {
    } else {
      LookupInOracle(list[1..], epoch, key, oracle);
    }
  }

  lemma LoadedListAnswers(list: seq<BeaconCommittee>, epoch: u64, key: Key, oracle: Oracle, found: Option<seq<nat>>)
    requires list == [] || Faithful(list, epoch, oracle)
    requires found == Lookup(list, key)
    ensures found == if list != [] && key in oracle && EpochOf(key.slot) == epoch then Some(oracle[key]) else None
  {
    if list == [] {
    } else {
      LookupInOracle(list, epoch, key, oracle);
    }
  }

  /** After an answered request for a newer epoch the committees of that epoch are answered, those
      of the epoch that was current still are if they were loaded, and no others. */
  lemma NewerEpochIsLoaded(c: Cache, slot: u64, response: Option<seq<BeaconCommittee>>, key: Key, oracle: Oracle)
    requires Consistent(c, oracle) && GoodResponse(slot, response, oracle)
    requires slot / 32 > c.currentEpoch && response.Some? && key in oracle
    ensures var now := AfterRequest(c, slot, response);
            var epoch := key.slot / 32;
            && (epoch == slot / 32 ==> Expected(now, key, oracle) == Some(oracle[key]))
            && (epoch == c.currentEpoch ==>
                  Expected(now, key, oracle) == if c.current != [] then Some(oracle[key]) else None)
            && (epoch != slot / 32 && epoch != c.currentEpoch ==> Expected(now, key, oracle) == None)
  {}

  // ---------- Other callers in between ----------

  datatype Request = Request(slot: u64, response: Option<seq<BeaconCommittee>>)

  /** The cache after the locked sections of other callers. */
  function AfterOthers(c: Cache, others: seq<Request>): Cache {
    if others == [] then c
    else AfterRequest(AfterOthers(c, others[..|others| - 1]), others[|others| - 1].slot, others[|others| - 1].response)
  }

  lemma {:induction false} OthersKeepConsistent(c: Cache, others: seq<Request>, oracle: Oracle)
    requires Consistent(c, oracle)
    requires forall k | 0 <= k < |others| :: GoodResponse(others[k].slot, others[k].response, oracle)
    ensures Consistent(AfterOthers(c, others), oracle)
    ensures c.currentEpoch <= AfterOthers(c, others).currentEpoch
  {
    if others == [] {
    } else {
      OthersKeepConsistent(c, others[..|others| - 1], oracle);
    }
  }

  /** The current epoch is the newest one for which a request was answered. */
  lemma {:induction false} CurrentIsNewestAnswered(c: Cache, others: seq<Request>)
    ensures var current := AfterOthers(c, others).currentEpoch;
            && (forall k | 0 <= k < |others| && others[k].response.Some? :: others[k].slot / 32 <= current)
            && (current == c.currentEpoch ||
                exists k :: 0 <= k < |others| && others[k].response.Some? && others[k].slot / 32 == current)
            && c.currentEpoch <= current
  {
    if others == [] {
    } else {
      var n := |others| - 1;
      CurrentIsNewestAnswered(c, others[..n]);
      forall k | 0 <= k < n ensures others[..n][k] == others[k] {}
    }
  }

  /** The lists are read after the lock is given up. Even if the cache rotates any number of
      times before each of the three reads, an answer that is not nil is the oracle's. */
  lemma RacyAnswerIsOracles(c: Cache, before: seq<Request>, between: seq<Request>, after: seq<Request>,
                            key: Key, oracle: Oracle)
    requires Consistent(c, oracle)
    requires forall r <- before + between + after :: GoodResponse(r.slot, r.response, oracle)
    ensures var c1 := AfterOthers(c, before);
            var c2 := AfterOthers(c1, between);
            var c3 := AfterOthers(c2, after);
            var list := if EpochOf(key.slot) == c2.currentEpoch then c3.current else c1.previous;
            Lookup(list, key).Some? ==> key in oracle && Lookup(list, key).value == oracle[key]
  {
    forall k | 0 <= k < |before| ensures before[k] in before + between + after {}
    forall k | 0 <= k < |between| ensures between[k] in before + between + after {
      assert (before + between + after)[|before| + k] == between[k];
    }
    forall k | 0 <= k < |after| ensures after[k] in before + between + after {
      assert (before + between + after)[|before| + |between| + k] == after[k];
    }
    OthersKeepConsistent(c, before, oracle);
    var c1 := AfterOthers(c, before);
    OthersKeepConsistent(c1, between, oracle);
    var c2 := AfterOthers(c1, between);
    OthersKeepConsistent(c2, after, oracle);
    var c3 := AfterOthers(c2, after);
    if c3.current != [] {
      LookupInOracle(c3.current, c3.currentEpoch, key, oracle);
    }
    if c1.previous != [] {
      LookupInOracle(c1.previous, c1.previousEpoch, key, oracle);
    }
  }

  /** Epoch 0 is never requested: until a later epoch is asked for, its committees are nil,
      and they are never served at all. */
  lemma {:induction false} EpochZeroIsNeverServed(others: seq<Request>, key: Key, oracle: Oracle)
    requires EpochOf(key.slot) == 0
    requires forall k | 0 <= k < |others| :: GoodResponse(others[k].slot, others[k].response, oracle)
    ensures var c := AfterOthers(Cache([], 0, [], 0), others);
            && (c.currentEpoch == 0 ==> c.current == []) && (c.previousEpoch == 0 ==> c.previous == [])
            && Expected(c, key, oracle) == None
  {
    if others == [] {
    } else {
      EpochZeroIsNeverServed(others[..|others| - 1], key, oracle);
    }
  }
}
