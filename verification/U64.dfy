/** Unsigned 64-bit slots and epochs, with the wrap-around of the original's `uint64`,
    and the two pruning windows written in that arithmetic. */
module U64 {

  const TWO64: int := 0x1_0000_0000_0000_0000
  const SLOTS_PER_EPOCH: int := 32
  const VOTE_WINDOW: int := 32
  const ROOT_WINDOW: int := 64

  type u64 = x: int | 0 <= x < 0x1_0000_0000_0000_0000

  function Add(a: u64, b: u64): u64 {
    if a + b < TWO64 then a + b else a + b - TWO64
  }

  function Sub(a: u64, b: u64): u64 {
    if b <= a then a - b else a - b + TWO64
  }

  /** An entry of the attestation history survives the prune of a proposal at `slot`. */
  predicate VoteKept(entry: u64, slot: u64) {
    !(Add(entry, VOTE_WINDOW) < slot)
  }

  /** An entry of the block root history survives the prune of a proposal at `slot`. */
  predicate RootKept(entry: u64, slot: u64) {
    !(Add(entry, ROOT_WINDOW) < slot)
  }

  /** The arithmetic is that of the integers modulo 2^64. */
  lemma AddSubMeaning(a: u64, b: u64)
    ensures Add(a, b) == (a + b) % TWO64 && Sub(a, b) == (a - b) % TWO64
  {}

  /** In integers: `slot` is at most `d` slots after `from`; where that sum leaves the range it has
      wrapped. */
  ghost predicate UpTo(slot: u64, from: u64, d: nat) {
    if from + d < TWO64 then slot <= from + d else slot <= from + d - TWO64
  }

  /** An entry is kept up to 32 slots after its own, and a root up to 64. */
  lemma WindowsMeaning(entry: u64, slot: u64)
    ensures VoteKept(entry, slot) <==> UpTo(slot, entry, 32)
    ensures entry < TWO64 - 32 ==> (VoteKept(entry, slot) <==> slot <= entry + 32)
    ensures entry >= TWO64 - 32 ==> (VoteKept(entry, slot) <==> slot <= entry + 32 - TWO64)
    ensures RootKept(entry, slot) <==> UpTo(slot, entry, 64)
    ensures entry < TWO64 - 64 ==> (RootKept(entry, slot) <==> slot <= entry + 64)
    ensures entry >= TWO64 - 64 ==> (RootKept(entry, slot) <==> slot <= entry + 64 - TWO64)
  {}

  function FirstSlotOfEpoch(slot: u64): u64 {
    slot / SLOTS_PER_EPOCH * SLOTS_PER_EPOCH
  }

  /** Attestation slots whose epoch starts 64 slots below the top of the `uint64` range. */
  predicate EpochStartWraps(slot: u64) {
    TWO64 - 64 <= slot < TWO64 - 32
  }

  /** Whatever the vote window keeps, the root window keeps the start of its epoch: true
      except for the one epoch whose start plus 64 wraps to zero. */
  lemma RootWindowCoversVoteWindow(attSlot: u64, slot: u64)
    requires VoteKept(attSlot, slot)
    ensures RootKept(FirstSlotOfEpoch(attSlot), slot) <==> (!EpochStartWraps(attSlot) || slot == 0)
    ensures attSlot <= slot <= attSlot + 32 ==> slot - FirstSlotOfEpoch(attSlot) <= 63
  {
    var first := FirstSlotOfEpoch(attSlot);
    assert attSlot - 31 <= first <= attSlot;
    if EpochStartWraps(attSlot) {
      assert first == TWO64 - 64;
    } else if attSlot >= TWO64 - 32 {
      assert first == TWO64 - 32;
    }
  }
}
