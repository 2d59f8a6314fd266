/** Chain slots and the link between neighbours (chain/chain/slot.go). */
module Slots {
  import opened Options

  datatype Hash = Hash(text: string)

  /** `features` is non-empty for a slot that was stored incomplete. */
  datatype Slot = Slot(number: nat, hash: Hash, parentHash: Hash, features: seq<string>)

  predicate CheckLinkMismatch(left: Option<Slot>, right: Option<Slot>) {
    left.Some? && right.Some? &&
    left.value.number + 1 == right.value.number && left.value.hash != right.value.parentHash
  }

  /** Consecutive numbers, each slot naming the hash of the one before. */
  ghost predicate Linked(slots: seq<Slot>) {
    forall i, j | 0 <= i < j < |slots| && j == i + 1 ::
      slots[i].number + 1 == slots[j].number && slots[i].hash == slots[j].parentHash
  }

  method CheckLinksMismatch(slots: seq<Slot>) returns (mismatch: bool)
    ensures !mismatch <==> Linked(slots)
  {
    var i := 1;
    while i < |slots|
      invariant 0 < i && (|slots| > 0 ==> i <= |slots| && Linked(slots[..i]))
    {
      if slots[i - 1].number + 1 != slots[i].number || slots[i - 1].hash != slots[i].parentHash {
        return true;
      }
      assert slots[..i + 1] == slots[..i] + [slots[i]];
      i := i + 1;
    }
    assert |slots| > 0 ==> slots[..i] == slots;
    return false;
  }

  /** A pair of slots mismatches exactly when they are neighbours and not linked. */
  lemma LinkMismatchIff(left: Option<Slot>, right: Option<Slot>)
    ensures CheckLinkMismatch(left, right) <==>
              && left.Some? && right.Some? && left.value.number + 1 == right.value.number
              && !Linked([left.value, right.value])
  {
    if left.Some? && right.Some? {
      var pair := [left.value, right.value];
      assert Linked(pair) <==> pair[0].number + 1 == pair[1].number && pair[0].hash == pair[1].parentHash;
    }
  }

  /** A hash commits to the parent hash: `parentOf` recovers it. */
  ghost predicate Rooted(parentOf: Hash -> Hash, s: Slot) {
    s.parentHash == parentOf(s.hash)
  }

  /** One chain with a slot for every number, hash-linked if its slot type is. */
  ghost predicate Chain(linked: bool, parentOf: Hash -> Hash, src: nat -> Slot) {
    && (forall n: nat :: src(n).number == n)
    && (linked ==> forall n: nat :: Rooted(parentOf, src(n)))
    && (linked ==> forall n: nat, m: nat | m == n + 1 :: src(n).hash == src(m).parentHash)
  }
}
