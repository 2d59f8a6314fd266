/** Finding the first block a node holds state for, by probing (chain/evm/client.go,
    chain/evm/node_utils.go). Block numbers are 64-bit and wrap around. */
module StateSearch {
  import opened Options
  import opened Powers
  import opened Ranges

  const TWO_63: nat := 0x8000_0000_0000_0000
  const TWO_64: nat := 0x1_0000_0000_0000_0000
  const NO_STATE_LIMIT: nat := 10000

  /** A node as probes see it: where state is missing, and where a probe fails for good. */
  datatype Node = Node(missing: nat -> bool, fails: nat -> bool)

  /** Where state is missing, it is missing below too. */
  ghost predicate DownwardClosed(node: Node, latest: nat) {
    forall m, n | 0 <= m <= n <= latest && node.missing(n) :: node.missing(m)
  }

  datatype Probe = Failed | Has | Misses

  function CheckMissState(node: Node, bn: nat): Probe {
    if node.fails(bn) then Failed else if node.missing(bn) then Misses else Has
  }

  // -------------------------------------------------------------------------- the samples

  function Doubled(step: nat): nat { (step * 2) % TWO_64 }

  /** The step after `k` doublings. */
  function StepAfter(k: nat): nat { if k == 0 then 1 else Doubled(StepAfter(k - 1)) }

  lemma Pow2Of63()
    ensures Pow2(63) == TWO_63
  {
    assert Pow2(8) == 256;
    assert Pow2(16) == 65536;
    assert Pow2(24) == 0x100_0000;
    assert Pow2(32) == 0x1_0000_0000;
    assert Pow2(40) == 0x100_0000_0000;
    assert Pow2(48) == 0x1_0000_0000_0000;
    assert Pow2(56) == 0x100_0000_0000_0000;
  }

  lemma {:induction false} StepIsPow2(k: nat)
    ensures StepAfter(k) == if k < 64 then Pow2(k) else 0
  {
    if k > 0 {
      StepIsPow2(k - 1);
      Pow2Of63();
      if k < 64 { Pow2Grows(k, 63); }
    }
  }

  /** The doubling ends exactly when the latest block is at most 2^63; above it the step wraps
      to zero and stays there. */
  lemma DoublingEndsIff(latest: nat)
    ensures (exists k :: StepAfter(k) >= latest) <==> latest <= TWO_63
  {
    Pow2Of63();
    StepIsPow2(63);
    if latest <= TWO_63 {
      assert StepAfter(63) >= latest;
    }
    forall k: nat ensures StepAfter(k) <= TWO_63 {
      StepIsPow2(k);
      if k < 64 { Pow2Grows(k, 63); }
    }
  }

  /** The `k`-th block that is sampled: the latest, then ever twice as far below it, then 0. */
  function Sample(latest: nat, k: nat): (bn: nat)
    ensures bn <= latest
  {
    if k == 0 then latest else if Pow2(k - 1) < latest then latest - Pow2(k - 1) else 0
  }

  /** All samples before the `k`-th have state. */
  ghost predicate HaveState(node: Node, latest: nat, k: nat) {
    forall i: nat | i < k :: CheckMissState(node, Sample(latest, i)).Has?
  }

  /** Finds the first sample that misses state or whose probe fails; without one all have state,
      the latest block and block 0 among them. */
  method GetMissStateBlock(node: Node, latest: nat) returns (r: Probe, missBlock: nat)
    requires latest <= TWO_63
    ensures !r.Has? ==> exists k: nat :: HaveState(node, latest, k) && CheckMissState(node, Sample(latest, k)) == r
                                      && (r.Misses? ==> missBlock == Sample(latest, k))
    ensures r.Has? ==> forall k: nat :: CheckMissState(node, Sample(latest, k)).Has?
    ensures r.Has? ==> CheckMissState(node, latest).Has? && CheckMissState(node, 0).Has?
    ensures node.fails(latest) ==> r.Failed?
  {
    var samples: seq<nat> := [latest];
    var step: nat := 1;
    ghost var n: nat := 0;
    while step < latest
      invariant step == Pow2(n) && |samples| == n + 1
      invariant forall i: nat | i <= n :: samples[i] == Sample(latest, i)
      decreases latest - step
    {
      samples := samples + [latest - step];
      step := Doubled(step);
      n := n + 1;
    }
    samples := samples + [0];
    for i := 0 to |samples|
      invariant HaveState(node, latest, i)
      invariant i > 0 ==> !node.fails(latest)
    {
      r := CheckMissState(node, samples[i]);
      assert samples[i] == Sample(latest, i);
      if r.Failed? {
        return r, 0;
      }
      if r.Misses? {
        return r, samples[i];
      }
    }
    forall k: nat ensures CheckMissState(node, Sample(latest, k)).Has? {
      if k >= |samples| { Pow2Grows(n, k - 1); }
      assert CheckMissState(node, Sample(latest, n + 1)).Has?;
    }
    assert Sample(latest, 0) == latest && Sample(latest, n + 1) == 0;
    return Has, 0;
  }

  // -------------------------------------------------------------------- the binary search

  function Midpoint(i: nat, j: nat): nat { ((i + j + 1) % TWO_64) / 2 }

  /** The midpoint lies in `(i, j]` for all block numbers up to `latest` exactly when `latest` is
      below 2^63; from there on the sum can wrap. */
  lemma MidpointInsideIff(latest: nat)
    requires 0 < latest <= MAX_UINT64
    ensures (forall i: nat, j: nat | i < j <= latest :: i < Midpoint(i, j) <= j) <==> latest < TWO_63
  {
    if latest >= TWO_63 {
      assert 0 <= latest - 1 < latest;
      assert Midpoint(latest - 1, latest) == latest - TWO_63;
    }
  }

  /** State is missing up to `top` and nowhere above. */
  ghost predicate MissesUpTo(node: Node, latest: nat, top: nat) {
    top <= latest && forall n: nat | n <= latest :: node.missing(n) <==> n <= top
  }

  /** The blocks up to `latest` that have state. */
  ghost function WithState(node: Node, latest: nat): set<nat> {
    set n: nat | n <= latest && !node.missing(n)
  }

  lemma {:induction false} StateCount(node: Node, latest: nat, top: nat)
    requires MissesUpTo(node, latest, top)
    ensures |WithState(node, latest)| == latest - top
  {
    if latest == top {
      assert WithState(node, latest) == {};
    } else {
      StateCount(node, latest - 1, top);
      assert WithState(node, latest) == WithState(node, latest - 1) + {latest};
    }
  }

  /** The first block with state; 0 exactly when none misses it, the maximum exactly when fewer
      than 10000 blocks have it. A failing probe is the only way to give no answer. */
  method DetectStateDataFrom(node: Node, latest: nat) returns (from: Option<nat>)
    requires latest < TWO_63 && DownwardClosed(node, latest)
    ensures from.None? ==> exists n: nat :: n <= latest && node.fails(n)
    ensures node.fails(latest) ==> from.None?
    ensures from.Some? ==> (from.value == 0 <==> forall n | 0 <= n <= latest :: !node.missing(n))
    ensures from.Some? ==> (from.value == MAX_UINT64 <==>
                            node.missing(0) && |WithState(node, latest)| < 10000)
    ensures from.Some? && from.value != MAX_UINT64 ==>
              from.value <= latest && forall n | 0 <= n <= latest :: node.missing(n) <==> n < from.value
  {
    var r, missBlock := GetMissStateBlock(node, latest);
    if r.Failed? {
      return None;
    }
    if r.Has? {
      assert forall n | 0 <= n <= latest :: !node.missing(n);
      return Some(0);
    }
    var i: nat, j: nat := missBlock, latest;
    while i < j
      invariant i <= j <= latest && node.missing(i)
      invariant forall n | j < n <= latest :: !node.missing(n)
      decreases j - i
    {
      var m := Midpoint(i, j);
      var probe := CheckMissState(node, m);
      if probe.Failed? {
        return None;
      }
      if probe.Misses? {
        i := m;
      } else {
        j := m - 1;
      }
    }
    assert MissesUpTo(node, latest, i);
    StateCount(node, latest, i);
    if latest - i < NO_STATE_LIMIT {
      return Some(MAX_UINT64);
    }
    return Some(i + 1);
  }
}
