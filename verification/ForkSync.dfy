/** Following a source chain that may fork (chain/chain/util.go, chain/chain/operation.go). */
module ForkSync {
  import opened Options
  import opened Powers
  import opened Ranges
  import opened Slots

  datatype Header = Found(slot: Slot) | Missing | Failed

  datatype Traced = Fork(at: nat) | TraceError

  ghost predicate BothFound(src: nat -> Header, dst: nat -> Header, n: nat) {
    src(n).Found? && dst(n).Found?
  }

  ghost predicate Differ(src: nat -> Header, dst: nat -> Header, n: nat) {
    BothFound(src, dst, n) && src(n).slot.hash != dst(n).slot.hash
  }

  /** Walks down from `position` to the leftmost slot with a different hash. */
  method TraceForkPoint(src: nat -> Header, dst: nat -> Header, position: nat) returns (r: Traced)
    ensures r.Fork? ==> r.at <= position + 1 && forall n: nat | r.at < n <= position :: Differ(src, dst, n)
    ensures r.Fork? && r.at <= position && BothFound(src, dst, r.at) ==>
        && Differ(src, dst, r.at)
        && (r.at == 0 || src(r.at).slot.parentHash == dst(r.at).slot.parentHash
            || (BothFound(src, dst, r.at - 1) && src(r.at - 1).slot.hash == dst(r.at - 1).slot.hash))
    ensures r.Fork? && r.at == position + 1 ==>
        BothFound(src, dst, position) && src(position).slot.hash == dst(position).slot.hash
    ensures r.TraceError? ==> exists n: nat | n <= position :: src(n).Failed? || dst(n).Failed?
  {
    var p := position;
    while true
      invariant 0 <= p <= position
      invariant forall n: nat | p < n <= position :: Differ(src, dst, n)
      decreases p
    {
      var db := dst(p);
      if db.Failed? {
        return TraceError;
      }
      var sb := src(p);
      if sb.Failed? {
        return TraceError;
      }
      if sb.Missing? || db.Missing? {
        return Fork(p);
      }
      if sb.slot.hash == db.slot.hash {
        return Fork(p + 1);
      }
      if p == 0 || sb.slot.parentHash == db.slot.parentHash {
        return Fork(p);
      }
      p := p - 1;
    }
  }

  /** Two hash-linked header chains with every header up to `position` available. */
  ghost predicate LinkedUpTo(parentOf: Hash -> Hash, h: nat -> Header, position: nat) {
    && (forall n: nat | n <= position :: h(n).Found? && Rooted(parentOf, h(n).slot))
    && (forall n: nat, m: nat | n < m <= position && m == n + 1 :: h(n).slot.hash == h(m).slot.parentHash)
  }

  ghost predicate SameUpTo(src: nat -> Header, dst: nat -> Header, n: nat) {
    forall k: nat | k <= n :: BothFound(src, dst, k) && src(k).slot.hash == dst(k).slot.hash
  }

  lemma {:induction false} SameBelow(parentOf: Hash -> Hash, src: nat -> Header, dst: nat -> Header,
                                     position: nat, p: nat)
    requires LinkedUpTo(parentOf, src, position) && LinkedUpTo(parentOf, dst, position) && p <= position
    requires src(p).slot.hash == dst(p).slot.hash
    ensures SameUpTo(src, dst, p)
  {
    if p > 0 {
      assert src(p - 1).slot.hash == src(p).slot.parentHash && dst(p - 1).slot.hash == dst(p).slot.parentHash;
      SameBelow(parentOf, src, dst, position, p - 1);
    }
  }

  /** On two linked chains the traced point is the fork: equal hashes below it, different ones
      from it up to where the trace began. */
  method TraceLinkedFork(src: nat -> Header, dst: nat -> Header, position: nat, ghost parentOf: Hash -> Hash)
    returns (fork: nat)
    requires LinkedUpTo(parentOf, src, position) && LinkedUpTo(parentOf, dst, position)
    ensures fork <= position + 1
    ensures forall n: nat | n < fork :: src(n).slot.hash == dst(n).slot.hash
    ensures forall n: nat | fork <= n <= position :: src(n).slot.hash != dst(n).slot.hash
  {
    var r := TraceForkPoint(src, dst, position);
    fork := r.at;
    if fork > 0 {
      if fork <= position {
        assert src(fork - 1).slot.hash == src(fork).slot.parentHash;
        assert dst(fork - 1).slot.hash == dst(fork).slot.parentHash;
      }
      SameBelow(parentOf, src, dst, position, fork - 1);
    }
    forall n: nat | fork <= n <= position
      ensures src(n).slot.hash != dst(n).slot.hash
    {
      assert BothFound(src, dst, n) && (n > fork ==> Differ(src, dst, n));
    }
  }

  datatype SaveOutcome = Saved | LinkMismatch | SaveFailed

  datatype RoundOutcome = Skipped | Synced | SyncFailed | RolledBack

  /** The source reaches beyond the record without a gap; an empty record is extended by any. */
  predicate Extends(record: Range, srcRange: Range)
    requires record.end.Fin? && srcRange.end.Fin?
  {
    record.IsEmpty() || (srcRange.start <= record.end.n + 1 && record.end.n < srcRange.end.n)
  }

  /** Where a record is to start that keeps `targetLen` slots, rounded down to the alignment; 0
      when nothing is to be cut. */
  function CutStart(cur: Range, targetLen: nat, align: nat): nat
    requires cur.end.Fin?
  {
    if targetLen == 0 || cur.Size() <= targetLen then 0
    else if align == 0 then cur.end.n + 1 - targetLen
    else (cur.end.n + 1 - targetLen) / align * align
  }

  /** The record without what lies below `start`. */
  function Trimmed(r: Range, start: nat): Range {
    if start == 0 then r else r.Remove(NewRange(0, start - 1)).First()
  }

  /** Trimming keeps exactly the numbers from `start` on. */
  lemma TrimmedHolds(r: Range, start: nat, n: nat)
    ensures Trimmed(r, start).Contains(n) <==> r.Contains(n) && n >= start
  {
  }

  /** The start leaves the target length, rounded up by less than the alignment, and is a multiple
      of it. */
  ghost predicate LeavesTarget(end: nat, targetLen: nat, align: nat, left: nat) {
    if align == 0 then left + targetLen == end + 1
    else left % align == 0 && left + targetLen <= end + 1 < left + targetLen + align
  }

  lemma MultipleHasNoRest(q: nat, a: nat)
    requires a > 0
    ensures q * a % a == 0
  {
    var x := q * a;
    var d, m := x / a, x % a;
    assert x == a * d + m && 0 <= m < a;
    assert (q - d) * a == m;
    Scaled(q - d, 1, a);
    Scaled(0, q - d, a);
  }

  lemma CutStartKeeps(cur: Range, targetLen: nat, align: nat)
    requires cur.end.Fin? && targetLen > 0 && cur.Size() > targetLen
    ensures LeavesTarget(cur.end.n, targetLen, align, CutStart(cur, targetLen, align))
  {
    if align > 0 {
      MultipleHasNoRest((cur.end.n + 1 - targetLen) / align, align);
    }
  }

  /** What a record that reached the source's end keeps: everything unless the length `measured`
      exceeds the target; then the target length, with less than the alignment more, unless it was
      shorter. */
  ghost predicate KeepsTarget(cover: Range, measured: nat, targetLen: nat, align: nat, r: Range)
    requires cover.end.Fin?
  {
    && !r.IsEmpty() && r.end == cover.end && r.start >= cover.start
    && if targetLen == 0 || measured <= targetLen then r == cover
       else
         && r.Size() >= Min(targetLen, cover.Size())
         && (align == 0 ==> r.Size() == Min(targetLen, cover.Size()))
         && (align > 0 ==> r.Size() < targetLen + align)
  }

  /** A round measures from the start the record had before it. That tells whether the copied record
      is longer than the target unless the record was empty: then too long a copy is not cut. */
  lemma MeasuredIff(record: Range, srcRange: Range, targetLen: nat)
    requires srcRange.end.Fin? && !srcRange.IsEmpty() && srcRange.end.n < MAX_UINT64
    requires record.end.Fin? && (record.IsEmpty() ==> record == EMPTY_RANGE)
    ensures
      var cover := if record.IsEmpty() then srcRange else Range(record.start, srcRange.end);
      var measured := Range(record.start, srcRange.end).Size();
      (measured > targetLen <==> cover.Size() > targetLen) <==> !record.IsEmpty() || srcRange.Size() <= targetLen
  {
  }

  lemma TrimmedKeepsTarget(cover: Range, cur: Range, targetLen: nat, align: nat)
    requires cover.end.Fin? && cur.end == cover.end && !cover.IsEmpty()
    ensures KeepsTarget(cover, cur.Size(), targetLen, align, Trimmed(cover, CutStart(cur, targetLen, align)))
  {
    if targetLen > 0 && cur.Size() > targetLen {
      CutStartKeeps(cur, targetLen, align);
      TrimmedFrom(cover, CutStart(cur, targetLen, align));
    }
  }

  lemma TrimmedFrom(r: Range, start: nat)
    requires r.end.Fin? && !r.IsEmpty() && start <= r.end.n
    ensures Trimmed(r, start) == Range(Max(r.start, start), r.end)
  {
  }

  class Destination {
    var record: Range
    var slots: map<nat, Slot>

    /** Every recorded number has its slot, and neighbours are linked. */
    ghost predicate Valid(parentOf: Hash -> Hash)
      reads this
    {
      && record.end.Fin?
      && (forall n: nat | record.Contains(n) :: n in slots && slots[n].number == n && Rooted(parentOf, slots[n]))
      && (forall n: nat, m: nat | record.Contains(n) && record.Contains(m) && m == n + 1 ::
            slots[n].hash == slots[m].parentHash)
    }

    ghost predicate AgreesWith(src: nat -> Slot)
      reads this
    {
      forall n: nat | record.Contains(n) :: n in slots && slots[n].hash == src(n).hash
    }

    /** Saves the tail `[start, end]` right of the record, link check at the joint included;
        `saved` slots get recorded before a failure strikes, if one does. */
    method SaveTail(src: nat -> Slot, start: nat, end: nat, saved: nat, ghost parentOf: Hash -> Hash)
      returns (out: SaveOutcome)
      requires Valid(parentOf) && Chain(true, parentOf, src) && start <= end
      requires record.IsEmpty() || start == record.end.n + 1
      modifies this
      ensures Valid(parentOf)
      ensures out == LinkMismatch ==>
          record == old(record) && slots == old(slots) && start > 0 && !record.IsEmpty() && !AgreesWith(src)
      ensures out == Saved ==> AgreesWith(src) && record == old(record).Cover(NewRange(start, end))
      ensures out == SaveFailed ==>
          && saved < end + 1 - start && (saved == 0 ==> record == old(record))
          && (saved > 0 ==> AgreesWith(src) && record == old(record).Cover(NewRange(start, start + saved - 1)))
      ensures old(AgreesWith(src)) ==> AgreesWith(src) && out != LinkMismatch
    {
      if start > 0 && record.Contains(start - 1) {
        assert src(start - 1).hash == src(start).parentHash;
        if CheckLinkMismatch(Some(slots[start - 1]), Some(src(start))) {
          return LinkMismatch;
        }
        AgreesBelow(this, src, parentOf, start - 1);
      }
      var count := if saved < end + 1 - start then saved else end + 1 - start;
      if count > 0 {
        Append(src, start, count, parentOf);
      }
      out := if count == end + 1 - start then Saved else SaveFailed;
    }

    method Append(src: nat -> Slot, start: nat, count: nat, ghost parentOf: Hash -> Hash)
      requires Valid(parentOf) && Chain(true, parentOf, src) && count > 0
      requires record.IsEmpty() || (start == record.end.n + 1 && AgreesWith(src))
      modifies this
      ensures Valid(parentOf) && AgreesWith(src)
      ensures record == old(record).Cover(NewRange(start, start + count - 1))
    {
      ghost var was := record;
      slots := slots + map n: nat | start <= n < start + count :: src(n);
      record := record.Cover(NewRange(start, start + count - 1));
      forall n: nat | record.Contains(n)
        ensures n in slots && slots[n].number == n && Rooted(parentOf, slots[n]) && slots[n].hash == src(n).hash
      {
        assert was.Contains(n) || start <= n < start + count;
      }
      forall n: nat, m: nat | record.Contains(n) && record.Contains(m) && m == n + 1
        ensures slots[n].hash == slots[m].parentHash
      {
        assert slots[n].hash == src(n).hash && src(n).hash == src(m).parentHash && slots[m].hash == src(m).hash;
      }
    }

    /** Shrinks the record first, then erases; the erasing may stop half way. */
    method Delete(target: Range, erased: set<nat>, ghost parentOf: Hash -> Hash)
      requires Valid(parentOf)
      modifies this
      ensures Valid(parentOf) && record == old(record).Remove(target).First()
      ensures forall src: nat -> Slot :: old(AgreesWith(src)) ==> AgreesWith(src)
      ensures forall n: nat | record.Contains(n) ::
          old(record).Contains(n) && !target.Contains(n) && slots[n] == old(slots)[n]
    {
      record := record.Remove(target).First();
      slots := map n | n in slots && !(n in erased && target.Contains(n)) :: slots[n];
    }

    /** One round of synchronisation. What is still recorded after a copy that went through, or
        after a fork was cut off, agrees with the source; a cut removes exactly the slots off
        the source's chain, so the next round links up. */
    method Round(src: nat -> Slot, srcRange: Range, saved: nat, targetLen: nat, align: nat,
                 deleteFails: bool, erased: set<nat>, ghost parentOf: Hash -> Hash) returns (out: RoundOutcome)
      requires Valid(parentOf) && Chain(true, parentOf, src) && srcRange.end.Fin?
      modifies this
      ensures Valid(parentOf)
      ensures out == Synced || out == RolledBack ==> AgreesWith(src)
      ensures out == Synced ==>
          var cover := if old(record).IsEmpty() then srcRange else Range(old(record).start, srcRange.end);
          var measured := Range(old(record).start, srcRange.end).Size();
          KeepsTarget(cover, measured, if deleteFails then 0 else targetLen, align, record)
      ensures out == Skipped <==> srcRange.IsEmpty() || !Extends(old(record), srcRange)
      ensures out == Skipped ==> record == old(record) && slots == old(slots)
      ensures out == SyncFailed && !deleteFails ==>
          saved < if old(record).IsEmpty() then srcRange.Size() else srcRange.end.n - old(record).end.n
      ensures out == SyncFailed ==> forall n: nat | old(record).Contains(n) :: record.Contains(n)
      ensures out == RolledBack ==> forall n: nat | old(record).Contains(n) ::
          record.Contains(n) <==> old(slots)[n].hash == src(n).hash
      ensures old(AgreesWith(src)) ==> AgreesWith(src) && out != RolledBack
    {
      if srcRange.IsEmpty() {
        return Skipped;
      }
      var start: nat;
      if record.IsEmpty() {
        start := srcRange.start;
      } else if record.GetDistance(srcRange) > 0 || srcRange.end.n <= record.end.n {
        return Skipped;
      } else {
        start := SyncStart(srcRange, record);
      }
      var curRange := Range(record.start, srcRange.end);
      var end := srcRange.end.n;
      var res := SaveTail(src, start, end, saved, parentOf);
      if res == Saved {
        TrimmedKeepsTarget(record, curRange, if deleteFails then 0 else targetLen, align);
        ghost var left := CutHead(curRange, targetLen, align, deleteFails, erased, parentOf);
        return Synced;
      }
      if res == SaveFailed {
        return SyncFailed;
      }
      out := RollBack(src, start - 1, deleteFails, erased, parentOf);
    }

    /** Trims the head of the record to the target length, aligned. */
    method CutHead(curRange: Range, targetLen: nat, align: nat, deleteFails: bool, erased: set<nat>,
                   ghost parentOf: Hash -> Hash) returns (ghost left: nat)
      requires Valid(parentOf) && curRange.end.Fin?
      modifies this
      ensures Valid(parentOf)
      ensures record == if deleteFails then old(record) else Trimmed(old(record), CutStart(curRange, targetLen, align))
      ensures deleteFails || targetLen == 0 || curRange.Size() <= targetLen ==> record == old(record)
      ensures !deleteFails && 0 < targetLen < curRange.Size() ==>
          && LeavesTarget(curRange.end.n, targetLen, align, left)
          && forall n: nat :: record.Contains(n) <==> old(record).Contains(n) && left <= n
      ensures forall src: nat -> Slot :: old(AgreesWith(src)) ==> AgreesWith(src)
    {
      left := 0;
      if targetLen > 0 && curRange.Size() > targetLen {
        var targetLeft := curRange.end.n + 1 - targetLen;
        if align > 0 {
          targetLeft := targetLeft / align * align;
        }
        left := targetLeft;
        assert left == CutStart(curRange, targetLen, align);
        CutStartKeeps(curRange, targetLen, align);
        if targetLeft == 0 || deleteFails {
          return;
        }
        Delete(NewRange(0, targetLeft - 1), erased, parentOf);
      }
    }

    /** Traces where the record stops agreeing with the source. */
    method FindFork(src: nat -> Slot, position: nat, ghost parentOf: Hash -> Hash) returns (traced: Traced)
      requires Valid(parentOf) && Chain(true, parentOf, src)
      requires !record.IsEmpty() && position == record.end.n
      ensures traced.Fork? && traced.at <= position + 1
      ensures forall n: nat | record.Contains(n) :: n < traced.at <==> slots[n].hash == src(n).hash
    {
      var had := slots;
      var srcHeader := (n: nat) => Found(src(n));
      var dstHeader := (n: nat) => if n in had then Found(had[n]) else Missing;
      traced := TraceForkPoint(srcHeader, dstHeader, position);
      forall n: nat | traced.at < n && record.Contains(n)
        ensures slots[n].hash != src(n).hash
      {
        assert Differ(srcHeader, dstHeader, n);
      }
      ForkIsExact(this, src, parentOf, traced.at);
    }

    /** Finds the fork at or below the end of the record and cuts it off. */
    method RollBack(src: nat -> Slot, position: nat, deleteFails: bool, erased: set<nat>, ghost parentOf: Hash -> Hash)
      returns (out: RoundOutcome)
      requires Valid(parentOf) && Chain(true, parentOf, src)
      requires !record.IsEmpty() && position == record.end.n
      modifies this
      ensures Valid(parentOf)
      ensures out == SyncFailed ==> record == old(record) && slots == old(slots)
      ensures out == if deleteFails then SyncFailed else RolledBack
      ensures out == RolledBack ==> AgreesWith(src) && forall n: nat | old(record).Contains(n) ::
          record.Contains(n) <==> old(slots)[n].hash == src(n).hash
    {
      var traced := FindFork(src, position, parentOf);
      if deleteFails {
        return SyncFailed;
      }
      Delete(Range(traced.at, Inf), erased, parentOf);
      out := RolledBack;
    }
  }

  /** Right of the record the source's range starts where the record ends. */
  method SyncStart(srcRange: Range, record: Range) returns (start: nat)
    requires srcRange.end.Fin? && record.end.Fin? && !srcRange.IsEmpty() && !record.IsEmpty()
    requires record.GetDistance(srcRange) == 0 && srcRange.end.n > record.end.n
    ensures start == record.end.n + 1
  {
    start := srcRange.Remove(record).Last().start;
  }

  /** The traced point splits the record into the part that agrees and the part that does not. */
  lemma ForkIsExact(d: Destination, src: nat -> Slot, parentOf: Hash -> Hash, f: nat)
    requires d.Valid(parentOf) && Chain(true, parentOf, src) && !d.record.IsEmpty() && f <= d.record.end.n + 1
    requires forall n: nat | f < n && d.record.Contains(n) :: d.slots[n].hash != src(n).hash
    requires d.record.Contains(f) ==>
               && d.slots[f].hash != src(f).hash
               && (f == 0 || src(f).parentHash == d.slots[f].parentHash
                   || (f - 1 in d.slots && src(f - 1).hash == d.slots[f - 1].hash))
    requires f == d.record.end.n + 1 ==> src(f - 1).hash == d.slots[f - 1].hash
    ensures forall n: nat | d.record.Contains(n) :: n < f <==> d.slots[n].hash == src(n).hash
  {
    if f > 0 && d.record.Contains(f - 1) {
      if d.record.Contains(f) {
        assert d.slots[f - 1].hash == d.slots[f].parentHash && src(f - 1).hash == src(f).parentHash;
      }
      AgreesBelow(d, src, parentOf, f - 1);
    }
  }

  lemma {:induction false} AgreesBelow(d: Destination, src: nat -> Slot, parentOf: Hash -> Hash, p: nat)
    requires d.Valid(parentOf) && Chain(true, parentOf, src) && d.record.Contains(p) && d.slots[p].hash == src(p).hash
    ensures forall n: nat | d.record.Contains(n) && n <= p :: d.slots[n].hash == src(n).hash
    decreases p
  {
    if p > d.record.start {
      assert d.record.Contains(p - 1);
      assert src(p - 1).hash == src(p).parentHash;
      AgreesBelow(d, src, parentOf, p - 1);
    }
  }
}
