/** Intervals of slot numbers and sets of them (common/range).

    A `Range` is `[start, end]` with both ends included; an absent end is infinite.
    A `RangeSet` is one covering range plus an ascending list of holes. */
module Ranges {

  const MAX_UINT64: nat := 0xFFFF_FFFF_FFFF_FFFF

  datatype Bound = Fin(n: nat) | Inf

  predicate Less(a: Bound, b: Bound) {
    a.Fin? && (b.Inf? || a.n < b.n)
  }

  predicate LessEq(a: Bound, b: Bound) {
    if a.Inf? then b.Inf? else b.Inf? || a.n <= b.n
  }

  function MinBound(a: Bound, b: Bound): Bound {
    if Less(a, b) then a else b
  }

  function MaxBound(a: Bound, b: Bound): Bound {
    if Less(a, b) then b else a
  }

  function Max(a: nat, b: nat): nat { if a < b then b else a }

  function Min(a: nat, b: nat): nat { if a < b then a else b }

  const EMPTY_RANGE := Range(MAX_UINT64, Fin(0))

  /** The zero value of the Go struct: every number from 0 on. */
  const ZERO_RANGE := Range(0, Inf)

  const EMPTY_RANGE_SET := RangeSet(EMPTY_RANGE, [])

  datatype Range = Range(start: nat, end: Bound) {

    predicate IsEmpty() { end.Fin? && end.n < start }

    predicate Contains(n: nat) {
      !IsEmpty() && start <= n && LessEq(Fin(n), end)
    }

    /** The numbers held, for a range with an end. */
    ghost function Elements(): (s: set<nat>)
      requires end.Fin?
      ensures forall n: nat :: n in s <==> Contains(n)
    {
      set n: nat | n <= end.n && Contains(n)
    }

    predicate Include(a: Range) {
      if a.IsEmpty() then true
      else !IsEmpty() && start <= a.start && LessEq(a.end, end)
    }

    predicate Equal(a: Range) { Include(a) && a.Include(this) }

    function Size(): nat
      requires end.Fin?
    {
      if IsEmpty() then 0 else end.n - start + 1
    }

    function GetDistance(a: Range): (d: nat)
      ensures d > 0 ==> forall n: nat | Contains(n) ::
                !a.Contains(n) && !a.Contains(n + 1) && (n > 0 ==> !a.Contains(n - 1))
    {
      if IsEmpty() || a.IsEmpty() then 0
      else if end.Fin? && end.n + 1 < a.start then a.start - end.n - 1
      else if a.end.Fin? && a.end.n + 1 < start then start - a.end.n - 1
      else 0
    }

    function MoveLeftBorder(x: nat): (r: Range) {
      if start >= x then Range(start - x, end) else Range(0, end)
    }

    function Intersection(a: Range): (r: Range)
      ensures forall n: nat :: r.Contains(n) <==> Contains(n) && a.Contains(n)
    {
      if a.IsEmpty() || IsEmpty() then EMPTY_RANGE
      else Range(Max(start, a.start), MinBound(end, a.end))
    }

    function Remove(a: Range): (rs: RangeSet)
      ensures rs.Valid()
      ensures forall n: nat :: rs.Contains(n) <==> Contains(n) && !a.Contains(n)
    {
      if IsEmpty() then EMPTY_RANGE_SET
      else if a.IsEmpty() then RangeSet(this, [])
      else if a.start <= start then
        if Less(a.end, Fin(start)) then RangeSet(this, [])
        else if Less(a.end, end) then RangeSet(Range(a.end.n + 1, end), [])
        else EMPTY_RANGE_SET
      else if Less(end, Fin(a.start)) then RangeSet(this, [])
      else if Less(a.end, end) then
        var rs := RangeSet(this, [Hole(a.start, a.end.n)]);
        assert forall n: nat :: InHoles(rs.holes, n) <==> a.Contains(n) by { OneHole(rs.holes[0]); }
        rs
      else RangeSet(Range(start, Fin(a.start - 1)), [])
    }

    /** The least range that includes both. */
    function Cover(a: Range): (r: Range)
      ensures r.Include(this) && r.Include(a)
      ensures forall x: Range :: x.Include(this) && x.Include(a) ==> x.Include(r)
    {
      if IsEmpty() then a
      else if a.IsEmpty() then this
      else Range(Min(start, a.start), MaxBound(end, a.end))
    }
  }

  /** The distance of two ranges counts the numbers between them, from either side. */
  lemma DistanceIsGap(r: Range, a: Range, gap: Range)
    requires !r.IsEmpty() && !a.IsEmpty() && r.end.Fin? && r.end.n < a.start && gap.end.Fin?
    requires forall n: nat :: gap.Contains(n) <==> r.end.n < n < a.start
    ensures r.GetDistance(a) == a.GetDistance(r) == gap.Size()
  {
    assert gap.Contains(r.end.n + 1) <==> r.end.n + 1 < a.start;
    if !gap.IsEmpty() {
      assert gap.Contains(gap.start) && gap.Contains(gap.end.n);
      assert gap.Contains(a.start - 1) && !gap.Contains(a.start);
    }
  }

  /** `Equal` is equality of members, and `Include` is the subset order. */
  lemma IncludeIsSubset(r: Range, a: Range)
    ensures r.Include(a) <==> forall n: nat | a.Contains(n) :: r.Contains(n)
  {
    if !r.Include(a) {
      var outside := if a.end.Inf? then (if r.end.Inf? then a.start else Max(a.start, r.end.n + 1)) else
                     if r.IsEmpty() || a.start < r.start then a.start else a.end.n;
      assert a.Contains(outside) && !r.Contains(outside);
    }
  }

  function NewSingleRange(n: nat): Range { Range(n, Fin(n)) }

  function NewRange(s: nat, e: nat): Range { Range(s, Fin(e)) }

  function NewRangeByEndAndSize(end: nat, size: nat): (r: Range)
    ensures r.end.Fin? && r.Size() == Min(size, end + 1)
    ensures size > 0 ==> r.end == Fin(end)
  {
    if size == 0 then EMPTY_RANGE
    else if end + 1 < size then Range(0, Fin(end))
    else Range(end + 1 - size, Fin(end))
  }

  datatype Hole = Hole(lo: nat, hi: nat)

  ghost predicate InHoles(hs: seq<Hole>, n: nat) {
    exists i | 0 <= i < |hs| :: hs[i].lo <= n <= hs[i].hi
  }

  lemma OneHole(h: Hole)
    ensures forall n: nat :: InHoles([h], n) <==> h.lo <= n <= h.hi
  {
    forall n: nat | h.lo <= n <= h.hi
      ensures InHoles([h], n)
    {
      assert [h][0].lo <= n <= [h][0].hi;
    }
  }

  /** Ascending, and separated by at least one number. */
  ghost predicate Ascending(hs: seq<Hole>) {
    && (forall i | 0 <= i < |hs| :: hs[i].lo <= hs[i].hi)
    && (forall i, j | 0 <= i < j < |hs| :: hs[i].hi + 1 < hs[j].lo)
  }

  datatype RangeSet = RangeSet(range: Range, holes: seq<Hole>) {

    predicate IsEmpty() { range.IsEmpty() }

    /** Holes lie strictly inside the covering range. */
    ghost predicate Valid() {
      && Ascending(holes)
      && (forall i | 0 <= i < |holes| :: range.start < holes[i].lo && Less(Fin(holes[i].hi), range.end))
    }

    ghost predicate Contains(n: nat) {
      range.Contains(n) && !InHoles(holes, n)
    }

    function First(): (r: Range)
      requires Valid()
      ensures forall n: nat | r.Contains(n) :: Contains(n)
      ensures forall n: nat | Contains(n) :: !r.IsEmpty() && r.start <= n
      ensures r.end.Fin? && !r.IsEmpty() ==> !Contains(r.end.n + 1)
    {
      if IsEmpty() then EMPTY_RANGE
      else if holes == [] then range
      else Range(range.start, Fin(holes[0].lo - 1))
    }

    function Last(): (r: Range)
      requires Valid()
      ensures forall n: nat | r.Contains(n) :: Contains(n)
      ensures forall n: nat | Contains(n) :: !r.IsEmpty() && LessEq(Fin(n), r.end)
      ensures !r.IsEmpty() && r.start > 0 ==> !Contains(r.start - 1)
    {
      if IsEmpty() then EMPTY_RANGE
      else if holes == [] then range
      else
        assert holes[|holes| - 1].hi + 1 > 0;
        Range(holes[|holes| - 1].hi + 1, range.end)
    }
  }
}
