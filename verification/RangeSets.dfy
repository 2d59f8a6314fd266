/** Operations on sets of slot numbers kept as a covering range with holes
    (common/range/set.go), each proved to be the operation on the numbers it holds and to
    keep the holes in canonical form. */
module RangeSets {
  import opened Ranges

  /** The i-th piece between holes. */
  ghost function PieceAt(rs: RangeSet, i: nat): Range
    requires rs.Valid() && i <= |rs.holes|
  {
    Range(if i == 0 then rs.range.start else rs.holes[i - 1].hi + 1,
          if i < |rs.holes| then Fin(rs.holes[i].lo - 1) else rs.range.end)
  }

  ghost function Pieces(rs: RangeSet): (ps: seq<Range>)
    requires rs.Valid()
  {
    if rs.IsEmpty() then [] else seq(|rs.holes| + 1, i requires 0 <= i <= |rs.holes| => PieceAt(rs, i))
  }

  /** Non-empty, ascending, and no two adjacent. */
  ghost predicate Separated(ps: seq<Range>) {
    && (forall i | 0 <= i < |ps| :: !ps[i].IsEmpty())
    && (forall i, j | 0 <= i < j < |ps| :: ps[i].end.Fin? && ps[i].end.n + 1 < ps[j].start)
  }

  ghost predicate InRanges(ps: seq<Range>, n: nat) {
    exists i | 0 <= i < |ps| :: ps[i].Contains(n)
  }

  /** The pieces are the maximal runs of the set. */
  lemma PiecesAreRuns(rs: RangeSet)
    requires rs.Valid()
    ensures Separated(Pieces(rs))
    ensures forall n: nat :: rs.Contains(n) <==> InRanges(Pieces(rs), n)
  {
    PiecesSeparated(rs);
    forall n: nat
      ensures rs.Contains(n) <==> InRanges(Pieces(rs), n)
    {
      if rs.Contains(n) {
        var i := PieceOf(rs, n, |rs.holes|);
        assert Pieces(rs)[i].Contains(n);
      }
      if InRanges(Pieces(rs), n) {
        var i :| 0 <= i < |Pieces(rs)| && Pieces(rs)[i].Contains(n);
        PieceInside(rs, i, n);
      }
    }
  }

  lemma PiecesSeparated(rs: RangeSet)
    requires rs.Valid()
    ensures Separated(Pieces(rs))
  {
    var ps := Pieces(rs);
    forall i, j | 0 <= i < j < |ps|
      ensures ps[i].end.Fin? && ps[i].end.n + 1 < ps[j].start
    {
      assert rs.holes[i].lo <= rs.holes[j - 1].lo;
    }
  }

  lemma PieceInside(rs: RangeSet, i: nat, n: nat)
    requires rs.Valid() && i <= |rs.holes| && !rs.IsEmpty() && PieceAt(rs, i).Contains(n)
    ensures rs.Contains(n)
  {
    forall k | 0 <= k < |rs.holes|
      ensures !(rs.holes[k].lo <= n <= rs.holes[k].hi)
    {
      if k < i {
        assert rs.holes[k].hi <= rs.holes[i - 1].hi;
      } else {
        assert rs.holes[i].lo <= rs.holes[k].lo;
      }
    }
  }

  /** Finds the piece holding `n`, among those left of hole `k`. */
  lemma {:induction false} PieceOf(rs: RangeSet, n: nat, k: nat) returns (i: nat)
    requires rs.Valid() && rs.Contains(n) && k <= |rs.holes|
    requires k < |rs.holes| ==> n < rs.holes[k].lo
    ensures i <= |rs.holes| && PieceAt(rs, i).Contains(n)
  {
    if k == 0 || rs.holes[k - 1].hi < n {
      i := k;
    } else {
      assert n < rs.holes[k - 1].lo;
      i := PieceOf(rs, n, k - 1);
    }
  }

  lemma PastEndIsOutside(ps: seq<Range>, i: nat)
    requires Separated(ps) && i < |ps| && ps[i].end.Fin?
    ensures !InRanges(ps, ps[i].end.n + 1)
  {
    forall k | 0 <= k < |ps|
      ensures !ps[k].Contains(ps[i].end.n + 1)
    {
      if k < i {
        assert ps[k].end.n + 1 < ps[i].start;
      }
    }
  }

  lemma BeforeStartIsOutside(ps: seq<Range>, i: nat)
    requires Separated(ps) && i < |ps|
    ensures ps[i].start > 0 ==> !InRanges(ps, ps[i].start - 1)
  {
    if ps[i].start > 0 {
      forall k | 0 <= k < |ps|
        ensures !ps[k].Contains(ps[i].start - 1)
      {
        if k > i {
          assert ps[i].end.n + 1 < ps[k].start;
        }
      }
    }
  }

  /** Of a separated list, the numbers below the start of the `k`-th range are those of the ranges
      before it. */
  lemma BelowStart(ps: seq<Range>, k: nat, n: nat)
    requires Separated(ps) && k < |ps|
    ensures InRanges(ps, n) && n < ps[k].start <==> InRanges(ps[..k], n)
  {
    assert forall j | k <= j < |ps| :: ps[k].start <= ps[j].start;
    if InRanges(ps, n) && n < ps[k].start {
      var i :| 0 <= i < |ps| && ps[i].Contains(n);
      assert ps[..k][i].Contains(n);
    }
    if InRanges(ps[..k], n) {
      var i :| 0 <= i < k && ps[..k][i].Contains(n);
      assert ps[i].Contains(n) && ps[i].end.n + 1 < ps[k].start;
    }
  }

  method GetRanges(rs: RangeSet) returns (result: seq<Range>)
    requires rs.Valid()
    ensures result == Pieces(rs)
    ensures Separated(result)
    ensures forall n: nat :: rs.Contains(n) <==> InRanges(result, n)
  {
    PiecesAreRuns(rs);
    if rs.IsEmpty() {
      return [];
    }
    result := [];
    var start := rs.range.start;
    for k := 0 to |rs.holes|
      invariant |result| == k && result == Pieces(rs)[..k]
      invariant start == PieceAt(rs, k).start
    {
      result := result + [Range(start, Fin(rs.holes[k].lo - 1))];
      start := rs.holes[k].hi + 1;
    }
    result := result + [Range(start, rs.range.end)];
  }

  lemma LastPiece(rs: RangeSet)
    requires rs.Valid()
    ensures rs.IsEmpty() <==> Pieces(rs) == []
    ensures !rs.IsEmpty() ==> rs.Last() == Pieces(rs)[|Pieces(rs)| - 1]
    ensures rs.range.end.Fin? ==> forall p | p in Pieces(rs) :: p.end.Fin?
  {
  }

  /** Finds the run that includes `r`; without one the zero range `[0, INF)` comes back. */
  method FindContains(rs: RangeSet, r: Range) returns (res: Range, found: bool)
    requires rs.Valid()
    ensures found ==> res in Pieces(rs) && res.Include(r)
    ensures !found ==> res == ZERO_RANGE && forall p | p in Pieces(rs) :: !p.Include(r)
  {
    LastPiece(rs);
    if r.end.Inf? && rs.range.end.Fin? {
      return ZERO_RANGE, false;
    }
    var ranges := GetRanges(rs);
    if r.end.Inf? {
      var last := rs.Last();
      assert last == ranges[|ranges| - 1];
      if last.Include(r) {
        return last, true;
      }
      return ZERO_RANGE, false;
    }
    res, found := FirstIncluding(ranges, r);
  }

  method FirstIncluding(ranges: seq<Range>, r: Range) returns (res: Range, found: bool)
    requires Separated(ranges) && r.end.Fin?
    ensures found ==> res in ranges && res.Include(r)
    ensures !found ==> res == ZERO_RANGE && forall p | p in ranges :: !p.Include(r)
  {
    for k := 0 to |ranges|
      invariant forall i | 0 <= i < k :: !ranges[i].Include(r)
    {
      if ranges[k].Include(r) {
        return ranges[k], true;
      }
      if r.end.n < ranges[k].start {
        assert forall i | k < i < |ranges| :: ranges[k].start < ranges[i].start;
        return ZERO_RANGE, false;
      }
    }
    return ZERO_RANGE, false;
  }

  lemma HolesConcat(a: seq<Hole>, b: seq<Hole>, n: nat)
    ensures InHoles(a + b, n) <==> InHoles(a, n) || InHoles(b, n)
  {
    var c := a + b;
    if InHoles(a, n) {
      var i :| 0 <= i < |a| && a[i].lo <= n <= a[i].hi;
      assert c[i] == a[i];
    }
    if InHoles(b, n) {
      var i :| 0 <= i < |b| && b[i].lo <= n <= b[i].hi;
      assert c[|a| + i] == b[i];
    }
  }

  lemma HolesConcatAll(a: seq<Hole>, b: seq<Hole>)
    ensures forall n: nat :: InHoles(a + b, n) <==> InHoles(a, n) || InHoles(b, n)
  {
    forall n: nat { HolesConcat(a, b, n); }
  }

  lemma GapRight(rs: RangeSet, a: Range, gap: Hole)
    requires rs.Valid() && !rs.IsEmpty() && !a.IsEmpty() && rs.range.end.Fin? && rs.range.end.n + 1 < a.start
    requires gap == Hole(rs.range.end.n + 1, a.start - 1)
    ensures var u := RangeSet(Range(rs.range.start, a.end), rs.holes + [gap]);
      u.Valid() && forall n: nat :: u.Contains(n) <==> rs.Contains(n) || a.Contains(n)
  {
    HolesConcatAll(rs.holes, [gap]);
    OneHole(gap);
  }

  lemma GapLeft(rs: RangeSet, a: Range, gap: Hole)
    requires rs.Valid() && !rs.IsEmpty() && !a.IsEmpty() && a.end.Fin? && a.end.n + 1 < rs.range.start
    requires gap == Hole(a.end.n + 1, rs.range.start - 1)
    ensures var u := RangeSet(Range(a.start, rs.range.end), [gap] + rs.holes);
      u.Valid() && forall n: nat :: u.Contains(n) <==> rs.Contains(n) || a.Contains(n)
  {
    HolesConcatAll([gap], rs.holes);
    OneHole(gap);
  }

  /** Adding a range is set union. */
  method Union(rs: RangeSet, a: Range) returns (result: RangeSet)
    requires rs.Valid()
    ensures result.Valid()
    ensures forall n: nat :: result.Contains(n) <==> rs.Contains(n) || a.Contains(n)
  {
    if a.IsEmpty() {
      return rs;
    }
    if rs.IsEmpty() {
      return RangeSet(a, []);
    }
    if Less(rs.range.end, Fin(a.start)) {
      if rs.range.end.n + 1 == a.start {
        return RangeSet(Range(rs.range.start, a.end), rs.holes);
      }
      var gap := Hole(rs.range.end.n + 1, a.start - 1);
      GapRight(rs, a, gap);
      return RangeSet(Range(rs.range.start, a.end), rs.holes + [gap]);
    }
    if Less(a.end, Fin(rs.range.start)) {
      if a.end.n + 1 == rs.range.start {
        return RangeSet(Range(a.start, rs.range.end), rs.holes);
      }
      var gap := Hole(a.end.n + 1, rs.range.start - 1);
      GapLeft(rs, a, gap);
      return RangeSet(Range(a.start, rs.range.end), [gap] + rs.holes);
    }
    var hs := UnionHoles(rs, a);
    result := RangeSet(a.Cover(rs.range), hs);
  }

  /** `hs` are the first `i` holes of `rs` with `a` filled in. */
  ghost predicate Filled(rs: RangeSet, a: Range, hs: seq<Hole>, i: nat)
    requires i <= |rs.holes|
  {
    && Ascending(hs)
    && (forall k | 0 <= k < |hs| :: rs.range.start < hs[k].lo && Less(Fin(hs[k].hi), rs.range.end))
    && (forall k, j | 0 <= k < |hs| && i <= j < |rs.holes| :: hs[k].hi + 1 < rs.holes[j].lo)
    && (forall n: nat :: InHoles(hs, n) <==> InHoles(rs.holes[..i], n) && !a.Contains(n))
  }

  lemma NextHole(rs: RangeSet, i: nat)
    requires i < |rs.holes|
    ensures forall n: nat :: InHoles(rs.holes[..i + 1], n) <==>
              InHoles(rs.holes[..i], n) || rs.holes[i].lo <= n <= rs.holes[i].hi
  {
    assert rs.holes[..i + 1] == rs.holes[..i] + [rs.holes[i]];
    HolesConcatAll(rs.holes[..i], [rs.holes[i]]);
    OneHole(rs.holes[i]);
  }

  /** Filling `a` into a hole fills it whole, splits it, or leaves one piece. */
  lemma HoleRemains(h: Hole, a: Range)
    requires h.lo <= h.hi && !a.IsEmpty()
    ensures var remain := Range(h.lo, Fin(h.hi)).Remove(a);
      if remain.IsEmpty() then forall n: nat | h.lo <= n <= h.hi :: a.Contains(n)
      else if |remain.holes| == 1 then
        && h.lo < a.start && a.end.Fin? && a.end.n < h.hi && remain.holes[0] == Hole(a.start, a.end.n)
      else
        && remain.range.end.Fin? && remain.range.start <= remain.range.end.n
        && forall n: nat :: remain.range.start <= n <= remain.range.end.n <==> h.lo <= n <= h.hi && !a.Contains(n)
  {
  }

  lemma FillWhole(rs: RangeSet, a: Range, hs: seq<Hole>, i: nat)
    requires rs.Valid() && i < |rs.holes| && Filled(rs, a, hs, i)
    requires forall n: nat | rs.holes[i].lo <= n <= rs.holes[i].hi :: a.Contains(n)
    ensures Filled(rs, a, hs, i + 1)
  {
    NextHole(rs, i);
  }

  lemma FillPart(rs: RangeSet, a: Range, hs: seq<Hole>, i: nat, piece: Hole)
    requires rs.Valid() && i < |rs.holes| && Filled(rs, a, hs, i)
    requires piece.lo <= piece.hi
    requires forall n: nat :: piece.lo <= n <= piece.hi <==> rs.holes[i].lo <= n <= rs.holes[i].hi && !a.Contains(n)
    ensures Filled(rs, a, hs + [piece], i + 1)
  {
    NextHole(rs, i);
    assert !a.Contains(piece.lo) && !a.Contains(piece.hi);
    assert rs.holes[i].lo <= piece.lo && piece.hi <= rs.holes[i].hi;
    HolesConcatAll(hs, [piece]);
    OneHole(piece);
  }

  /** The holes that stay when `a`, which meets or touches the covering range, is added. */
  method UnionHoles(rs: RangeSet, a: Range) returns (hs: seq<Hole>)
    requires rs.Valid() && !a.IsEmpty()
    ensures Filled(rs, a, hs, |rs.holes|)
    ensures forall n: nat :: InHoles(hs, n) <==> InHoles(rs.holes, n) && !a.Contains(n)
  {
    hs := [];
    var i := 0;
    while i < |rs.holes|
      invariant 0 <= i <= |rs.holes| && Filled(rs, a, hs, i)
    {
      var h := rs.holes[i];
      var remain := Range(h.lo, Fin(h.hi)).Remove(a);
      HoleRemains(h, a);
      if remain.IsEmpty() {
        FillWhole(rs, a, hs, i);
      } else if |remain.holes| == 1 {
        var left, right := Hole(h.lo, remain.holes[0].lo - 1), Hole(remain.holes[0].hi + 1, h.hi);
        SplitHole(rs, a, hs, i, left, right);
        hs := hs + [left, right] + rs.holes[i + 1..];
        assert rs.holes[..|rs.holes|] == rs.holes;
        return;
      } else {
        var piece := Hole(remain.range.start, remain.range.end.n);
        FillPart(rs, a, hs, i, piece);
        hs := hs + [piece];
      }
      i := i + 1;
    }
    assert rs.holes[..i] == rs.holes;
  }

  /** `a` lies inside hole `i`: it splits in two and the later holes stay. */
  lemma SplitHole(rs: RangeSet, a: Range, hs: seq<Hole>, i: nat, left: Hole, right: Hole)
    requires rs.Valid() && i < |rs.holes| && Filled(rs, a, hs, i) && !a.IsEmpty()
    requires rs.holes[i].lo < a.start && a.end.Fin? && a.end.n < rs.holes[i].hi
    requires left == Hole(rs.holes[i].lo, a.start - 1) && right == Hole(a.end.n + 1, rs.holes[i].hi)
    ensures Filled(rs, a, hs + [left, right] + rs.holes[i + 1..], |rs.holes|)
  {
    var rest := rs.holes[i + 1..];
    var out := hs + [left, right] + rest;
    assert rs.holes[..|rs.holes|] == rs.holes == rs.holes[..i + 1] + rest;
    forall n: nat
      ensures InHoles(out, n) <==> InHoles(rs.holes, n) && !a.Contains(n)
    {
      HolesConcat(hs + [left, right], rest, n);
      HolesConcat(hs, [left, right], n);
      assert [left, right] == [left] + [right];
      HolesConcat([left], [right], n);
      HolesConcat(rs.holes[..i + 1], rest, n);
      NextHole(rs, i);
      OneHole(left);
      OneHole(right);
    }
    SplitAscends(rs, hs, i, left, right);
  }

  lemma SplitAscends(rs: RangeSet, hs: seq<Hole>, i: nat, left: Hole, right: Hole)
    requires rs.Valid() && i < |rs.holes| && Ascending(hs)
    requires forall k, j | 0 <= k < |hs| && i <= j < |rs.holes| :: hs[k].hi + 1 < rs.holes[j].lo
    requires rs.holes[i].lo == left.lo <= left.hi && left.hi + 1 < right.lo <= right.hi == rs.holes[i].hi
    ensures Ascending(hs + [left, right] + rs.holes[i + 1..])
  {
    var out := hs + [left, right] + rs.holes[i + 1..];
    var p := |hs|;
    forall k, j | 0 <= k < j < |out|
      ensures out[k].hi + 1 < out[j].lo
    {
      if p + 2 <= j {
        assert out[j] == rs.holes[i + 1 + (j - p - 2)];
        if p + 2 <= k {
          assert out[k] == rs.holes[i + 1 + (k - p - 2)];
        }
      }
    }
  }

  /** What lies left of `a`, which starts inside the covering range. */
  method LeftOf(rs: RangeSet, a: Range) returns (left: RangeSet)
    requires rs.Valid() && rs.range.start < a.start && LessEq(Fin(a.start), rs.range.end)
    ensures left.Valid() && !left.IsEmpty()
    ensures left.range.start == rs.range.start && left.range.end.Fin? && left.range.end.n < a.start
    ensures forall n: nat :: left.Contains(n) <==> rs.Contains(n) && n < a.start
  {
    for i := 0 to |rs.holes|
      invariant forall k | 0 <= k < i :: rs.holes[k].hi + 1 < a.start
    {
      if a.start <= rs.holes[i].hi + 1 {
        var end := if a.start < rs.holes[i].lo then a.start - 1 else rs.holes[i].lo - 1;
        left := RangeSet(Range(rs.range.start, Fin(end)), rs.holes[..i]);
        EarlierHoles(rs.holes, i, end);
        assert end == rs.holes[i].lo - 1 ==>
            forall n: nat | rs.holes[i].lo <= n < a.start :: InHoles(rs.holes, n);
        return;
      }
    }
    left := RangeSet(Range(rs.range.start, Fin(a.start - 1)), rs.holes);
  }

  lemma EarlierHoles(hs: seq<Hole>, i: nat, e: nat)
    requires i <= |hs| && forall k | i <= k < |hs| :: hs[k].lo > e
    ensures forall n: nat | n <= e :: InHoles(hs, n) <==> InHoles(hs[..i], n)
  {
    assert hs == hs[..i] + hs[i..];
    HolesConcatAll(hs[..i], hs[i..]);
  }

  lemma LaterHoles(hs: seq<Hole>, i: nat, e: nat)
    requires i <= |hs| && forall k | 0 <= k < i :: hs[k].hi <= e
    ensures forall n: nat | n > e :: InHoles(hs, n) <==> InHoles(hs[i..], n)
  {
    assert hs == hs[..i] + hs[i..];
    HolesConcatAll(hs[..i], hs[i..]);
  }

  /** What lies right of `a`, which ends inside the covering range. */
  method RightOf(rs: RangeSet, a: Range) returns (right: RangeSet)
    requires rs.Valid() && a.end.Fin? && rs.range.start <= a.end.n && Less(a.end, rs.range.end)
    ensures right.Valid() && !right.IsEmpty()
    ensures right.range.end == rs.range.end && a.end.n < right.range.start
    ensures forall n: nat :: right.Contains(n) <==> rs.Contains(n) && n > a.end.n
  {
    for i := 0 to |rs.holes|
      invariant forall k | 0 <= k < i :: rs.holes[k].hi < a.end.n
    {
      if a.end.n <= rs.holes[i].hi {
        if a.end.n < rs.holes[i].lo - 1 {
          right := RangeSet(Range(a.end.n + 1, rs.range.end), rs.holes[i..]);
          LaterHoles(rs.holes, i, a.end.n);
        } else {
          right := RangeSet(Range(rs.holes[i].hi + 1, rs.range.end), rs.holes[i + 1..]);
          LaterHoles(rs.holes, i + 1, rs.holes[i].hi);
          assert forall n: nat | a.end.n < n <= rs.holes[i].hi :: InHoles(rs.holes, n);
        }
        return;
      }
    }
    right := RangeSet(Range(a.end.n + 1, rs.range.end), []);
  }

  lemma GapBetween(rs: RangeSet, a: Range, left: RangeSet, right: RangeSet, gap: Hole)
    requires left.Valid() && !left.IsEmpty() && left.range.start == rs.range.start
    requires right.Valid() && !right.IsEmpty() && right.range.end == rs.range.end && !a.IsEmpty()
    requires left.range.end.Fin? && left.range.end.n < a.start && a.end.Fin? && a.end.n < right.range.start
    requires forall n: nat :: left.Contains(n) <==> rs.Contains(n) && n < a.start
    requires forall n: nat :: right.Contains(n) <==> rs.Contains(n) && n > a.end.n
    requires gap == Hole(left.range.end.n + 1, right.range.start - 1)
    ensures var d := RangeSet(rs.range, left.holes + [gap] + right.holes);
      d.Valid() && forall n: nat :: d.Contains(n) <==> rs.Contains(n) && !a.Contains(n)
  {
    var d := RangeSet(rs.range, left.holes + [gap] + right.holes);
    forall n: nat
      ensures d.Contains(n) <==> rs.Contains(n) && !a.Contains(n)
    {
      HolesConcat(left.holes + [gap], right.holes, n);
      HolesConcat(left.holes, [gap], n);
      OneHole(gap);
      assert d.Contains(n) <==> left.Contains(n) || right.Contains(n);
    }
  }

  /** Taking a range away is set difference. */
  method Remove(rs: RangeSet, a: Range) returns (result: RangeSet)
    requires rs.Valid()
    ensures result.Valid()
    ensures forall n: nat :: result.Contains(n) <==> rs.Contains(n) && !a.Contains(n)
  {
    if a.IsEmpty() || rs.IsEmpty() || Less(a.end, Fin(rs.range.start)) || Less(rs.range.end, Fin(a.start)) {
      return rs;
    }
    var left, right := EMPTY_RANGE_SET, EMPTY_RANGE_SET;
    if rs.range.start < a.start {
      left := LeftOf(rs, a);
    }
    if Less(a.end, rs.range.end) {
      right := RightOf(rs, a);
    }
    if !left.IsEmpty() && !right.IsEmpty() {
      var gap := Hole(left.range.end.n + 1, right.range.start - 1);
      result := RangeSet(rs.range, left.holes + [gap] + right.holes);
      GapBetween(rs, a, left, right, gap);
    } else if left.IsEmpty() {
      result := right;
    } else {
      result := left;
    }
  }
}
