/** A store of slots with a recorded range (chain/chain/dimension_simple.go): saving extends
    the recorded range only over slots whose data is stored, deleting shrinks it before any
    data goes. Failures may strike between any two steps. */
module SimpleDimension {
  import opened Ranges
  import opened RangeSets

  /** `r` is the maximal run of `s` around `seed`. */
  ghost predicate RunAround(s: set<nat>, seed: Range, r: Range) {
    && r.end.Fin? && !r.IsEmpty() && r.Include(seed)
    && (forall n: nat | r.Contains(n) :: n in s)
    && r.end.n + 1 !in s && (r.start > 0 ==> r.start - 1 !in s)
  }

  /** What one report does to the recorded range: it grows over the run of what is complete
      and recorded around the seed; without such a run the update is refused. */
  ghost predicate Advances(completed: set<nat>, seed: Range, cur: Range, record: Range,
                           ok: bool, cur': Range, record': Range)
    requires cur.end.Fin?
  {
    if exists r :: RunAround(completed + cur.Elements(), seed, r) then
      exists r :: RunAround(completed + cur.Elements(), seed, r) && ok &&
        if cur.Equal(r) then cur' == cur && record' == record
        else record' == r.Cover(record) && cur' == record'
    else
      !ok && cur' == cur && record' == record
  }

  /** There is only one such run. */
  lemma RunIsUnique(s: set<nat>, seed: Range, r: Range, other: Range)
    requires !seed.IsEmpty() && RunAround(s, seed, r) && RunAround(s, seed, other)
    ensures r == other
  {
    assert r.Contains(seed.start) && other.Contains(seed.start);
    assert !other.Contains(r.end.n + 1) && !r.Contains(other.end.n + 1);
    assert r.start > 0 ==> !other.Contains(r.start - 1);
    assert other.start > 0 ==> !r.Contains(other.start - 1);
  }

  /** A report with a run around the seed is never refused, and the recorded range ends up holding
      the run and what it held. */
  lemma AdvanceHoldsRun(completed: set<nat>, seed: Range, cur: Range, record: Range, r: Range,
                        ok: bool, cur': Range, record': Range)
    requires cur.end.Fin? && record.end.Fin? && !seed.IsEmpty()
    requires Advances(completed, seed, cur, record, ok, cur', record')
    requires RunAround(completed + cur.Elements(), seed, r)
    ensures ok && cur'.Include(r) && record'.Include(record)
    ensures !cur.Equal(r) ==> cur' == record'
    ensures cur.Equal(r) ==> cur' == cur && record' == record
  {
    forall other | RunAround(completed + cur.Elements(), seed, other) ensures r == other {
      RunIsUnique(completed + cur.Elements(), seed, r, other);
    }
  }

  ghost function SetOf(rs: RangeSet): (s: set<nat>)
    requires rs.Valid() && rs.range.end.Fin?
    ensures forall n: nat :: n in s <==> rs.Contains(n)
  {
    set n: nat | n <= rs.range.end.n && rs.Contains(n)
  }

  /** A piece of a finite set is a maximal run of it. */
  lemma PieceIsRun(rs: RangeSet, p: Range, seed: Range)
    requires rs.Valid() && rs.range.end.Fin? && p in Pieces(rs) && p.Include(seed)
    ensures RunAround(SetOf(rs), seed, p)
  {
    var ps := Pieces(rs);
    PiecesAreRuns(rs);
    LastPiece(rs);
    var i :| 0 <= i < |ps| && ps[i] == p;
    forall n: nat | p.Contains(n)
      ensures n in SetOf(rs)
    {
      assert InRanges(ps, n);
    }
    PastEndIsOutside(ps, i);
    BeforeStartIsOutside(ps, i);
  }

  lemma RunIsPiece(rs: RangeSet, r: Range, seed: Range)
    requires rs.Valid() && rs.range.end.Fin? && !seed.IsEmpty() && RunAround(SetOf(rs), seed, r)
    ensures exists p :: p in Pieces(rs) && p.Include(seed)
  {
    var ps := Pieces(rs);
    PiecesAreRuns(rs);
    LastPiece(rs);
    assert r.start in SetOf(rs) && InRanges(ps, r.start);
    var i :| 0 <= i < |ps| && ps[i].Contains(r.start);
    PastEndIsOutside(ps, i);
    assert ps[i].end.n + 1 !in SetOf(rs);
    assert !r.Contains(ps[i].end.n + 1);
    assert ps[i] in ps && ps[i].Include(seed);
  }

  /** The range updater's treatment of one reported range, on the set representation. */
  method OnReport(completed: RangeSet, done: Range, cur: Range, seed: Range, record: Range)
    returns (completed': RangeSet, ok: bool, cur': Range, record': Range)
    requires completed.Valid() && completed.range.end.Fin? && done.end.Fin? && cur.end.Fin?
    requires !seed.IsEmpty() && record.end.Fin?
    ensures completed'.Valid() && completed'.range.end.Fin?
    ensures SetOf(completed') == SetOf(completed) + done.Elements()
    ensures Advances(SetOf(completed'), seed, cur, record, ok, cur', record')
    ensures || (cur' == cur && record' == record)
            || (ok && cur' == record' && record'.Include(record) && record'.Include(seed))
  {
    completed' := Union(completed, done);
    UnionFinite(completed, done, completed');
    var all := Union(completed', cur);
    UnionFinite(completed', cur, all);
    var after, found := FindContains(all, seed);
    ok, cur', record' := true, cur, record;
    if found {
      PieceIsRun(all, after, seed);
    } else {
      forall r
        ensures !RunAround(SetOf(all), seed, r)
      {
        if RunAround(SetOf(all), seed, r) {
          RunIsPiece(all, r, seed);
        }
      }
    }
    if !cur.Equal(after) {
      var newRange := after.Cover(record);
      if newRange.end.Inf? {
        ok := false;
        return;
      }
      record' := newRange;
      cur' := newRange;
    }
  }

  lemma UnionFinite(rs: RangeSet, a: Range, u: RangeSet)
    requires rs.Valid() && rs.range.end.Fin? && a.end.Fin? && u.Valid()
    requires forall n: nat :: u.Contains(n) <==> rs.Contains(n) || a.Contains(n)
    ensures u.range.end.Fin?
    ensures SetOf(u) == SetOf(rs) + a.Elements()
  {
    if u.range.end.Inf? {
      var top := Max(u.range.start, Max(rs.range.end.n, a.end.n)) + 1;
      var far := top + LastHole(u.holes);
      assert u.Contains(far);
    }
  }

  /** A number above every hole. */
  ghost function LastHole(hs: seq<Hole>): (m: nat)
    ensures forall i | 0 <= i < |hs| :: hs[i].hi < m
  {
    if hs == [] then 0 else Max(LastHole(hs[..|hs| - 1]), hs[|hs| - 1].hi + 1)
  }
}
