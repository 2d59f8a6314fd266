/** Finding the slots of an interval that a table lacks (chain/clickhouse/simple_slot_store.go),
    by counting large intervals and listing small ones. */
module CheckMissing {
  import opened Ranges
  import opened RangeSets

  const RANGE_TOO_BIG: nat := 100_000_000
  const SMALL_ENOUGH: nat := 10_000

  /** A table as queries see it: its numbers, the rows a listing gives in some order, where a
      query fails, and which ranges still reach the consumer before it gives up. */
  datatype Table = Table(
    stored: set<nat>, rows: Range -> seq<nat>, countFails: Range -> bool, listFails: Range -> bool,
    taken: Range -> bool)

  /** A listing gives the stored numbers of the range. */
  ghost predicate Lists(table: Table) {
    forall r: Range, n: nat :: n in table.rows(r) <==> n in table.stored && r.Contains(n)
  }

  /** The stored numbers of a range. */
  function Within(stored: set<nat>, r: Range): set<nat> { set n | n in stored && r.Contains(n) }

  /** Bounded, non-empty, ascending and disjoint. */
  ghost predicate InOrder(ps: seq<Range>) {
    && (forall i | 0 <= i < |ps| :: ps[i].end.Fin? && !ps[i].IsEmpty())
    && (forall i, j | 0 <= i < j < |ps| :: ps[i].end.n < ps[j].start)
  }

  ghost predicate Lacks(table: Table, interval: Range, n: nat) { interval.Contains(n) && n !in table.stored }

  /** Every range emitted lies in the interval and holds missing numbers only. */
  ghost predicate OnlyMissing(table: Table, interval: Range, ps: seq<Range>) {
    forall n: nat | InRanges(ps, n) :: Lacks(table, interval, n)
  }

  ghost predicate AllMissing(table: Table, interval: Range, ps: seq<Range>) {
    forall n: nat | Lacks(table, interval, n) :: InRanges(ps, n)
  }

  // ------------------------------------------------------------------- the count shortcut

  lemma {:induction false} RangeCardinality(lo: nat, hi: nat, s: set<nat>)
    requires lo <= hi + 1 && forall n: nat :: n in s <==> lo <= n <= hi
    ensures |s| == hi + 1 - lo
    decreases hi + 1 - lo
  {
    if lo == hi + 1 {
      assert s == {};
    } else {
      RangeCardinality(lo + 1, hi, s - {lo});
    }
  }

  lemma SubsetCardinality(a: set<nat>, b: set<nat>)
    requires a <= b
    ensures |a| <= |b| && (|a| == |b| <==> a == b)
  {
    var rest := b - a;
    assert b == a + rest;
    assert rest == {} ==> a == b;
  }

  /** As many distinct numbers as the interval is long means that none is missing. */
  lemma FullCountIff(table: Table, interval: Range)
    requires interval.end.Fin?
    ensures |Within(table.stored, interval)| == interval.Size() <==> forall n: nat :: !Lacks(table, interval, n)
  {
    var all := interval.Elements();
    var some := Within(table.stored, interval);
    if interval.IsEmpty() {
      assert some == {};
    } else {
      RangeCardinality(interval.start, interval.end.n, all);
      SubsetCardinality(some, all);
      if forall n: nat :: !Lacks(table, interval, n) {
        forall n | n in all ensures n in some {
          assert !Lacks(table, interval, n);
        }
        assert some == all;
      } else {
        var n: nat :| Lacks(table, interval, n);
        assert n in all && n !in some;
      }
    }
  }

  // --------------------------------------------------------------------------- the leaves

  /** The missing numbers of a listed interval, as ranges. */
  method MissingOf(table: Table, interval: Range) returns (ps: seq<Range>)
    requires Lists(table) && interval.end.Fin? && !interval.IsEmpty()
    ensures InOrder(ps) && OnlyMissing(table, interval, ps) && AllMissing(table, interval, ps)
  {
    var existing := table.rows(interval);
    var left := RangeSet(interval, []);
    for i := 0 to |existing|
      invariant left.Valid()
      invariant forall n: nat :: left.Contains(n) <==> interval.Contains(n) && n !in existing[..i]
    {
      left := RangeSets.Remove(left, NewSingleRange(existing[i]));
    }
    ps := GetRanges(left);
    assert forall n: nat :: InRanges(ps, n) <==> Lacks(table, interval, n);
    BoundedPieces(ps, interval);
  }

  lemma BoundedPieces(ps: seq<Range>, interval: Range)
    requires Separated(ps) && interval.end.Fin? && forall n: nat | InRanges(ps, n) :: interval.Contains(n)
    ensures InOrder(ps)
  {
    forall i | 0 <= i < |ps| ensures ps[i].end.Fin? {
      if ps[i].end.Inf? {
        var n := Max(ps[i].start, interval.end.n + 1);
        assert ps[i].Contains(n) && InRanges(ps, n);
      }
    }
  }

  // ------------------------------------------------------------------------- the recursion

  lemma JoinHalves(table: Table, interval: Range, mid: nat, a: seq<Range>, b: seq<Range>)
    requires interval.end.Fin? && interval.start <= mid < interval.end.n
    requires InOrder(a) && OnlyMissing(table, NewRange(interval.start, mid), a)
    requires InOrder(b) && OnlyMissing(table, NewRange(mid + 1, interval.end.n), b)
    ensures InOrder(a + b) && OnlyMissing(table, interval, a + b)
    ensures
      AllMissing(table, NewRange(interval.start, mid), a) && AllMissing(table, NewRange(mid + 1, interval.end.n), b) ==>
        AllMissing(table, interval, a + b)
  {
    var ps := a + b;
    forall i, j | 0 <= i < |a| && 0 <= j < |b| ensures a[i].end.n < b[j].start {
      assert a[i].Contains(a[i].end.n) && b[j].Contains(b[j].start);
      assert InRanges(a, a[i].end.n) && InRanges(b, b[j].start);
    }
    forall n: nat ensures InRanges(ps, n) <==> InRanges(a, n) || InRanges(b, n) {
      InEither(a, b, n);
    }
  }

  lemma InEither(a: seq<Range>, b: seq<Range>, n: nat)
    ensures InRanges(a + b, n) <==> InRanges(a, n) || InRanges(b, n)
  {
    var ps := a + b;
    if InRanges(ps, n) {
      var i :| 0 <= i < |ps| && ps[i].Contains(n);
      assert if i < |a| then a[i].Contains(n) else b[i - |a|].Contains(n);
    }
    if InRanges(a, n) {
      var i :| 0 <= i < |a| && a[i].Contains(n);
      assert ps[i].Contains(n);
    }
    if InRanges(b, n) {
      var i :| 0 <= i < |b| && b[i].Contains(n);
      assert ps[|a| + i].Contains(n);
    }
  }

  /** Emits the missing numbers of the interval as ranges in ascending order. A failed query or
      a lost consumer ends it early; what was emitted by then is still right. */
  method CheckMissing(table: Table, interval: Range) returns (emitted: seq<Range>, ok: bool)
    requires Lists(table) && interval.end.Fin?
    ensures InOrder(emitted) && OnlyMissing(table, interval, emitted)
    ensures ok ==> AllMissing(table, interval, emitted)
    ensures (forall r: Range :: !table.countFails(r) && !table.listFails(r) && table.taken(r)) ==> ok
    decreases interval.Size()
  {
    if interval.Size() < RANGE_TOO_BIG {
      if table.countFails(interval) {
        return [], false;
      }
      if |Within(table.stored, interval)| == interval.Size() {
        FullCountIff(table, interval);
        return [], true;
      }
    }
    if interval.Size() > SMALL_ENOUGH {
      var mid := (interval.start + interval.end.n) / 2;
      var left, leftOk := CheckMissing(table, NewRange(interval.start, mid));
      JoinHalves(table, interval, mid, left, []);
      if !leftOk {
        assert left + [] == left;
        return left, false;
      }
      var right, rightOk := CheckMissing(table, NewRange(mid + 1, interval.end.n));
      JoinHalves(table, interval, mid, left, right);
      return left + right, rightOk;
    }
    if table.listFails(interval) {
      return [], false;
    }
    var ps := MissingOf(table, interval);
    emitted, ok := Emit(table, interval, ps);
  }

  /** Sends the ranges until the consumer is lost. */
  method Emit(table: Table, interval: Range, ps: seq<Range>) returns (emitted: seq<Range>, ok: bool)
    requires InOrder(ps) && OnlyMissing(table, interval, ps)
    ensures emitted <= ps && (ok <==> emitted == ps)
    ensures ok <==> forall p | p in ps :: table.taken(p)
    ensures InOrder(emitted) && OnlyMissing(table, interval, emitted)
  {
    emitted := [];
    for i := 0 to |ps|
      invariant emitted == ps[..i]
      invariant forall p | p in ps[..i] :: table.taken(p)
    {
      if !table.taken(ps[i]) {
        PrefixIsRight(table, interval, ps, i);
        assert ps[i] in ps;
        return emitted, false;
      }
      emitted := emitted + [ps[i]];
    }
    assert ps[..|ps|] == ps;
    return emitted, true;
  }

  lemma PrefixIsRight(table: Table, interval: Range, ps: seq<Range>, i: nat)
    requires InOrder(ps) && OnlyMissing(table, interval, ps) && i <= |ps|
    ensures InOrder(ps[..i]) && OnlyMissing(table, interval, ps[..i])
  {
    assert ps[..i] + ps[i..] == ps;
    forall n: nat | InRanges(ps[..i], n) ensures InRanges(ps, n) {
      InEither(ps[..i], ps[i..], n);
    }
  }
}
