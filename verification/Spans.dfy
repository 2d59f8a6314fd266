/** The size of a set of slot numbers as the range sets of common/range count it: the size of the
    covering range, holes included. */
module Spans {
  import opened Ranges

  lemma {:induction false} LeastExists(s: set<nat>)
    requires s != {}
    ensures exists m :: m in s && forall y | y in s :: m <= y
    decreases |s|
  {
    var x :| x in s;
    var rest := s - {x};
    if rest != {} {
      LeastExists(rest);
      var m :| m in rest && forall y | y in rest :: m <= y;
      var least := Min(m, x);
      forall y | y in s ensures least <= y {
        assert y == x || y in rest;
      }
      assert least in s;
    } else {
      assert s == {x};
    }
  }

  lemma {:induction false} GreatestExists(s: set<nat>)
    requires s != {}
    ensures exists m :: m in s && forall y | y in s :: y <= m
    decreases |s|
  {
    var x :| x in s;
    var rest := s - {x};
    if rest != {} {
      GreatestExists(rest);
      var m :| m in rest && forall y | y in rest :: y <= m;
      var greatest := Max(m, x);
      forall y | y in s ensures y <= greatest {
        assert y == x || y in rest;
      }
      assert greatest in s;
    } else {
      assert s == {x};
    }
  }

  function Least(s: set<nat>): (m: nat)
    requires s != {}
    ensures m in s && forall y | y in s :: m <= y
  {
    LeastExists(s);
    var m :| m in s && forall y | y in s :: m <= y;
    m
  }

  function Greatest(s: set<nat>): (m: nat)
    requires s != {}
    ensures m in s && forall y | y in s :: y <= m
  {
    GreatestExists(s);
    var m :| m in s && forall y | y in s :: y <= m;
    m
  }

  function Span(s: set<nat>): nat { if s == {} then 0 else Greatest(s) + 1 - Least(s) }

  /** It is the size a range set reports for these numbers. */
  lemma SpanIsSize(rs: RangeSet, s: set<nat>)
    requires rs.Valid() && rs.range.end.Fin? && forall n: nat :: n in s <==> rs.Contains(n)
    ensures Span(s) == rs.range.Size()
  {
    if !rs.IsEmpty() {
      assert rs.Contains(rs.range.start) && rs.Contains(rs.range.end.n);
      assert rs.range.start in s && rs.range.end.n in s;
    }
  }

  lemma SpanGrows(a: set<nat>, b: set<nat>)
    requires a <= b
    ensures Span(a) <= Span(b)
  {
    if a != {} { assert Least(a) in b && Greatest(a) in b; }
  }

  /** A set never has more members than its span. */
  lemma {:induction false} SpanBoundsSize(s: set<nat>)
    ensures |s| <= Span(s)
    decreases |s|
  {
    if s != {} {
      var m := Greatest(s);
      var rest := s - {m};
      SpanBoundsSize(rest);
      if rest != {} { assert Greatest(rest) in s && Least(rest) in s; }
    }
  }
}
