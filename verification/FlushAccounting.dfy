/** How a store's save accounts for flushed rows (chain/clickhouse/simple_slot_store.go):
    chunks are cached per table, handed out as insert tasks, inserted in any order, and a slot
    is reported done once its rows are in every table. Sets of slot numbers stand for the
    range sets of the source. */
module FlushAccounting {
  import opened Ranges
  import opened RangeSets
  import opened Spans

  /** What the flush workers share under their lock. */
  datatype Ledger = Ledger(flushDone: seq<set<nat>>, allDone: set<nat>)

  ghost predicate InAll(sets: seq<set<nat>>, n: nat) {
    forall i | 0 <= i < |sets| :: n in sets[i]
  }

  /** The intersection of the per-table sets. */
  ghost function Common(sets: seq<set<nat>>): (c: set<nat>)
    requires sets != []
    ensures forall n :: n in c <==> InAll(sets, n)
  {
    set n | n in sets[0] && InAll(sets, n)
  }

  /** Small sets wait for company unless they complete the interval; sizes are those of the
      covering ranges. */
  predicate HeldBack(done: set<nat>, allDone: set<nat>, batch: nat, total: nat) {
    done == {} || (Span(done) < batch && Span(done) + Span(allDone) < total)
  }

  ghost function Flushed(l: Ledger, table: nat, slots: set<nat>): seq<set<nat>>
    requires table < |l.flushDone|
  {
    l.flushDone[table := l.flushDone[table] + slots]
  }

  /** What a finished task reports. */
  ghost function Reports(l: Ledger, table: nat, slots: set<nat>, batch: nat, total: nat): set<nat>
    requires table < |l.flushDone|
  {
    var done := Common(Flushed(l, table, slots));
    if HeldBack(done, l.allDone, batch, total) then {} else done
  }

  /** What is to be reported when `sets` are flushed to the tables: all slots that are in each of
      them, unless these span less than a batch and do not complete the interval; then nothing. */
  ghost predicate Due(sets: seq<set<nat>>, allDone: set<nat>, batch: nat, total: nat, report: set<nat>)
    requires sets != []
  {
    exists common: set<nat> ::
      && (forall n :: n in common <==> forall i | 0 <= i < |sets| :: n in sets[i])
      && (common != {} && Span(common) >= batch ==> report == common)
      && (report == {} <==> common == {} || (Span(common) < batch && Span(common) + Span(allDone) < total))
      && (report == {} || report == common)
  }

  ghost function Without(sets: seq<set<nat>>, gone: set<nat>): (r: seq<set<nat>>)
    ensures |r| == |sets| && forall i | 0 <= i < |r| :: r[i] == sets[i] - gone
  {
    seq(|sets|, i requires 0 <= i < |sets| => sets[i] - gone)
  }

  ghost function Settle(l: Ledger, table: nat, slots: set<nat>, batch: nat, total: nat): Ledger
    requires table < |l.flushDone|
  {
    var fd := Flushed(l, table, slots);
    var done := Common(fd);
    if HeldBack(done, l.allDone, batch, total) then Ledger(fd, l.allDone)
    else Ledger(Without(fd, done), l.allDone + done)
  }

  method IntersectAll(sets: seq<set<nat>>) returns (done: set<nat>)
    requires sets != []
    ensures done == Common(sets)
  {
    done := sets[0];
    for i := 1 to |sets|
      invariant forall n :: n in done <==> InAll(sets[..i], n)
    {
      done := done * sets[i];
      assert sets[..i + 1] == sets[..i] + [sets[i]];
    }
    assert sets[..|sets|] == sets;
  }

  class Accounting {
    var flushDone: seq<set<nat>>
    var allDone: set<nat>
    const batch: nat
    const total: nat

    constructor (tables: nat, batch: nat, total: nat)
      ensures this.batch == batch && this.total == total
      ensures View() == Ledger(seq(tables, _ => {}), {})
    {
      flushDone, allDone := seq(tables, _ => {}), {};
      this.batch, this.total := batch, total;
    }

    ghost function View(): Ledger
      reads this
    {
      Ledger(flushDone, allDone)
    }

    /** The locked part of a flush worker after its insert succeeded. */
    method TaskDone(table: nat, slots: set<nat>) returns (report: set<nat>)
      requires table < |flushDone|
      modifies this`flushDone, this`allDone
      ensures report == Reports(old(View()), table, slots, batch, total)
      ensures View() == Settle(old(View()), table, slots, batch, total)
      ensures Due(old(flushDone)[table := old(flushDone)[table] + slots], old(allDone), batch, total, report)
      ensures allDone == old(allDone) + report && |flushDone| == |old(flushDone)|
      ensures forall i | 0 <= i < |flushDone| ::
          flushDone[i] == old(flushDone)[i] + (if i == table then slots else {}) - report
    {
      flushDone := flushDone[table := flushDone[table] + slots];
      var done := IntersectAll(flushDone);
      assert forall n :: n in done <==> forall i | 0 <= i < |flushDone| :: n in flushDone[i];
      if done == {} || (Span(done) < batch && Span(done) + Span(allDone) < total) {
        return {};
      }
      report := done;
      ghost var fd := flushDone;
      for j := 0 to |flushDone|
        invariant |flushDone| == |fd| && allDone == old(allDone)
        invariant forall k | 0 <= k < |fd| :: flushDone[k] == if k < j then fd[k] - done else fd[k]
      {
        flushDone := flushDone[j := flushDone[j] - done];
      }
      assert flushDone == Without(fd, done);
      allDone := allDone + done;
    }
  }

  /** `inserted`: the rows are in the table, the worker has not taken the lock yet. */
  datatype Task = Task(table: nat, slots: set<nat>, inserted: bool)

  /** `stored[i]`: slots whose rows are in table `i`. `reported`: what went to the caller. `failed`:
      some part of the save failed or was cancelled. `cut`: a report was cut short by that. */
  datatype Sys = Sys(
    fed: set<nat>, cached: seq<set<nat>>, tasks: map<nat, Task>, stored: seq<set<nat>>,
    ledger: Ledger, reported: seq<set<nat>>, feeding: bool, failed: bool, cut: bool)

  datatype Step =
    | Feed(n: nat) | EndFeed
    | HandOut(table: nat, id: nat)
    | Insert(id: nat)
    | Finish(id: nat)
    | FailReporting(id: nat, part: set<nat>)
    | Fail

  ghost predicate Init(tables: nat, s: Sys) {
    var none := seq(tables, _ => {});
    tables > 0 && s == Sys({}, none, map[], none, Ledger(none, {}), [], true, false, false)
  }

  /** A range of the set starts at `n`. */
  ghost predicate StartsRange(report: set<nat>, n: nat) { n in report && (n == 0 || n - 1 !in report) }

  ghost function Below(report: set<nat>, n: nat): set<nat> { set m | m in report && m < n }

  /** A report goes out range by range in ascending order; cut short while one is being sent, it
      got out what lies below that range, and lost at least the range. */
  ghost predicate CutOff(report: set<nat>, part: set<nat>) {
    exists n :: StartsRange(report, n) && part == Below(report, n)
  }

  /** A worker whose report is cut short leaves what it flushed unsettled; workers that hold
      inserted rows may still come after it. */
  ghost predicate Next(tables: nat, batch: nat, total: nat, s: Sys, step: Step, s': Sys) {
    match step
    case Feed(n) =>
      && s.feeding && n !in s.fed
      && s' == s.(fed := s.fed + {n}, cached := seq(|s.cached|, i requires 0 <= i < |s.cached| => s.cached[i] + {n}))
    case EndFeed => s' == s.(feeding := false)
    case HandOut(table, id) =>
      && table < |s.cached| && id !in s.tasks
      && s' == s.(tasks := s.tasks[id := Task(table, s.cached[table], false)], cached := s.cached[table := {}])
    case Insert(id) =>
      && id in s.tasks && s.tasks[id].table < |s.stored|
      && s' == s.(tasks := s.tasks[id := s.tasks[id].(inserted := true)],
                  stored := s.stored[s.tasks[id].table := s.stored[s.tasks[id].table] + s.tasks[id].slots])
    case Finish(id) =>
      && id in s.tasks && s.tasks[id].inserted && s.tasks[id].table < |s.ledger.flushDone|
      && s' == s.(tasks := s.tasks - {id},
                  ledger := Settle(s.ledger, s.tasks[id].table, s.tasks[id].slots, batch, total),
                  reported := s.reported + [Reports(s.ledger, s.tasks[id].table, s.tasks[id].slots, batch, total)])
    case FailReporting(id, part) =>
      && id in s.tasks && s.tasks[id].inserted && s.tasks[id].table < |s.ledger.flushDone|
      && CutOff(Reports(s.ledger, s.tasks[id].table, s.tasks[id].slots, batch, total), part)
      && s' == s.(tasks := s.tasks - {id},
                  ledger := Ledger(Flushed(s.ledger, s.tasks[id].table, s.tasks[id].slots), s.ledger.allDone),
                  reported := s.reported + [part], failed := true, cut := true)
    case Fail => s' == s.(failed := true)
  }

  ghost predicate Sized(tables: nat, s: Sys) {
    && tables > 0 && |s.cached| == tables && |s.stored| == tables && |s.ledger.flushDone| == tables
    && forall id | id in s.tasks :: s.tasks[id].table < tables
  }

  /** Table `i` has slot `n` in an unfinished task. */
  ghost predicate Pending(s: Sys, i: nat, n: nat) {
    exists id :: id in s.tasks && s.tasks[id].table == i && n in s.tasks[id].slots
  }

  /** For each table, a slot fed is in at most one place: cached, in one task, flushed, or
      reported. */
  ghost predicate Placed(tables: nat, s: Sys)
    requires Sized(tables, s)
  {
    CachedPlaced(tables, s) && FlushedPlaced(tables, s) && (forall n | n in s.ledger.allDone :: n in s.fed)
  }

  ghost predicate CachedPlaced(tables: nat, s: Sys)
    requires Sized(tables, s)
  {
    forall i, n | 0 <= i < tables && n in s.cached[i] :: n in s.fed && !Settled(s, i, n)
  }

  ghost predicate FlushedPlaced(tables: nat, s: Sys)
    requires Sized(tables, s)
  {
    forall i, n | 0 <= i < tables && n in s.ledger.flushDone[i] :: n in s.fed && n !in s.ledger.allDone
  }

  ghost predicate Settled(s: Sys, i: nat, n: nat)
    requires i < |s.ledger.flushDone|
  {
    n in s.ledger.flushDone[i] || n in s.ledger.allDone
  }

  ghost predicate PlacedInTask(s: Sys, t: Task, n: nat)
    requires t.table < |s.cached| && t.table < |s.ledger.flushDone|
  {
    n in s.fed && n !in s.cached[t.table] && !Settled(s, t.table, n)
  }

  ghost predicate TasksPlaced(tables: nat, s: Sys)
    requires Sized(tables, s)
  {
    && (forall id, n | id in s.tasks && n in s.tasks[id].slots :: PlacedInTask(s, s.tasks[id], n))
    && (forall a, b | a in s.tasks && b in s.tasks && a != b && s.tasks[a].table == s.tasks[b].table ::
          s.tasks[a].slots !! s.tasks[b].slots)
  }

  ghost predicate Covered(tables: nat, s: Sys)
    requires Sized(tables, s)
  {
    forall i, n | 0 <= i < tables && n in s.fed ::
      n in s.cached[i] || n in s.ledger.flushDone[i] || n in s.ledger.allDone || Pending(s, i, n)
  }

  /** Only what is stored counts as flushed. */
  ghost predicate Backed(tables: nat, s: Sys)
    requires Sized(tables, s)
  {
    && (forall i, n | 0 <= i < tables && n in s.ledger.flushDone[i] :: n in s.stored[i])
    && (forall i, n | 0 <= i < tables && n in s.ledger.allDone :: n in s.stored[i])
    && (forall id, n | id in s.tasks && s.tasks[id].inserted && n in s.tasks[id].slots ::
          n in s.stored[s.tasks[id].table])
  }

  ghost predicate NothingOverdue(batch: nat, total: nat, s: Sys) {
    s.ledger.flushDone != [] && HeldBack(Common(s.ledger.flushDone), s.ledger.allDone, batch, total)
  }

  /** Only stored slots are reported, `allDone` among them; while no report was cut short,
      reports are pairwise disjoint and make up `allDone`. */
  ghost predicate ReportsOk(tables: nat, s: Sys)
    requires Sized(tables, s)
  {
    && (forall a, i, n | 0 <= a < |s.reported| && 0 <= i < tables && n in s.reported[a] :: n in s.stored[i])
    && (forall n | n in s.ledger.allDone :: exists a | 0 <= a < |s.reported| :: n in s.reported[a])
    && (!s.cut ==> forall a, b, n | 0 <= a < b < |s.reported| && n in s.reported[a] :: n !in s.reported[b])
    && (!s.cut ==> forall a, n | 0 <= a < |s.reported| && n in s.reported[a] :: n in s.ledger.allDone)
  }

  ghost predicate Inv(tables: nat, batch: nat, total: nat, s: Sys) {
    Sized(tables, s) && Placed(tables, s) && TasksPlaced(tables, s) && Covered(tables, s) && Backed(tables, s) &&
    (!s.cut ==> NothingOverdue(batch, total, s)) && ReportsOk(tables, s) && (s.cut ==> s.failed)
  }

  lemma FeedKeeps(tables: nat, batch: nat, total: nat, s: Sys, n: nat, s': Sys)
    requires Inv(tables, batch, total, s) && Next(tables, batch, total, s, Feed(n), s')
    ensures Inv(tables, batch, total, s')
  {
    forall i, m | 0 <= i < tables && m in s'.fed
      ensures m in s'.cached[i] || m in s'.ledger.flushDone[i] || m in s'.ledger.allDone || Pending(s', i, m)
    {
      if m != n && Pending(s, i, m) {
        var id :| id in s.tasks && s.tasks[id].table == i && m in s.tasks[id].slots;
        assert id in s'.tasks;
      }
    }
  }

  lemma HandOutKeeps(tables: nat, batch: nat, total: nat, s: Sys, table: nat, id: nat, s': Sys)
    requires Inv(tables, batch, total, s) && Next(tables, batch, total, s, HandOut(table, id), s')
    ensures Inv(tables, batch, total, s')
  {
    HandOutPlaces(tables, batch, total, s, table, id, s');
    forall i, n | 0 <= i < tables && n in s'.cached[i]
      ensures n in s'.fed && !Settled(s', i, n)
    {
      assert n in s.cached[i] && !Settled(s, i, n);
    }
    forall i, m | 0 <= i < tables && m in s'.fed
      ensures m in s'.cached[i] || m in s'.ledger.flushDone[i] || m in s'.ledger.allDone || Pending(s', i, m)
    {
      if Pending(s, i, m) {
        var t :| t in s.tasks && s.tasks[t].table == i && m in s.tasks[t].slots;
        assert t in s'.tasks && s'.tasks[t] == s.tasks[t];
      } else if m in s.cached[i] && i == table {
        assert id in s'.tasks && m in s'.tasks[id].slots;
      }
    }
  }

  lemma HandOutPlaces(tables: nat, batch: nat, total: nat, s: Sys, table: nat, id: nat, s': Sys)
    requires Inv(tables, batch, total, s) && Next(tables, batch, total, s, HandOut(table, id), s')
    ensures Sized(tables, s') && TasksPlaced(tables, s')
  {
    forall b, n | b in s'.tasks && n in s'.tasks[b].slots
      ensures PlacedInTask(s', s'.tasks[b], n)
    {
      if b != id {
        assert PlacedInTask(s, s.tasks[b], n);
      }
    }
    forall b | b in s.tasks && s.tasks[b].table == table
      ensures s.tasks[b].slots !! s.cached[table]
    {
      forall n | n in s.tasks[b].slots ensures n !in s.cached[table] { assert PlacedInTask(s, s.tasks[b], n); }
    }
  }

  lemma InsertKeeps(tables: nat, batch: nat, total: nat, s: Sys, id: nat, s': Sys)
    requires Inv(tables, batch, total, s) && Next(tables, batch, total, s, Insert(id), s')
    ensures Inv(tables, batch, total, s')
  {
    InsertPlaces(tables, batch, total, s, id, s');
    InsertCovers(tables, batch, total, s, id, s');
    InsertBacks(tables, batch, total, s, id, s');
  }

  lemma InsertCovers(tables: nat, batch: nat, total: nat, s: Sys, id: nat, s': Sys)
    requires Inv(tables, batch, total, s) && Next(tables, batch, total, s, Insert(id), s')
    ensures Sized(tables, s') && Covered(tables, s')
  {
    forall i, m | 0 <= i < tables && m in s'.fed
      ensures m in s'.cached[i] || m in s'.ledger.flushDone[i] || m in s'.ledger.allDone || Pending(s', i, m)
    {
      if Pending(s, i, m) {
        var t :| t in s.tasks && s.tasks[t].table == i && m in s.tasks[t].slots;
        assert t in s'.tasks && s'.tasks[t].slots == s.tasks[t].slots && s'.tasks[t].table == i;
      }
    }
  }

  lemma InsertBacks(tables: nat, batch: nat, total: nat, s: Sys, id: nat, s': Sys)
    requires Inv(tables, batch, total, s) && Next(tables, batch, total, s, Insert(id), s')
    ensures Sized(tables, s') && Backed(tables, s') && ReportsOk(tables, s')
  {
    forall i, n | 0 <= i < tables && n in s.stored[i] ensures n in s'.stored[i] {
    }
  }

  lemma InsertPlaces(tables: nat, batch: nat, total: nat, s: Sys, id: nat, s': Sys)
    requires Inv(tables, batch, total, s) && Next(tables, batch, total, s, Insert(id), s')
    ensures Sized(tables, s') && Placed(tables, s') && TasksPlaced(tables, s')
  {
    forall i, n | 0 <= i < tables && n in s'.cached[i] ensures n in s'.fed && !Settled(s', i, n) {
      assert !Settled(s, i, n);
    }
    forall b, n | b in s'.tasks && n in s'.tasks[b].slots ensures PlacedInTask(s', s'.tasks[b], n) {
      assert PlacedInTask(s, s.tasks[b], n);
    }
  }

  /** A finished task's slots count as flushed, and of those in every table `rep` are settled. */
  ghost predicate Settles(tables: nat, s: Sys, id: nat, rep: set<nat>, s': Sys) {
    && Sized(tables, s) && Sized(tables, s') && id in s.tasks && s.tasks[id].inserted
    && s'.fed == s.fed && s'.cached == s.cached && s'.stored == s.stored && s'.tasks == s.tasks - {id}
    && s'.ledger.allDone == s.ledger.allDone + rep
    && var fd := Flushed(s.ledger, s.tasks[id].table, s.tasks[id].slots);
       && (forall i | 0 <= i < tables :: s'.ledger.flushDone[i] == fd[i] - rep)
       && (forall n | n in rep :: InAll(fd, n) && n !in s.ledger.allDone && n in s.fed)
  }

  lemma CommonIsUnsettled(tables: nat, batch: nat, total: nat, s: Sys, id: nat)
    requires Inv(tables, batch, total, s) && id in s.tasks
    ensures forall n | n in Common(Flushed(s.ledger, s.tasks[id].table, s.tasks[id].slots)) ::
              n !in s.ledger.allDone && n in s.fed
  {
    var t := s.tasks[id];
    var fd := Flushed(s.ledger, t.table, t.slots);
    forall n | n in Common(fd) ensures n !in s.ledger.allDone && n in s.fed {
      assert n in fd[t.table];
      if n in t.slots { assert PlacedInTask(s, t, n); }
    }
  }

  /** Nothing is common to the tables once the common slots are taken out. */
  lemma NothingCommonLeft(fd: seq<set<nat>>)
    requires fd != []
    ensures Common(Without(fd, Common(fd))) == {}
  {
    var left := Without(fd, Common(fd));
    forall n ensures !InAll(left, n) {
      if InAll(fd, n) {
        assert n !in left[0];
      } else {
        var i :| 0 <= i < |fd| && n !in fd[i];
        assert n !in left[i];
      }
    }
  }

  lemma FinishSettles(tables: nat, batch: nat, total: nat, s: Sys, id: nat, s': Sys)
    requires Inv(tables, batch, total, s) && Next(tables, batch, total, s, Finish(id), s')
    ensures Settles(tables, s, id, Reports(s.ledger, s.tasks[id].table, s.tasks[id].slots, batch, total), s')
    ensures NothingOverdue(batch, total, s')
  {
    CommonIsUnsettled(tables, batch, total, s, id);
    NothingCommonLeft(Flushed(s.ledger, s.tasks[id].table, s.tasks[id].slots));
  }

  lemma CutSettles(tables: nat, batch: nat, total: nat, s: Sys, id: nat, part: set<nat>, s': Sys)
    requires Inv(tables, batch, total, s) && Next(tables, batch, total, s, FailReporting(id, part), s')
    ensures Settles(tables, s, id, {}, s')
  {
  }

  /** What counts as settled afterwards was settled before or came with the task. */
  lemma SettledWas(tables: nat, s: Sys, id: nat, rep: set<nat>, s': Sys, i: nat, n: nat)
    requires Settles(tables, s, id, rep, s') && i < tables && Settled(s', i, n)
    ensures Settled(s, i, n) || (i == s.tasks[id].table && n in s.tasks[id].slots)
  {
    var fd := Flushed(s.ledger, s.tasks[id].table, s.tasks[id].slots);
    assert n in rep ==> n in fd[i];
  }

  lemma StaysUnsettled(tables: nat, s: Sys, id: nat, rep: set<nat>, s': Sys, i: nat, n: nat)
    requires Settles(tables, s, id, rep, s') && CachedPlaced(tables, s) && TasksPlaced(tables, s)
    requires i < tables && n in s.cached[i]
    ensures n in s'.fed && !Settled(s', i, n)
  {
    if n in s.tasks[id].slots { assert PlacedInTask(s, s.tasks[id], n); }
    if Settled(s', i, n) { SettledWas(tables, s, id, rep, s', i, n); }
  }

  lemma SettlingKeepsPlaces(tables: nat, s: Sys, id: nat, rep: set<nat>, s': Sys)
    requires Settles(tables, s, id, rep, s') && Placed(tables, s) && TasksPlaced(tables, s)
    ensures Placed(tables, s')
  {
    forall i, n | 0 <= i < tables && n in s'.cached[i] ensures n in s'.fed && !Settled(s', i, n) {
      StaysUnsettled(tables, s, id, rep, s', i, n);
    }
    forall i, n | 0 <= i < tables && n in s'.ledger.flushDone[i] ensures n in s'.fed && n !in s'.ledger.allDone {
      FlushedStaysPlaced(tables, s, id, rep, s', i, n);
    }
  }

  lemma FlushedStaysPlaced(tables: nat, s: Sys, id: nat, rep: set<nat>, s': Sys, i: nat, n: nat)
    requires Settles(tables, s, id, rep, s') && Placed(tables, s) && TasksPlaced(tables, s)
    requires i < tables && n in s'.ledger.flushDone[i]
    ensures n in s'.fed && n !in s'.ledger.allDone
  {
    SettledWas(tables, s, id, rep, s', i, n);
    if n in s.tasks[id].slots { assert PlacedInTask(s, s.tasks[id], n); }
  }

  lemma SettlingKeepsTasks(tables: nat, s: Sys, id: nat, rep: set<nat>, s': Sys)
    requires Settles(tables, s, id, rep, s') && TasksPlaced(tables, s)
    ensures TasksPlaced(tables, s')
  {
    forall b, n | b in s'.tasks && n in s'.tasks[b].slots
      ensures PlacedInTask(s', s'.tasks[b], n)
    {
      assert PlacedInTask(s, s.tasks[b], n);
      if Settled(s', s.tasks[b].table, n) {
        SettledWas(tables, s, id, rep, s', s.tasks[b].table, n);
      }
    }
  }

  lemma SettlingKeepsCover(tables: nat, s: Sys, id: nat, rep: set<nat>, s': Sys)
    requires Settles(tables, s, id, rep, s') && Covered(tables, s)
    ensures Covered(tables, s')
  {
    var fd := Flushed(s.ledger, s.tasks[id].table, s.tasks[id].slots);
    forall i, m | 0 <= i < tables && m in s'.fed
      ensures m in s'.cached[i] || m in s'.ledger.flushDone[i] || m in s'.ledger.allDone || Pending(s', i, m)
    {
      if Pending(s, i, m) {
        var b :| b in s.tasks && s.tasks[b].table == i && m in s.tasks[b].slots;
        if b == id {
          assert m in fd[i];
        } else {
          assert b in s'.tasks && s'.tasks[b] == s.tasks[b];
        }
      }
    }
  }

  lemma SettlingKeepsBacked(tables: nat, s: Sys, id: nat, rep: set<nat>, s': Sys)
    requires Settles(tables, s, id, rep, s') && Backed(tables, s)
    ensures Backed(tables, s')
  {
    forall i, n | 0 <= i < tables && n in rep ensures n in s'.stored[i] {
      RepIsStored(tables, s, id, rep, s', i, n);
    }
  }

  lemma RepIsStored(tables: nat, s: Sys, id: nat, rep: set<nat>, s': Sys, i: nat, n: nat)
    requires Settles(tables, s, id, rep, s') && Backed(tables, s) && i < tables
    requires InAll(Flushed(s.ledger, s.tasks[id].table, s.tasks[id].slots), n)
    ensures n in s.stored[i]
  {
    var fd := Flushed(s.ledger, s.tasks[id].table, s.tasks[id].slots);
    assert n in fd[i];
  }

  /** A report holds slots stored in every table, new ones while none was cut short; a full one
      accounts for all that is settled with it. */
  lemma ReportKeepsReports(tables: nat, s: Sys, id: nat, rep: set<nat>, part: set<nat>, s': Sys)
    requires Settles(tables, s, id, rep, s') && Backed(tables, s) && ReportsOk(tables, s)
    requires s'.reported == s.reported + [part] && (s'.cut || s.cut || part == rep) && rep <= part && (s.cut ==> s'.cut)
    requires forall n | n in part :: InAll(Flushed(s.ledger, s.tasks[id].table, s.tasks[id].slots), n)
    ensures ReportsOk(tables, s')
  {
    forall i, n | 0 <= i < tables && n in part ensures n in s'.stored[i] {
      RepIsStored(tables, s, id, rep, s', i, n);
    }
    forall n | n in s'.ledger.allDone
      ensures exists a | 0 <= a < |s'.reported| :: n in s'.reported[a]
    {
      if n in s.ledger.allDone {
        var a :| 0 <= a < |s.reported| && n in s.reported[a];
        assert s'.reported[a] == s.reported[a];
      } else {
        assert n in s'.reported[|s.reported|];
      }
    }
  }

  lemma FinishKeeps(tables: nat, batch: nat, total: nat, s: Sys, id: nat, s': Sys)
    requires Inv(tables, batch, total, s) && Next(tables, batch, total, s, Finish(id), s')
    ensures Inv(tables, batch, total, s')
  {
    var rep := Reports(s.ledger, s.tasks[id].table, s.tasks[id].slots, batch, total);
    FinishSettles(tables, batch, total, s, id, s');
    SettlingKeepsPlaces(tables, s, id, rep, s');
    SettlingKeepsTasks(tables, s, id, rep, s');
    SettlingKeepsCover(tables, s, id, rep, s');
    SettlingKeepsBacked(tables, s, id, rep, s');
    ReportKeepsReports(tables, s, id, rep, rep, s');
  }

  lemma CutKeeps(tables: nat, batch: nat, total: nat, s: Sys, id: nat, part: set<nat>, s': Sys)
    requires Inv(tables, batch, total, s) && Next(tables, batch, total, s, FailReporting(id, part), s')
    ensures Inv(tables, batch, total, s')
  {
    CutSettles(tables, batch, total, s, id, part, s');
    SettlingKeepsPlaces(tables, s, id, {}, s');
    SettlingKeepsTasks(tables, s, id, {}, s');
    SettlingKeepsCover(tables, s, id, {}, s');
    SettlingKeepsBacked(tables, s, id, {}, s');
    ReportKeepsReports(tables, s, id, {}, part, s');
  }

  lemma StepKeepsInv(tables: nat, batch: nat, total: nat, s: Sys, step: Step, s': Sys)
    requires Inv(tables, batch, total, s) && Next(tables, batch, total, s, step, s')
    ensures Inv(tables, batch, total, s')
  {
    match step
    case Feed(n) => FeedKeeps(tables, batch, total, s, n, s');
    case HandOut(table, id) => HandOutKeeps(tables, batch, total, s, table, id, s');
    case Insert(id) => InsertKeeps(tables, batch, total, s, id, s');
    case Finish(id) => FinishKeeps(tables, batch, total, s, id, s');
    case FailReporting(id, part) => CutKeeps(tables, batch, total, s, id, part, s');
    case _ => SameSlots(tables, batch, total, s, s');
  }

  lemma SameSlots(tables: nat, batch: nat, total: nat, s: Sys, s': Sys)
    requires Inv(tables, batch, total, s)
    requires s' == s.(feeding := s'.feeding, failed := s'.failed) && (s.failed ==> s'.failed)
    ensures Inv(tables, batch, total, s')
  {
    forall i, n ensures Pending(s, i, n) <==> Pending(s', i, n) {}
    forall id, n | id in s'.tasks && n in s'.tasks[id].slots
      ensures PlacedInTask(s', s'.tasks[id], n)
    {
      assert PlacedInTask(s, s.tasks[id], n);
    }
    forall i, n | 0 <= i < tables && n in s'.cached[i]
      ensures !Settled(s', i, n)
    {
      assert !Settled(s, i, n);
    }
  }

  ghost predicate Run(tables: nat, batch: nat, total: nat, ss: seq<Sys>, steps: seq<Step>) {
    && |ss| == |steps| + 1 && Init(tables, ss[0])
    && forall i, j | 0 <= i < |steps| && j == i + 1 :: Next(tables, batch, total, ss[i], steps[i], ss[j])
  }

  /** Over every completion order: a slot is reported only after its rows are in every table,
      and at most once unless a report was cut short. */
  lemma {:induction false} RunReportsStoredOnce(tables: nat, batch: nat, total: nat, ss: seq<Sys>, steps: seq<Step>,
                                                i: nat)
    requires Run(tables, batch, total, ss, steps) && i < |ss|
    ensures Inv(tables, batch, total, ss[i])
    ensures forall a, n | 0 <= a < |ss[i].reported| && n in ss[i].reported[a] :: InAll(ss[i].stored, n)
    ensures !ss[i].cut ==>
              forall a, b, n | 0 <= a < b < |ss[i].reported| && n in ss[i].reported[a] :: n !in ss[i].reported[b]
  {
    if i > 0 {
      RunReportsStoredOnce(tables, batch, total, ss, steps, i - 1);
      StepKeepsInv(tables, batch, total, ss[i - 1], steps[i - 1], ss[i]);
    } else {
      assert Common(ss[0].ledger.flushDone) == {};
    }
  }

  // -------------------------------------------------------- which reports of a run overlap

  /** What a step reports. */
  ghost function ReportOf(batch: nat, total: nat, s: Sys, step: Step): set<nat> {
    match step
    case Finish(id) =>
      if id in s.tasks && s.tasks[id].table < |s.ledger.flushDone|
      then Reports(s.ledger, s.tasks[id].table, s.tasks[id].slots, batch, total) else {}
    case FailReporting(_, part) => part
    case _ => {}
  }

  /** A step appends its report, and what it reports was not settled before. */
  lemma ReportIsNew(tables: nat, batch: nat, total: nat, s: Sys, step: Step, s': Sys)
    requires Inv(tables, batch, total, s) && Next(tables, batch, total, s, step, s')
    ensures s.ledger.allDone <= s'.ledger.allDone
    ensures ReportOf(batch, total, s, step) !! s.ledger.allDone
    ensures step.Finish? ==> ReportOf(batch, total, s, step) <= s'.ledger.allDone
    ensures s'.reported == if step.Finish? || step.FailReporting?
                           then s.reported + [ReportOf(batch, total, s, step)] else s.reported
  {
    if step.Finish? || step.FailReporting? {
      CommonIsUnsettled(tables, batch, total, s, step.id);
    }
  }

  lemma {:induction false} SettledStays(tables: nat, batch: nat, total: nat, ss: seq<Sys>, steps: seq<Step>,
                                        i: nat, j: nat)
    requires Run(tables, batch, total, ss, steps) && i <= j < |ss|
    ensures ss[i].ledger.allDone <= ss[j].ledger.allDone
    decreases j
  {
    if i < j {
      SettledStays(tables, batch, total, ss, steps, i, j - 1);
      assert Next(tables, batch, total, ss[j - 1], steps[j - 1], ss[j]);
      SettledGrows(tables, batch, total, ss[j - 1], steps[j - 1], ss[j]);
    }
  }

  lemma SettledGrows(tables: nat, batch: nat, total: nat, s: Sys, step: Step, s': Sys)
    requires Next(tables, batch, total, s, step, s')
    ensures s.ledger.allDone <= s'.ledger.allDone
  {
  }

  /** Slots flushed to every table and due for a report. */
  ghost predicate Overdue(batch: nat, total: nat, s: Sys, due: set<nat>) {
    && s.ledger.flushDone != []
    && due <= Common(s.ledger.flushDone)
    && !HeldBack(Common(s.ledger.flushDone), s.ledger.allDone, batch, total)
  }

  /** What is due for a report stays due when more is flushed. */
  lemma StillOverdue(fd: seq<set<nat>>, allDone: set<nat>, table: nat, slots: set<nat>, batch: nat, total: nat)
    requires table < |fd| && !HeldBack(Common(fd), allDone, batch, total)
    ensures var next := Common(Flushed(Ledger(fd, allDone), table, slots));
            Common(fd) <= next && !HeldBack(next, allDone, batch, total)
  {
    var next := Flushed(Ledger(fd, allDone), table, slots);
    forall n | n in Common(fd) ensures n in Common(next) {
      assert forall i | 0 <= i < |next| :: n in fd[i] && n in next[i];
    }
    SpanGrows(Common(fd), Common(next));
  }

  /** What is overdue stays so until a worker finishes, who then settles it. */
  lemma OverdueStep(tables: nat, batch: nat, total: nat, s: Sys, step: Step, s': Sys, due: set<nat>)
    requires Next(tables, batch, total, s, step, s') && Overdue(batch, total, s, due)
    ensures step.Finish? ==> due <= ReportOf(batch, total, s, step) && due <= s'.ledger.allDone
    ensures !step.Finish? ==> Overdue(batch, total, s', due)
  {
    if step.Finish? || step.FailReporting? {
      var t := s.tasks[step.id];
      StillOverdue(s.ledger.flushDone, s.ledger.allDone, t.table, t.slots, batch, total);
    }
  }

  /** Some worker finishes in a step after `a` and before `b`. */
  ghost predicate FinishBetween(steps: seq<Step>, a: nat, b: nat)
    requires b <= |steps|
  {
    exists k :: a < k < b && steps[k].Finish?
  }

  /** What got out of a report cut short is overdue until the next worker finishes, and settled
      from then on. */
  lemma {:induction false} CutFate(tables: nat, batch: nat, total: nat, ss: seq<Sys>, steps: seq<Step>, a: nat, j: nat)
    requires Run(tables, batch, total, ss, steps) && a < j < |ss| && steps[a].FailReporting? && steps[a].part != {}
    ensures if FinishBetween(steps, a, j) then steps[a].part <= ss[j].ledger.allDone
            else Overdue(batch, total, ss[j], steps[a].part)
    decreases j
  {
    var part := steps[a].part;
    if j == a + 1 {
      assert Next(tables, batch, total, ss[a], steps[a], ss[j]);
    } else {
      CutFate(tables, batch, total, ss, steps, a, j - 1);
      assert Next(tables, batch, total, ss[j - 1], steps[j - 1], ss[j]);
      if FinishBetween(steps, a, j - 1) {
        SettledStays(tables, batch, total, ss, steps, j - 1, j);
        assert FinishBetween(steps, a, j);
      } else {
        OverdueStep(tables, batch, total, ss[j - 1], steps[j - 1], ss[j], part);
        assert FinishBetween(steps, a, j) <==> steps[j - 1].Finish?;
      }
    }
  }

  /** In every run: two reports overlap only if the earlier one was cut short and no worker
      finished between them. The next worker to finish after a cut reports again all that got
      out of it, so with a finishing worker the condition is exact. */
  lemma OverlapIff(tables: nat, batch: nat, total: nat, ss: seq<Sys>, steps: seq<Step>, a: nat, b: nat)
    requires Run(tables, batch, total, ss, steps) && a < b < |steps|
    ensures var x, y := ReportOf(batch, total, ss[a], steps[a]), ReportOf(batch, total, ss[b], steps[b]);
            var cutBefore := steps[a].FailReporting? && x != {} && !FinishBetween(steps, a, b);
            && (x * y != {} ==> cutBefore)
            && (steps[b].Finish? && cutBefore ==> x <= y)
            && (steps[b].Finish? ==> (x * y != {} <==> cutBefore))
  {
    RunReportsStoredOnce(tables, batch, total, ss, steps, a);
    RunReportsStoredOnce(tables, batch, total, ss, steps, b);
    ReportIsNew(tables, batch, total, ss[a], steps[a], ss[a + 1]);
    ReportIsNew(tables, batch, total, ss[b], steps[b], ss[b + 1]);
    SettledStays(tables, batch, total, ss, steps, a + 1, b);
    if steps[a].FailReporting? && steps[a].part != {} {
      CutFate(tables, batch, total, ss, steps, a, b);
      if !FinishBetween(steps, a, b) {
        OverdueStep(tables, batch, total, ss[b], steps[b], ss[b + 1], steps[a].part);
      }
    }
  }

  // -------------------------------------------- a cut report, in the form it is sent in

  /** `part` is what the first `k` ranges hold. */
  ghost predicate HeldByFirst(ps: seq<Range>, k: nat, part: set<nat>)
    requires k <= |ps|
  {
    forall n: nat :: n in part <==> InRanges(ps[..k], n)
  }

  /** Ranges of the set start exactly where the pieces of its range set do. */
  lemma PieceStarts(rs: RangeSet, report: set<nat>, n: nat)
    requires rs.Valid() && forall m: nat :: m in report <==> rs.Contains(m)
    ensures StartsRange(report, n) <==> exists k :: 0 <= k < |Pieces(rs)| && Pieces(rs)[k].start == n
  {
    var ps := Pieces(rs);
    PiecesAreRuns(rs);
    if StartsRange(report, n) {
      var k :| 0 <= k < |ps| && ps[k].Contains(n);
      assert n > 0 ==> !InRanges(ps, n - 1);
      assert n > 0 ==> !ps[k].Contains(n - 1);
      assert ps[k].start == n;
    }
    if k :| 0 <= k < |ps| && ps[k].start == n {
      assert ps[k].Contains(n) && InRanges(ps, n);
      BeforeStartIsOutside(ps, k);
    }
  }

  lemma CutBelow(rs: RangeSet, report: set<nat>, part: set<nat>, k: nat)
    requires rs.Valid() && (forall m: nat :: m in report <==> rs.Contains(m)) && k < |Pieces(rs)|
    ensures part == Below(report, Pieces(rs)[k].start) <==> HeldByFirst(Pieces(rs), k, part)
  {
    var ps := Pieces(rs);
    PiecesAreRuns(rs);
    forall m: nat ensures m in Below(report, ps[k].start) <==> InRanges(ps[..k], m) {
      BelowStart(ps, k, m);
    }
  }

  /** A report is cut short exactly after some, but not all, of its ranges. */
  lemma CutOffIff(rs: RangeSet, report: set<nat>, part: set<nat>)
    requires rs.Valid() && forall m: nat :: m in report <==> rs.Contains(m)
    ensures CutOff(report, part) <==> exists k :: 0 <= k < |Pieces(rs)| && HeldByFirst(Pieces(rs), k, part)
  {
    var ps := Pieces(rs);
    if n :| StartsRange(report, n) && part == Below(report, n) {
      PieceStarts(rs, report, n);
      var k :| 0 <= k < |ps| && ps[k].start == n;
      CutBelow(rs, report, part, k);
    }
    if k :| 0 <= k < |ps| && HeldByFirst(ps, k, part) {
      CutBelow(rs, report, part, k);
      PieceStarts(rs, report, ps[k].start);
    }
  }

  // ------------------------------------------------------------ a run that reports twice

  ghost function Start(): Sys {
    var none := seq(1, _ => {});
    Sys({}, none, map[], none, Ledger(none, {}), [], true, false, false)
  }

  /** Slot `n` is fed to the one table, handed out as task `n`, and inserted. */
  ghost function AfterInsert(s: Sys, n: nat): Sys
    requires |s.stored| == 1
  {
    s.(fed := s.fed + {n}, cached := [{}], tasks := s.tasks[n := Task(0, {n}, true)], stored := [s.stored[0] + {n}])
  }

  lemma RunOn(tables: nat, batch: nat, total: nat, ss: seq<Sys>, steps: seq<Step>, step: Step, s: Sys)
    requires Run(tables, batch, total, ss, steps) && Next(tables, batch, total, ss[|steps|], step, s)
    ensures Run(tables, batch, total, ss + [s], steps + [step])
  {
  }

  lemma InsertSlot(batch: nat, total: nat, ss: seq<Sys>, steps: seq<Step>, n: nat)
    returns (ss': seq<Sys>, steps': seq<Step>)
    requires Run(1, batch, total, ss, steps)
    requires var s := ss[|steps|]; |s.stored| == 1 && s.cached == [{}] && s.feeding && n !in s.fed && n !in s.tasks
    ensures Run(1, batch, total, ss', steps') && |steps'| == |steps| + 3
    ensures ss'[|steps'|] == AfterInsert(ss[|steps|], n)
  {
    var s := ss[|steps|];
    var a := s.(fed := s.fed + {n}, cached := [{n}]);
    assert a.cached == seq(|s.cached|, i requires 0 <= i < |s.cached| => s.cached[i] + {n}) by {
      assert {} + {n} == {n};
    }
    var b := a.(tasks := a.tasks[n := Task(0, {n}, false)], cached := [{}]);
    assert a.cached[0 := {}] == [{}];
    var c := AfterInsert(s, n);
    assert b.tasks[n := Task(0, {n}, true)] == c.tasks;
    assert b.stored[0 := b.stored[0] + {n}] == c.stored;
    RunOn(1, batch, total, ss, steps, Feed(n), a);
    RunOn(1, batch, total, ss + [a], steps + [Feed(n)], HandOut(0, n), b);
    RunOn(1, batch, total, ss + [a] + [b], steps + [Feed(n)] + [HandOut(0, n)], Insert(n), c);
    ss', steps' := ss + [a] + [b] + [c], steps + [Feed(n)] + [HandOut(0, n)] + [Insert(n)];
  }

  lemma ThreeInserted() returns (ss: seq<Sys>, steps: seq<Step>)
    ensures Run(1, 3, 3, ss, steps) && |steps| == 9
    ensures ss[9].ledger == Ledger([{}], {}) && ss[9].reported == []
    ensures ss[9].tasks == map[0 := Task(0, {0}, true), 1 := Task(0, {1}, true), 2 := Task(0, {2}, true)]
  {
    var s := Start();
    assert s.cached == [{}] && s.ledger.flushDone == [{}];
    ss, steps := [s], [];
    assert Run(1, 3, 3, ss, steps);
    ss, steps := InsertSlot(3, 3, ss, steps, 0);
    ss, steps := InsertSlot(3, 3, ss, steps, 1);
    ss, steps := InsertSlot(3, 3, ss, steps, 2);
  }

  /** With one table, what is flushed is common to all. */
  lemma OneTable(done: set<nat>, slots: set<nat>)
    ensures Flushed(Ledger([done], {}), 0, slots) == [done + slots]
    ensures Common([done + slots]) == done + slots
  {
    assert Flushed(Ledger([done], {}), 0, slots) == [done + slots];
    forall n ensures n in Common([done + slots]) <==> n in done + slots {
      assert InAll([done + slots], n) <==> n in [done + slots][0];
    }
  }

  lemma SpanOf(s: set<nat>, lo: nat, hi: nat)
    requires lo in s && hi in s && forall n | n in s :: lo <= n <= hi
    ensures Span(s) == hi + 1 - lo
  {
  }

  /** A batch of three: slot 0 alone is held back. */
  lemma HeldBackAlone()
    ensures Reports(Ledger([{}], {}), 0, {0}, 3, 3) == {} && Settle(Ledger([{}], {}), 0, {0}, 3, 3) == Ledger([{0}], {})
  {
    OneTable({}, {0});
    assert {} + {0} == {0};
    SpanOf({0}, 0, 0);
  }

  /** With slot 2 the covering range is large enough; the report has two ranges, and may be cut
      short after the first. */
  lemma CutAfterFirst()
    ensures Flushed(Ledger([{0}], {}), 0, {2}) == [{0, 2}]
    ensures CutOff(Reports(Ledger([{0}], {}), 0, {2}, 3, 3), {0})
  {
    OneTable({0}, {2});
    assert {0} + {2} == {0, 2};
    SpanOf({0, 2}, 0, 2);
    assert StartsRange({0, 2}, 2) && Below({0, 2}, 2) == {0};
  }

  /** A slot is reported twice: of three tasks inserted the first is held back, the report of the
      third is cut short after slot 0 got out, and the second one finishes. */
  lemma ReportedTwice() returns (ss: seq<Sys>, steps: seq<Step>)
    ensures Run(1, 3, 3, ss, steps) && |steps| == 12
    ensures steps[9] == Finish(0) && steps[10] == FailReporting(2, {0}) && steps[11] == Finish(1)
    ensures |ss[12].reported| == 3 && 0 in ss[12].reported[1] && 0 in ss[12].reported[2]
  {
    ss, steps := ThreeInserted();
    var s := ss[9];
    HeldBackAlone();
    var a := s.(tasks := s.tasks - {0}, ledger := Ledger([{0}], {}), reported := s.reported + [{}]);
    RunOn(1, 3, 3, ss, steps, Finish(0), a);
    CutAfterFirst();
    var b := a.(tasks := a.tasks - {2}, ledger := Ledger([{0, 2}], {}), reported := a.reported + [{0}],
                failed := true, cut := true);
    RunOn(1, 3, 3, ss + [a], steps + [Finish(0)], FailReporting(2, {0}), b);
    var c := b.(tasks := b.tasks - {1}, ledger := Settle(b.ledger, 0, {1}, 3, 3),
                reported := b.reported + [Reports(b.ledger, 0, {1}, 3, 3)]);
    RunOn(1, 3, 3, ss + [a] + [b], steps + [Finish(0)] + [FailReporting(2, {0})], Finish(1), c);
    ss, steps := ss + [a] + [b] + [c], steps + [Finish(0)] + [FailReporting(2, {0})] + [Finish(1)];
    OverlapIff(1, 3, 3, ss, steps, 10, 11);
    assert !FinishBetween(steps, 10, 11);
  }

  /** While no report was cut short, the slots in every table that are not reported are none, or
      span less than a batch and do not complete the interval. */
  lemma UncutRunHoldsLittle(tables: nat, batch: nat, total: nat, ss: seq<Sys>, steps: seq<Step>, i: nat, held: set<nat>)
    requires Run(tables, batch, total, ss, steps) && i < |ss| && !ss[i].cut
    requires forall n :: n in held <==> forall k | 0 <= k < |ss[i].ledger.flushDone| :: n in ss[i].ledger.flushDone[k]
    ensures held == {} || (Span(held) < batch && Span(held) + Span(ss[i].ledger.allDone) < total)
  {
    RunReportsStoredOnce(tables, batch, total, ss, steps, i);
    assert held == Common(ss[i].ledger.flushDone);
  }

  /** The feed ended, every cache was handed out and every task finished. */
  ghost predicate Succeeded(s: Sys) {
    !s.failed && !s.feeding && s.tasks == map[] && forall i | 0 <= i < |s.cached| :: s.cached[i] == {}
  }

  ghost predicate Reported(s: Sys, n: nat) {
    exists a | 0 <= a < |s.reported| :: n in s.reported[a]
  }

  /** A successful save that was fed as many slots as its interval has (so, when only slots of
      the interval are fed, exactly those) has reported exactly what it was fed. */
  lemma SuccessReportsAll(tables: nat, batch: nat, total: nat, s: Sys)
    requires Inv(tables, batch, total, s) && Succeeded(s) && |s.fed| >= total
    ensures forall n :: Reported(s, n) <==> n in s.fed
  {
    var fd := s.ledger.flushDone;
    var left := Common(fd);
    forall i, n | 0 <= i < tables && n in s.fed
      ensures n in fd[i] || n in s.ledger.allDone
    {
      assert !Pending(s, i, n);
    }
    forall n
      ensures n in left <==> n in s.fed && n !in s.ledger.allDone
    {
      if n in left {
        assert n in fd[0];
      }
    }
    assert s.fed == left + s.ledger.allDone;
    assert |s.fed| == |left| + |s.ledger.allDone|;
    SpanBoundsSize(left);
    SpanBoundsSize(s.ledger.allDone);
  }
}
