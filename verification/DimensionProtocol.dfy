/** Saves and deletes on one dimension (chain/chain/dimension_simple.go,
    chain/chain/operation.go), step by step, with a failure possible between any two steps.
    Several saves may run side by side, as a copy to both sides of the recorded range does,
    and a delete runs alone. */
module DimensionProtocol {
  import opened Options
  import opened Ranges
  import opened SimpleDimension

  /** One running save. `cur` and `seed` are the updater's local copies, `completed` the slots
      reported to it so far, `reports` those on the way. A store clears the interval first. */
  datatype Saver = Saver(interval: Range, clearing: bool, cur: Range, seed: Range,
                         completed: set<nat>, reports: seq<set<nat>>)

  /** `data`: slots whose rows are all stored. */
  datatype Sys = Sys(record: Range, data: set<nat>, savers: map<nat, Saver>, deleting: Option<Range>)

  datatype Step =
    | StartSave(id: nat, interval: Range)
    | Clear(id: nat, gone: set<nat>)
    | ClearDone(id: nat)
    | Insert(id: nat, n: nat)
    | Report(id: nat, done: set<nat>)
    | Update(id: nat)
    | EndSave(id: nat)
    | CleanUp(gone: set<nat>)
    | StartDelete(target: Range)
    | Erase(gone: set<nat>)
    | EndDelete

  ghost predicate Disjoint(a: Range, b: Range) {
    forall n: nat | a.Contains(n) :: !b.Contains(n)
  }

  /** A new save must keep clear of the recorded range and of other running saves; only one
      save may run while nothing is recorded. */
  ghost predicate MayStart(s: Sys, interval: Range) {
    && interval.end.Fin?
    && Disjoint(s.record, interval) && s.record.GetDistance(interval) == 0
    && s.deleting.None?
    && (forall j | j in s.savers :: Disjoint(s.savers[j].interval, interval))
    && (s.record.IsEmpty() ==> s.savers == map[])
  }

  ghost function NewSaver(record: Range, interval: Range): Saver {
    Saver(interval, true, record, if record.IsEmpty() then NewSingleRange(interval.start) else record, {}, [])
  }

  ghost predicate Running(s: Sys, id: nat) { id in s.savers }

  /** The save after its updater took the next report. */
  ghost function Taken(sv: Saver, cur': Range): Saver
    requires sv.reports != []
  {
    sv.(cur := cur', completed := sv.completed + sv.reports[0], reports := sv.reports[1..])
  }

  ghost predicate Updated(s: Sys, id: nat, s': Sys)
    requires id in s.savers && s.savers[id].cur.end.Fin?
  {
    var sv := s.savers[id];
    && sv.reports != []
    && exists ok, cur', record' ::
         && Advances(sv.completed + sv.reports[0], sv.seed, sv.cur, s.record, ok, cur', record')
         && s' == if ok
                  then s.(record := record',
                          savers := s.savers[id := Taken(sv, cur')])
                  else s.(savers := s.savers - {id})
  }

  /** Right of the record, or anywhere when nothing is recorded. */
  ghost predicate RightOf(record: Range, n: nat) { record.IsEmpty() || Less(record.end, Fin(n)) }

  /** `CleanUp` is a part of what Init erases before anything else runs. */
  ghost predicate Next(s: Sys, step: Step, s': Sys) {
    match step
    case StartSave(id, interval) =>
      id !in s.savers && MayStart(s, interval) && s' == s.(savers := s.savers[id := NewSaver(s.record, interval)])
    case Clear(id, gone) =>
      && id in s.savers && s.savers[id].clearing && (forall n | n in gone :: s.savers[id].interval.Contains(n))
      && s' == s.(data := s.data - gone)
    case ClearDone(id) =>
      id in s.savers && s' == s.(savers := s.savers[id := s.savers[id].(clearing := false)])
    case Insert(id, n) =>
      && id in s.savers && !s.savers[id].clearing && s.savers[id].interval.Contains(n) && s' == s.(data := s.data + {n})
    case Report(id, done) =>
      && id in s.savers && !s.savers[id].clearing
      && (forall n | n in done :: n in s.data && s.savers[id].interval.Contains(n))
      && s' == s.(savers := s.savers[id := s.savers[id].(reports := s.savers[id].reports + [done])])
    case Update(id) => id in s.savers && s.savers[id].cur.end.Fin? && Updated(s, id, s')
    case EndSave(id) => s' == s.(savers := s.savers - {id})
    case CleanUp(gone) =>
      && s.savers == map[] && s.deleting.None? && (forall n | n in gone :: RightOf(s.record, n))
      && s' == s.(data := s.data - gone)
    case StartDelete(target) =>
      && s.savers == map[] && s.deleting.None?
      && s' == s.(record := s.record.Remove(target).First(), deleting := Some(target))
    case Erase(gone) =>
      && s.deleting.Some? && (forall n | n in gone :: s.deleting.value.Contains(n)) && s' == s.(data := s.data - gone)
    case EndDelete => s' == s.(deleting := None)
  }

  /** The promise: every slot in the recorded range has its data stored. */
  ghost predicate Stored(s: Sys) {
    s.record.end.Fin? && forall n: nat | s.record.Contains(n) :: n in s.data
  }

  /** `n` is complete and joined to the seed by complete slots. */
  ghost predicate Joined(completed: set<nat>, seed: Range, n: nat)
    requires seed.end.Fin?
  {
    && n in completed
    && (forall m: nat | n <= m < seed.start :: m in completed)
    && (forall m: nat | seed.end.n < m <= n :: m in completed)
  }

  ghost predicate SaverOk(record: Range, data: set<nat>, sv: Saver) {
    && sv.interval.end.Fin? && sv.cur.end.Fin? && sv.seed.end.Fin? && !sv.seed.IsEmpty()
    && sv.seed.GetDistance(sv.interval) == 0
    && (forall n: nat | sv.cur.Contains(n) :: record.Contains(n))
    && (if sv.cur.IsEmpty() then sv.seed == NewSingleRange(sv.interval.start) else sv.cur.Include(sv.seed))
    && (record.IsEmpty() || record.Include(sv.seed))
    && (forall n | n in sv.completed :: n in data && sv.interval.Contains(n))
    && (forall k, n | 0 <= k < |sv.reports| && n in sv.reports[k] :: n in data && sv.interval.Contains(n))
    && (sv.clearing ==> sv.completed == {} && sv.reports == [] && Disjoint(record, sv.interval))
    && (forall n: nat | Joined(sv.completed, sv.seed, n) :: record.Contains(n))
  }

  ghost predicate Inv(s: Sys) {
    && Stored(s)
    && (forall i | i in s.savers :: SaverOk(s.record, s.data, s.savers[i]))
    && (forall i, j | i in s.savers && j in s.savers && i != j :: Disjoint(s.savers[i].interval, s.savers[j].interval))
    && (s.deleting.Some? ==> s.savers == map[] && Disjoint(s.record, s.deleting.value))
    && (s.record.IsEmpty() ==> forall i, j | i in s.savers && j in s.savers :: i == j)
  }

  /** The range found reaches every slot joined to the seed. */
  lemma RunReaches(completed: set<nat>, cur: Range, seed: Range, r: Range)
    requires cur.end.Fin? && seed.end.Fin? && !seed.IsEmpty()
    requires RunAround(completed + cur.Elements(), seed, r)
    ensures forall n: nat | Joined(completed, seed, n) :: r.Contains(n)
  {
  }

  /** Two ranges that share the seed cover no more than they hold. */
  lemma CoverIsUnion(a: Range, b: Range, seed: Range)
    requires a.end.Fin? && b.end.Fin? && !seed.IsEmpty() && a.Include(seed) && !a.IsEmpty()
    requires b.IsEmpty() || b.Include(seed)
    ensures a.Cover(b).end.Fin?
    ensures forall n: nat :: a.Cover(b).Contains(n) <==> a.Contains(n) || b.Contains(n)
  {
  }

  /** What an accepted update makes of the record and of the updater's copy. */
  ghost predicate Grown(record: Range, data: set<nat>, sv: Saver, cur': Range, record': Range) {
    && record'.end.Fin? && cur'.end.Fin?
    && (forall n: nat | record.Contains(n) :: record'.Contains(n))
    && (forall n: nat | record'.Contains(n) && !record.Contains(n) :: n in data && sv.interval.Contains(n))
    && (forall n: nat | cur'.Contains(n) :: record'.Contains(n))
    && !cur'.IsEmpty() && cur'.Include(sv.seed) && record'.Include(sv.seed)
  }

  lemma RunGrows(record: Range, data: set<nat>, sv: Saver, done: set<nat>, r: Range)
    requires SaverOk(record, data, sv) && record.end.Fin?
    requires forall n | n in done :: n in data && sv.interval.Contains(n)
    requires RunAround(done + sv.cur.Elements(), sv.seed, r)
    ensures Grown(record, data, sv, r.Cover(record), r.Cover(record))
    ensures forall n: nat | Joined(done, sv.seed, n) :: r.Cover(record).Contains(n)
  {
    CoverIsUnion(r, record, sv.seed);
    RunReaches(done, sv.cur, sv.seed, r);
    forall n: nat | r.Contains(n) && !record.Contains(n)
      ensures n in data && sv.interval.Contains(n)
    {
      assert n in done + sv.cur.Elements() && n !in sv.cur.Elements();
    }
  }

  lemma RunUnchanged(record: Range, data: set<nat>, sv: Saver, done: set<nat>, r: Range)
    requires SaverOk(record, data, sv) && record.end.Fin?
    requires RunAround(done + sv.cur.Elements(), sv.seed, r) && sv.cur.Equal(r)
    ensures Grown(record, data, sv, sv.cur, record)
    ensures forall n: nat | Joined(done, sv.seed, n) :: record.Contains(n)
  {
    RunReaches(done, sv.cur, sv.seed, r);
    IncludeIsSubset(sv.cur, r);
    assert sv.cur.Contains(r.start);
  }

  lemma AdvanceGrows(record: Range, data: set<nat>, sv: Saver, done: set<nat>, cur': Range, record': Range)
    requires SaverOk(record, data, sv) && record.end.Fin?
    requires forall n | n in done :: n in data && sv.interval.Contains(n)
    requires Advances(done, sv.seed, sv.cur, record, true, cur', record')
    ensures Grown(record, data, sv, cur', record')
    ensures forall n: nat | Joined(done, sv.seed, n) :: record'.Contains(n)
  {
    var r :| RunAround(done + sv.cur.Elements(), sv.seed, r) &&
             if sv.cur.Equal(r) then cur' == sv.cur && record' == record
             else record' == r.Cover(record) && cur' == record';
    if sv.cur.Equal(r) {
      RunUnchanged(record, data, sv, done, r);
    } else {
      RunGrows(record, data, sv, done, r);
    }
  }

  /** A save not involved in an update stays in order. */
  lemma BystanderOk(record: Range, data: set<nat>, sv: Saver, other: Saver, cur': Range, record': Range)
    requires SaverOk(record, data, other) && Grown(record, data, sv, cur', record')
    requires Disjoint(sv.interval, other.interval) && !record.IsEmpty()
    ensures SaverOk(record', data, other)
  {
    IncludeIsSubset(record', record);
    IncludeIsSubset(record, other.seed);
    IncludeIsSubset(record', other.seed);
  }

  lemma UpdaterOk(record: Range, data: set<nat>, sv: Saver, cur': Range, record': Range)
    requires SaverOk(record, data, sv) && sv.reports != []
    requires Grown(record, data, sv, cur', record')
    requires forall n: nat | Joined(sv.completed + sv.reports[0], sv.seed, n) :: record'.Contains(n)
    ensures SaverOk(record', data, Taken(sv, cur'))
  {
    assert !sv.clearing;
  }

  lemma UpdateKeeps(s: Sys, id: nat, s': Sys)
    requires Inv(s) && Next(s, Update(id), s')
    ensures Inv(s')
  {
    var sv := s.savers[id];
    var done := sv.completed + sv.reports[0];
    var ok, cur', record' :| Advances(done, sv.seed, sv.cur, s.record, ok, cur', record') &&
      s' == if ok
            then s.(record := record', savers := s.savers[id := Taken(sv, cur')])
            else s.(savers := s.savers - {id});
    if ok {
      UpdateGrows(s.record, s.data, sv, cur', record');
      AcceptedKeeps(s, id, cur', record', s');
    }
  }

  lemma UpdateGrows(record: Range, data: set<nat>, sv: Saver, cur': Range, record': Range)
    requires SaverOk(record, data, sv) && record.end.Fin? && sv.reports != []
    requires Advances(sv.completed + sv.reports[0], sv.seed, sv.cur, record, true, cur', record')
    ensures Grown(record, data, sv, cur', record')
    ensures forall n: nat | Joined(sv.completed + sv.reports[0], sv.seed, n) :: record'.Contains(n)
  {
    assert forall n | n in sv.completed + sv.reports[0] :: n in data && sv.interval.Contains(n);
    AdvanceGrows(record, data, sv, sv.completed + sv.reports[0], cur', record');
  }

  lemma AcceptedKeeps(s: Sys, id: nat, cur': Range, record': Range, s': Sys)
    requires Inv(s) && id in s.savers && s.savers[id].reports != []
    requires Grown(s.record, s.data, s.savers[id], cur', record')
    requires var sv := s.savers[id];
      forall n: nat | Joined(sv.completed + sv.reports[0], sv.seed, n) :: record'.Contains(n)
    requires var sv := s.savers[id];
      s' == s.(record := record',
               savers := s.savers[id := Taken(sv, cur')])
    ensures Inv(s')
  {
    UpdaterOk(s.record, s.data, s.savers[id], cur', record');
    forall j | j in s'.savers
      ensures SaverOk(s'.record, s'.data, s'.savers[j])
    {
      if j != id {
        BystanderOk(s.record, s.data, s.savers[id], s.savers[j], cur', record');
      }
    }
  }

  lemma StartKeeps(s: Sys, id: nat, interval: Range, s': Sys)
    requires Inv(s) && Next(s, StartSave(id, interval), s')
    ensures Inv(s')
  {
    var sv := NewSaver(s.record, interval);
    assert forall n: nat :: !Joined(sv.completed, sv.seed, n);
    assert SaverOk(s.record, s.data, sv);
  }

  lemma ClearedKeeps(s: Sys, id: nat, s': Sys)
    requires Inv(s) && Next(s, ClearDone(id), s')
    ensures Inv(s')
  {
    assert SaverOk(s.record, s.data, s.savers[id].(clearing := false));
  }

  lemma EndKeeps(s: Sys, id: nat, s': Sys)
    requires Inv(s) && Next(s, EndSave(id), s')
    ensures Inv(s')
  {
    forall i | i in s'.savers ensures SaverOk(s'.record, s'.data, s'.savers[i]) {
      assert SaverOk(s.record, s.data, s.savers[i]);
    }
  }

  lemma ReportKeeps(s: Sys, id: nat, done: set<nat>, s': Sys)
    requires Inv(s) && Next(s, Report(id, done), s')
    ensures Inv(s')
  {
    var sv := s.savers[id];
    assert SaverOk(s.record, s.data, sv.(reports := sv.reports + [done]));
  }

  lemma ClearKeeps(s: Sys, id: nat, gone: set<nat>, s': Sys)
    requires Inv(s) && Next(s, Clear(id, gone), s')
    ensures Inv(s')
  {
    forall j | j in s.savers
      ensures SaverOk(s'.record, s'.data, s'.savers[j])
    {
      assert j != id ==> Disjoint(s.savers[id].interval, s.savers[j].interval);
    }
  }

  lemma DataKeeps(s: Sys, step: Step, s': Sys)
    requires Inv(s) && Next(s, step, s') && (step.Insert? || step.Erase? || step.CleanUp?)
    ensures Inv(s')
  {
  }

  lemma DeleteKeeps(s: Sys, step: Step, s': Sys)
    requires Inv(s) && Next(s, step, s') && (step.StartDelete? || step.EndDelete?)
    ensures Inv(s')
  {
    if step.StartDelete? {
      assert s.record.Remove(step.target).First().end.Fin?;
    }
  }

  lemma StepKeepsInv(s: Sys, step: Step, s': Sys)
    requires Inv(s) && Next(s, step, s')
    ensures Inv(s')
  {
    match step
    case StartSave(id, interval) => StartKeeps(s, id, interval, s');
    case Update(id) => UpdateKeeps(s, id, s');
    case Clear(id, gone) => ClearKeeps(s, id, gone, s');
    case ClearDone(id) => ClearedKeeps(s, id, s');
    case Report(id, done) => ReportKeeps(s, id, done, s');
    case EndSave(id) => EndKeeps(s, id, s');
    case StartDelete(_) => DeleteKeeps(s, step, s');
    case EndDelete => DeleteKeeps(s, step, s');
    case _ => DataKeeps(s, step, s');
  }

  ghost predicate Run(ss: seq<Sys>, steps: seq<Step>) {
    && |ss| == |steps| + 1
    && Stored(ss[0]) && ss[0].savers == map[] && ss[0].deleting.None?
    && forall i, j | 0 <= i < |steps| && j == i + 1 :: Next(ss[i], steps[i], ss[j])
  }

  /** At every step of every run, also right after a failure, the recorded range holds only
      slots whose data is stored. */
  lemma {:induction false} RunStaysStored(ss: seq<Sys>, steps: seq<Step>, i: nat)
    requires Run(ss, steps) && i < |ss|
    ensures Inv(ss[i]) && Stored(ss[i])
  {
    if i > 0 {
      RunStaysStored(ss, steps, i - 1);
      StepKeepsInv(ss[i - 1], steps[i - 1], ss[i]);
    }
  }

  /** A save whose every slot was reported and whose every
      report was taken, has all of its interval recorded. */
  lemma CompleteSaveIsRecorded(s: Sys, id: nat)
    requires Inv(s) && id in s.savers && s.savers[id].completed == s.savers[id].interval.Elements()
    ensures forall n: nat | s.savers[id].interval.Contains(n) :: s.record.Contains(n)
  {
    var sv := s.savers[id];
    forall n: nat | sv.interval.Contains(n)
      ensures s.record.Contains(n)
    {
      if sv.seed.Contains(n) {
        assert Joined(sv.completed, sv.seed, n);
      } else {
        assert Joined(sv.completed, sv.seed, n);
      }
    }
  }

  /** The updater refuses a report exactly when nothing is recorded and the first slot of the
      interval is not among those complete: reports out of order fail a save into an empty
      dimension. */
  lemma RefusedIff(s: Sys, id: nat, done: set<nat>, ok: bool, cur': Range, record': Range)
    requires Inv(s) && id in s.savers
    requires Advances(done, s.savers[id].seed, s.savers[id].cur, s.record, ok, cur', record')
    ensures !ok <==> s.savers[id].cur.IsEmpty() && s.savers[id].interval.start !in done
  {
    var sv := s.savers[id];
    var all := done + sv.cur.Elements();
    if sv.cur.IsEmpty() && sv.interval.start !in done {
      forall r ensures !RunAround(all, sv.seed, r) {
        assert sv.interval.start !in all;
        assert r.Include(sv.seed) && !r.IsEmpty() ==> r.Contains(sv.interval.start);
      }
    } else {
      var r := RunExists(all, sv.seed);
    }
  }

  /** A run that ends in a refusal: into an empty dimension slots 0 and 1 are saved, and slot 1
      is reported first. The save is over, and its data stays behind unrecorded. */
  lemma RefusedRun() returns (ss: seq<Sys>, steps: seq<Step>)
    ensures Run(ss, steps) && |steps| == 5 && ss[0] == Sys(EMPTY_RANGE, {}, map[], None)
    ensures steps[0] == StartSave(0, NewRange(0, 1)) && steps[3] == Report(0, {1}) && steps[4] == Update(0)
    ensures 0 in ss[4].savers && ss[5] == Sys(EMPTY_RANGE, {1}, map[], None)
  {
    var s0 := Sys(EMPTY_RANGE, {}, map[], None);
    var sv := NewSaver(EMPTY_RANGE, NewRange(0, 1));
    var s1 := s0.(savers := map[0 := sv]);
    var s2 := s0.(savers := map[0 := sv.(clearing := false)]);
    var s3 := s2.(data := {1});
    var s4 := s3.(savers := map[0 := sv.(clearing := false, reports := [{1}])]);
    var s5 := s3.(savers := map[]);
    assert Next(s0, StartSave(0, NewRange(0, 1)), s1);
    assert Next(s1, ClearDone(0), s2) && Next(s2, Insert(0, 1), s3);
    assert Next(s3, Report(0, {1}), s4) by { assert [] + [{1}] == [{1}]; }
    RefusedUpdate(s4, s5);
    ss, steps := [s0, s1, s2, s3, s4, s5],
      [StartSave(0, NewRange(0, 1)), ClearDone(0), Insert(0, 1), Report(0, {1}), Update(0)];
  }

  lemma RefusedUpdate(s: Sys, s': Sys)
    requires s.record == EMPTY_RANGE && s'.record == EMPTY_RANGE && s'.data == s.data && s'.deleting == s.deleting
    requires 0 in s.savers && s'.savers == s.savers - {0}
    requires s.savers[0] == NewSaver(EMPTY_RANGE, NewRange(0, 1)).(clearing := false, reports := [{1}])
    ensures Next(s, Update(0), s')
  {
    var sv := s.savers[0];
    forall r ensures !RunAround({} + {1} + sv.cur.Elements(), sv.seed, r) {
      assert 0 !in {} + {1} + sv.cur.Elements();
      assert r.Include(sv.seed) && !r.IsEmpty() ==> r.Contains(0);
    }
    assert Advances(sv.completed + sv.reports[0], sv.seed, sv.cur, s.record, false, sv.cur, s.record);
  }

  /** A finite set that holds the seed has a run around it. */
  lemma RunExists(all: set<nat>, seed: Range) returns (r: Range)
    requires seed.end.Fin? && !seed.IsEmpty() && forall n: nat | seed.Contains(n) :: n in all
    ensures RunAround(all, seed, r)
  {
    r := seed;
    ghost var rest := all - seed.Elements();
    while r.end.n + 1 in all
      invariant r.end.Fin? && !r.IsEmpty() && r.Include(seed) && r.start == seed.start
      invariant forall n: nat | r.Contains(n) :: n in all
      invariant rest <= all && forall n | n in rest :: !r.Contains(n)
      invariant forall n | n in all && !r.Contains(n) :: n in rest
      decreases rest
    {
      rest := rest - {r.end.n + 1};
      r := Range(r.start, Fin(r.end.n + 1));
    }
    while r.start > 0 && r.start - 1 in all
      invariant r.end.Fin? && !r.IsEmpty() && r.Include(seed) && r.end.n + 1 !in all
      invariant forall n: nat | r.Contains(n) :: n in all
      decreases r.start
    {
      r := Range(r.start - 1, r.end);
    }
  }

  /** Clearing before saving keeps the promise, whatever part of it takes effect, exactly when
      the interval and the recorded range are disjoint. */
  lemma ClearIsSafeIffDisjoint(record: Range, data: set<nat>, interval: Range)
    requires interval.end.Fin? && Stored(Sys(record, data, map[], None))
    ensures Disjoint(record, interval) <==>
            forall gone: set<nat> :: gone <= interval.Elements() ==> Stored(Sys(record, data - gone, map[], None))
  {
    if !Disjoint(record, interval) {
      assert interval.Elements() <= interval.Elements();
      var n: nat :| record.Contains(n) && interval.Contains(n);
      assert n !in data - interval.Elements();
      assert !Stored(Sys(record, data - interval.Elements(), map[], None));
    }
  }
}
