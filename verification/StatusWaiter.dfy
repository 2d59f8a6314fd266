/** Waiting for a status that satisfies a checker (common/concurrency/status_waiter.go). */
module StatusWaiter {
  import opened Options

  /** A registered waiter: its checker, its one-slot signal, and the status that set it. */
  datatype Waiter<!S> = Waiter(checker: S -> bool, signal: bool, result: Option<S>)

  /** The waiters after publishing `s`. */
  ghost function Notified<S>(waiters: map<nat, Waiter<S>>, s: S): map<nat, Waiter<S>> {
    map id | id in waiters ::
      if waiters[id].checker(s) then waiters[id].(signal := true, result := Some(s)) else waiters[id]
  }

  /** The state behind the lock; each method is one locked section. */
  class Waiters<S> {
    var current: S
    var waiters: map<nat, Waiter<S>>
    var waiterID: nat

    ghost predicate Valid()
      reads this
    {
      forall id | id in waiters :: id < waiterID
    }

    constructor (initial: S)
      ensures Valid() && current == initial && waiters == map[]
    {
      current, waiters, waiterID := initial, map[], 0;
    }

    method NewStatus(s: S)
      requires Valid()
      modifies this`current, this`waiters
      ensures Valid() && current == s && waiters == Notified(old(waiters), s)
      ensures waiters.Keys == old(waiters).Keys
      ensures forall id | id in waiters ::
          var was, now := old(waiters)[id], waiters[id];
          && now.checker == was.checker
          && (now.signal <==> was.signal || was.checker(s))
          && now.result == if was.checker(s) then Some(s) else was.result
    {
      current := s;
      var left := waiters.Keys;
      while left != {}
        invariant current == s
        invariant left <= old(waiters).Keys == waiters.Keys
        invariant forall id | id in waiters ::
                    waiters[id] == if id in left then old(waiters)[id] else Notified(old(waiters), s)[id]
        decreases |left|
      {
        var id :| id in left;
        if waiters[id].checker(s) {
          waiters := waiters[id := waiters[id].(signal := true, result := Some(s))];
        }
        left := left - {id};
      }
    }

    /** The first section of Wait: the current status if it satisfies, else a registration. */
    method Begin(checker: S -> bool) returns (found: Option<S>, id: nat)
      requires Valid()
      modifies this`waiters, this`waiterID
      ensures Valid() && (found.Some? <==> checker(current))
      ensures found.Some? ==> found.value == current && waiters == old(waiters) && waiterID == old(waiterID)
      ensures found.None? ==> id !in old(waiters) && waiters == old(waiters)[id := Waiter(checker, false, None)]
      ensures found.None? ==> id == old(waiterID) && waiterID == id + 1
    {
      if checker(current) {
        return Some(current), 0;
      }
      id := waiterID;
      waiterID := waiterID + 1;
      waiters := waiters[id := Waiter(checker, false, None)];
      found := None;
    }

    /** Its last section. */
    method Deregister(id: nat)
      requires Valid()
      modifies this`waiters
      ensures Valid() && waiters == old(waiters) - {id}
    {
      waiters := waiters - {id};
    }
  }

  // ------------------------------------------------------------------------------ whole runs

  /** Where a call of Wait stands: registered and asleep, woken and about to read its result,
      returned with a status, or cancelled. */
  datatype Phase<+S> = Asleep | Woken | Got(status: S) | Cancelled

  datatype Sys<!S> = Sys(current: S, waiters: map<nat, Waiter<S>>, nextID: nat, calls: map<nat, (S -> bool, Phase<S>)>)

  datatype Step<!S> =
    | Publishes(status: S)
    | FindsNow(checker: S -> bool)
    | Registers(checker: S -> bool)
    | TakesSignal(id: nat)
    | ReadsResult(id: nat)
    | Cancels(id: nat)
    | Deregisters(id: nat)

  ghost function Moved<S>(s: Sys<S>, id: nat, p: Phase<S>): Sys<S>
    requires id in s.calls
  {
    s.(calls := s.calls[id := (s.calls[id].0, p)])
  }

  ghost predicate InPhase<S(!new)>(s: Sys<S>, id: nat, p: Phase<S>) { id in s.calls && s.calls[id].1 == p }

  ghost predicate Next<S(!new)>(s: Sys<S>, t: Sys<S>, step: Step<S>) {
    match step
    case Publishes(status) => t == s.(current := status, waiters := Notified(s.waiters, status))
    case FindsNow(checker) =>
      checker(s.current) && t == s.(nextID := s.nextID + 1, calls := s.calls[s.nextID := (checker, Got(s.current))])
    case Registers(checker) =>
      !checker(s.current)
      && t == s.(nextID := s.nextID + 1, waiters := s.waiters[s.nextID := Waiter(checker, false, None)],
                 calls := s.calls[s.nextID := (checker, Asleep)])
    case TakesSignal(id) =>
      InPhase(s, id, Asleep) && id in s.waiters && s.waiters[id].signal
      && t == Moved(s, id, Woken).(waiters := s.waiters[id := s.waiters[id].(signal := false)])
    case ReadsResult(id) =>
      InPhase(s, id, Woken) && id in s.waiters && s.waiters[id].result.Some?
      && t == Moved(s, id, Got(s.waiters[id].result.value))
    case Cancels(id) => InPhase(s, id, Asleep) && t == Moved(s, id, Cancelled)
    case Deregisters(id) =>
      id in s.calls && (s.calls[id].1.Got? || s.calls[id].1.Cancelled?) && t == s.(waiters := s.waiters - {id})
  }

  /** A call under way is registered. Its signal is set, or was taken, exactly when a result is
      recorded; the result satisfies its checker; asleep without signal, the current status
      does not. */
  ghost predicate CallInv<S(!new)>(s: Sys<S>, id: nat)
    requires id in s.calls
  {
    var (checker, p) := s.calls[id];
    && id < s.nextID
    && (p.Got? ==> checker(p.status))
    && (p.Asleep? || p.Woken? ==> id in s.waiters && s.waiters[id].checker == checker)
    && (p.Asleep? ==> (s.waiters[id].signal <==> s.waiters[id].result.Some?))
    && (p.Woken? ==> s.waiters[id].result.Some?)
    && (p.Asleep? || p.Woken? ==> s.waiters[id].result.Some? ==> checker(s.waiters[id].result.value))
    && (p.Asleep? && !s.waiters[id].signal ==> !checker(s.current))
  }

  ghost predicate Inv<S(!new)>(s: Sys<S>) {
    forall id | id in s.calls :: CallInv(s, id)
  }

  ghost predicate Run<S(!new)>(ss: seq<Sys<S>>, steps: seq<Step<S>>) {
    && |ss| == |steps| + 1
    && ss[0].waiters == map[] && ss[0].calls == map[] && ss[0].nextID == 0
    && forall i | 0 <= i < |steps| :: Next(ss[i], ss[i + 1], steps[i])
  }

  lemma StepKeeps<S(!new)>(s: Sys<S>, t: Sys<S>, step: Step<S>)
    requires Inv(s) && Next(s, t, step)
    ensures Inv(t)
  {
    forall id | id in t.calls ensures CallInv(t, id) {
      if id in s.calls {
        assert CallInv(s, id);
      }
    }
  }

  /** In every state of every run a sleeping call without a signal is not satisfied, and what a
      call returned satisfies its checker. */
  lemma {:induction false} RunKeepsInv<S(!new)>(ss: seq<Sys<S>>, steps: seq<Step<S>>, i: nat)
    requires Run(ss, steps) && i < |ss|
    ensures Inv(ss[i])
  {
    if i > 0 {
      RunKeepsInv(ss, steps, i - 1);
      StepKeeps(ss[i - 1], ss[i], steps[i - 1]);
    }
  }

  /** No wakeup is lost: once a satisfying status was published after a call registered, the call
      has its signal set or has taken it, however many statuses follow. */
  lemma {:induction false} NoLostWakeup<S(!new)>(ss: seq<Sys<S>>, steps: seq<Step<S>>, id: nat, j: nat, i: nat)
    requires Run(ss, steps) && 0 < j <= i < |ss|
    requires id in ss[j - 1].calls && steps[j - 1].Publishes? && ss[j - 1].calls[id].0(steps[j - 1].status)
    ensures id in ss[i].calls
    ensures ss[i].calls[id].1.Asleep? ==> id in ss[i].waiters && ss[i].waiters[id].signal
    decreases i
  {
    RunKeepsInv(ss, steps, i - 1);
    if i > j { NoLostWakeup(ss, steps, id, j, i - 1); }
    assert CallInv(ss[i - 1], id);
    assert Next(ss[i - 1], ss[i], steps[i - 1]);
  }

  /** The status recorded for a call, or returned by it. */
  ghost function Found<S(!new)>(s: Sys<S>, id: nat): Option<S>
    requires id in s.calls
  {
    match s.calls[id].1
    case Got(status) => Some(status)
    case Cancelled => None
    case _ => if id in s.waiters then s.waiters[id].result else None
  }

  /** A step records for a call only what becomes current, or already was recorded. */
  lemma FoundIsCurrent<S(!new)>(s: Sys<S>, t: Sys<S>, step: Step<S>, id: nat)
    requires Inv(s) && Next(s, t, step) && id in t.calls && Found(t, id).Some?
    ensures Found(t, id) == Some(t.current) || (id in s.calls && Found(s, id) == Found(t, id))
  {
    if id in s.calls { assert CallInv(s, id); }
  }

  /** What is recorded for a call was current at some moment since it registered. */
  lemma {:induction false} RecordedWasCurrent<S(!new)>(ss: seq<Sys<S>>, steps: seq<Step<S>>, i: nat, id: nat)
    returns (j: nat)
    requires Run(ss, steps) && i < |ss| && id in ss[i].calls && Found(ss[i], id).Some?
    ensures j <= i && id in ss[j].calls && Some(ss[j].current) == Found(ss[i], id)
  {
    RunKeepsInv(ss, steps, i - 1);
    FoundIsCurrent(ss[i - 1], ss[i], steps[i - 1], id);
    if Found(ss[i], id) == Some(ss[i].current) {
      j := i;
    } else {
      j := RecordedWasCurrent(ss, steps, i - 1, id);
    }
  }

  /** Step `k` is the one in which the call returns a status. */
  ghost predicate ReturnsIn<S(!new)>(ss: seq<Sys<S>>, k: nat, id: nat)
    requires k + 1 < |ss|
  {
    && id in ss[k + 1].calls && ss[k + 1].calls[id].1.Got?
    && (id in ss[k].calls ==> !ss[k].calls[id].1.Got?)
  }

  /** What Wait returns satisfies its checker and was current during the call: at the moment it
      looked first, or later, but before it returned. */
  lemma ReturnedWasCurrent<S(!new)>(ss: seq<Sys<S>>, steps: seq<Step<S>>, k: nat, id: nat) returns (j: nat)
    requires Run(ss, steps) && k < |steps| && ReturnsIn(ss, k, id)
    ensures j <= k && (j == k || id in ss[j].calls)
    ensures ss[j].current == ss[k + 1].calls[id].1.status && ss[k + 1].calls[id].0(ss[j].current)
  {
    RunKeepsInv(ss, steps, k);
    RunKeepsInv(ss, steps, k + 1);
    assert CallInv(ss[k + 1], id);
    assert Next(ss[k], ss[k + 1], steps[k]);
    if id in ss[k].calls {
      assert CallInv(ss[k], id);
      j := RecordedWasCurrent(ss, steps, k, id);
    } else {
      j := k;
    }
  }
}
