/** Waiting until no resource that a selector picks is missing
    (common/concurrency/resource_waiter.go). */
module ResourceWaiter {

  /** A registered waiter: whom it waits for, and whether its one-slot signal is set. */
  datatype Waiter<!R> = Waiter(selector: R -> bool, signal: bool)

  /** How many missing resources a selector picks. */
  ghost function Count<R(!new)>(notReady: set<R>, selector: R -> bool): nat {
    |set r | r in notReady && selector(r)|
  }

  /** The waiters after waking those that pick `r`. */
  ghost function Woken<R>(waiters: map<nat, Waiter<R>>, r: R): map<nat, Waiter<R>> {
    map id | id in waiters :: if waiters[id].selector(r) then waiters[id].(signal := true) else waiters[id]
  }

  /** The state behind the lock; each method is one locked section. */
  class Waiters<R(==,!new)> {
    var notReady: set<R>
    var waiters: map<nat, Waiter<R>>
    var waiterID: nat

    ghost predicate Valid()
      reads this
    {
      forall id | id in waiters :: id < waiterID
    }

    constructor ()
      ensures Valid() && notReady == {} && waiters == map[]
    {
      notReady, waiters, waiterID := {}, map[], 0;
    }

    method WakeMatching(r: R)
      modifies this`waiters
      ensures waiters == Woken(old(waiters), r)
      ensures waiters.Keys == old(waiters).Keys
      ensures forall id | id in waiters ::
          && waiters[id].selector == old(waiters)[id].selector
          && (waiters[id].signal <==> old(waiters)[id].signal || old(waiters)[id].selector(r))
    {
      var left := waiters.Keys;
      while left != {}
        invariant left <= old(waiters).Keys == waiters.Keys
        invariant forall id | id in waiters ::
                    waiters[id] == if id in left then old(waiters)[id] else Woken(old(waiters), r)[id]
        decreases |left|
      {
        var id :| id in left;
        if waiters[id].selector(r) {
          waiters := waiters[id := waiters[id].(signal := true)];
        }
        left := left - {id};
      }
    }

    method NewResource(r: R)
      requires Valid()
      modifies this`notReady, this`waiters
      ensures Valid() && notReady == old(notReady) + {r}
      ensures waiters == if r in old(notReady) then old(waiters) else Woken(old(waiters), r)
    {
      if r in notReady {
        return;
      }
      notReady := notReady + {r};
      WakeMatching(r);
    }

    /** Fails, where the source panics, for a resource that is not missing. */
    method ResourceReady(r: R) returns (ok: bool)
      requires Valid()
      modifies this`notReady, this`waiters
      ensures Valid() && ok == (r in old(notReady)) && notReady == old(notReady) - {r}
      ensures waiters == if ok then Woken(old(waiters), r) else old(waiters)
    {
      if r !in notReady {
        return false;
      }
      notReady := notReady - {r};
      WakeMatching(r);
      return true;
    }

    method CountMissing(selector: R -> bool) returns (missing: nat)
      ensures missing == Count(notReady, selector)
    {
      missing := 0;
      var left := notReady;
      while left != {}
        invariant left <= notReady
        invariant missing == Count(notReady - left, selector)
        decreases |left|
      {
        var r :| r in left;
        CountOneMore(notReady - left, r, selector);
        assert notReady - left + {r} == notReady - (left - {r});
        if selector(r) {
          missing := missing + 1;
        }
        left := left - {r};
      }
      assert notReady - {} == notReady;
    }

    /** The first section of Wait: register, then count. */
    method Register(selector: R -> bool) returns (id: nat, missing: nat)
      requires Valid()
      modifies this`waiters, this`waiterID
      ensures Valid() && id !in old(waiters) && waiters == old(waiters)[id := Waiter(selector, false)]
      ensures id == old(waiterID) && waiterID == id + 1
      ensures missing == Count(notReady, selector)
    {
      id := waiterID;
      waiterID := waiterID + 1;
      waiters := waiters[id := Waiter(selector, false)];
      missing := CountMissing(selector);
    }

    /** Its last section. */
    method Deregister(id: nat)
      requires Valid()
      modifies this`waiters
      ensures Valid() && waiters == old(waiters) - {id}
    {
      waiters := waiters - {id};
    }
  }

  lemma CountOneMore<R(!new)>(s: set<R>, r: R, selector: R -> bool)
    requires r !in s
    ensures Count(s + {r}, selector) == Count(s, selector) + if selector(r) then 1 else 0
  {
    var a := set x | x in s && selector(x);
    var b := set x | x in s + {r} && selector(x);
    if selector(r) {
      assert b == a + {r};
    } else {
      assert b == a;
    }
  }

  // ------------------------------------------------------------------------------ whole runs

  /** Where a call of Wait stands: holding the count it last read, woken and about to count
      again, or returned. */
  datatype Phase = Waiting(missing: nat) | Recounting | Returned(isNil: bool)

  datatype Sys<!R> = Sys(
    notReady: set<R>, waiters: map<nat, Waiter<R>>, nextID: nat, calls: map<nat, (R -> bool, Phase)>)

  datatype Step<!R> =
    | Appears(r: R)
    | BecomesReady(r: R)
    | Registers(selector: R -> bool)
    | TakesSignal(id: nat)
    | Recounts(id: nat)
    | ReturnsNil(id: nat)
    | Cancels(id: nat)
    | Deregisters(id: nat)

  ghost predicate InPhase<R>(s: Sys<R>, id: nat, p: Phase) { id in s.calls && s.calls[id].1 == p }

  ghost function Moved<R>(s: Sys<R>, id: nat, p: Phase): Sys<R>
    requires id in s.calls
  {
    s.(calls := s.calls[id := (s.calls[id].0, p)])
  }

  ghost predicate Next<R(!new)>(s: Sys<R>, t: Sys<R>, step: Step<R>) {
    match step
    case Appears(r) =>
      t == if r in s.notReady then s else s.(notReady := s.notReady + {r}, waiters := Woken(s.waiters, r))
    case BecomesReady(r) =>
      r in s.notReady && t == s.(notReady := s.notReady - {r}, waiters := Woken(s.waiters, r))
    case Registers(selector) =>
      t == s.(waiters := s.waiters[s.nextID := Waiter(selector, false)], nextID := s.nextID + 1,
              calls := s.calls[s.nextID := (selector, Waiting(Count(s.notReady, selector)))])
    case TakesSignal(id) =>
      id in s.waiters && s.waiters[id].signal && id in s.calls && s.calls[id].1.Waiting? && s.calls[id].1.missing != 0
      && t == Moved(s, id, Recounting).(waiters := s.waiters[id := s.waiters[id].(signal := false)])
    case Recounts(id) =>
      InPhase(s, id, Recounting) && t == Moved(s, id, Waiting(Count(s.notReady, s.calls[id].0)))
    case ReturnsNil(id) => InPhase(s, id, Waiting(0)) && t == Moved(s, id, Returned(true))
    case Cancels(id) =>
      id in s.calls && s.calls[id].1.Waiting? && s.calls[id].1.missing != 0 && t == Moved(s, id, Returned(false))
    case Deregisters(id) =>
      id in s.calls && s.calls[id].1.Returned? && t == s.(waiters := s.waiters - {id})
  }

  /** A call that has not returned is registered with its selector; and if what is missing now
      is not what it last counted, its signal is set. */
  ghost predicate CallInv<R(!new)>(s: Sys<R>, id: nat)
    requires id in s.calls
  {
    var (selector, p) := s.calls[id];
    && id < s.nextID
    && (!p.Returned? ==> id in s.waiters && s.waiters[id].selector == selector)
    && (p.Waiting? ==> s.waiters[id].signal || p.missing == Count(s.notReady, selector))
  }

  ghost predicate Inv<R(!new)>(s: Sys<R>) {
    forall id | id in s.calls :: CallInv(s, id)
  }

  ghost predicate Run<R(!new)>(ss: seq<Sys<R>>, steps: seq<Step<R>>) {
    && |ss| == |steps| + 1
    && ss[0] == Sys({}, map[], 0, map[])
    && forall i | 0 <= i < |steps| :: Next(ss[i], ss[i + 1], steps[i])
  }

  lemma ChangeKeeps<R(!new)>(s: Sys<R>, r: R, id: nat)
    requires id in s.calls && CallInv(s, id)
    ensures r !in s.notReady ==> CallInv(s.(notReady := s.notReady + {r}, waiters := Woken(s.waiters, r)), id)
    ensures r in s.notReady ==> CallInv(s.(notReady := s.notReady - {r}, waiters := Woken(s.waiters, r)), id)
  {
    var selector := s.calls[id].0;
    if r in s.notReady {
      CountOneMore(s.notReady - {r}, r, selector);
      assert s.notReady - {r} + {r} == s.notReady;
    } else {
      CountOneMore(s.notReady, r, selector);
    }
  }

  lemma StepKeeps<R(!new)>(s: Sys<R>, t: Sys<R>, step: Step<R>)
    requires Inv(s) && Next(s, t, step)
    ensures Inv(t)
  {
    forall id | id in t.calls ensures CallInv(t, id) {
      if id in s.calls {
        assert CallInv(s, id);
        if step.Appears? || step.BecomesReady? {
          ChangeKeeps(s, step.r, id);
        }
      }
    }
  }

  /** No wakeup is lost: in every state of every run a waiting call either knows what is missing
      or has its signal set. */
  lemma {:induction false} RunKeepsInv<R(!new)>(ss: seq<Sys<R>>, steps: seq<Step<R>>, i: nat)
    requires Run(ss, steps) && i < |ss|
    ensures Inv(ss[i])
  {
    if i > 0 {
      RunKeepsInv(ss, steps, i - 1);
      StepKeeps(ss[i - 1], ss[i], steps[i - 1]);
    }
  }

  /** What a call holds was counted under the lock after it registered, and nil is returned only
      after such a count of zero. */
  lemma {:induction false} NilAfterZero<R(!new)>(ss: seq<Sys<R>>, steps: seq<Step<R>>, i: nat, id: nat) returns (j: nat)
    requires Run(ss, steps) && i < |ss| && id in ss[i].calls
    requires ss[i].calls[id].1.Waiting? || ss[i].calls[id].1 == Returned(true)
    ensures 0 < j <= i && id in ss[j].calls && ss[j].calls[id].0 == ss[i].calls[id].0
    ensures Count(ss[j].notReady, ss[i].calls[id].0) ==
            if ss[i].calls[id].1.Waiting? then ss[i].calls[id].1.missing else 0
    ensures (steps[j - 1].Registers? && id !in ss[j - 1].calls) || steps[j - 1] == Recounts(id)
  {
    assert Next(ss[i - 1], ss[i], steps[i - 1]);
    if id !in ss[i - 1].calls || steps[i - 1] == Recounts(id) {
      j := i;
    } else {
      RunKeepsInv(ss, steps, i - 1);
      CountKept(ss[i - 1], ss[i], steps[i - 1], id);
      j := NilAfterZero(ss, steps, i - 1, id);
    }
  }

  /** A step other than its own recount leaves a call its count, or returns it nil for a count
      of zero. */
  lemma CountKept<R(!new)>(s: Sys<R>, t: Sys<R>, step: Step<R>, id: nat)
    requires Inv(s) && Next(s, t, step) && id in s.calls && step != Recounts(id)
    ensures id in t.calls && t.calls[id].0 == s.calls[id].0
    ensures t.calls[id].1.Waiting? ==> s.calls[id].1 == t.calls[id].1
    ensures t.calls[id].1 == Returned(true) ==> s.calls[id].1 == Returned(true) || s.calls[id].1 == Waiting(0)
  {
    assert CallInv(s, id);
  }

  /** Once nothing it waits for is missing, a call can return nil by its own steps alone, from
      every reachable state in which it has not returned: no further signal is needed. */
  lemma CanReturn<R(!new)>(s: Sys<R>, id: nat) returns (own: seq<Step<R>>, ts: seq<Sys<R>>)
    requires Inv(s) && id in s.calls && !s.calls[id].1.Returned? && Count(s.notReady, s.calls[id].0) == 0
    ensures |ts| == |own| + 1 && ts[0] == s && InPhase(ts[|own|], id, Returned(true))
    ensures forall k | 0 <= k < |own| :: Next(ts[k], ts[k + 1], own[k])
    ensures forall x | x in own :: x == TakesSignal(id) || x == Recounts(id) || x == ReturnsNil(id)
  {
    assert CallInv(s, id);
    var a := if s.calls[id].1.Waiting? && s.calls[id].1.missing != 0
             then Moved(s, id, Recounting).(waiters := s.waiters[id := s.waiters[id].(signal := false)]) else s;
    var b := if a.calls[id].1.Recounting? then Moved(a, id, Waiting(0)) else a;
    var c := Moved(b, id, Returned(true));
    assert Next(b, c, ReturnsNil(id));
    if s.calls[id].1.Recounting? {
      assert Next(a, b, Recounts(id));
      own, ts := [Recounts(id), ReturnsNil(id)], [s, b, c];
    } else if s.calls[id].1.missing == 0 {
      own, ts := [ReturnsNil(id)], [s, c];
    } else {
      assert Next(s, a, TakesSignal(id));
      assert Next(a, b, Recounts(id));
      own, ts := [TakesSignal(id), Recounts(id), ReturnsNil(id)], [s, a, b, c];
    }
  }
}
