/** Every interleaving of requests on one resource manager
    (common/concurrency/resource_manager.go): applying, waiting on the channel, giving up
    when the context ends, and releasing once. Each step runs under the manager's lock, or
    is a choice made by one request's `select`. */
module ResourceProtocol {
  import opened ResourcePool

  /** `Selecting`: blocked on the channel. `Cancelling`: chose the ended context and has not
      taken the lock yet. `Holding`: Apply returned the release function. */
  datatype Phase = Selecting | Cancelling | Holding | Finished

  datatype Request = Request(num: int, phase: Phase)

  datatype Sys = Sys(pool: Pool, reqs: map<int, Request>)

  datatype Step =
    | Apply(priority: int, num: int)
    | TakeGrant(id: int)
    | TakeContextEnd(id: int)
    | CancelLocked(id: int)
    | Release(id: int)

  ghost function Init(max: int): Sys {
    Sys(Pool(max, 0, map[], {}), map[])
  }

  predicate InPhase(s: Sys, id: int, ph: Phase) {
    id in s.reqs && s.reqs[id].phase == ph
  }

  ghost predicate Applied(max: int, s: Sys, s': Sys, priority: int, num: int) {
    var id := s.pool.count;
    if num > max then s' == s
    else if s.pool.cur >= num then
      s' == Sys(s.pool.(cur := s.pool.cur - num, count := id + 1), s.reqs[id := Request(num, Holding)])
    else
      s' == Sys(s.pool.(count := id + 1, queue := s.pool.queue[id := Waiter(priority, id, num)]),
                s.reqs[id := Request(num, Selecting)])
  }

  ghost predicate Next(max: int, s: Sys, step: Step, s': Sys) {
    match step
    case Apply(priority, num) => Applied(max, s, s', priority, num)
    case TakeGrant(id) =>
      InPhase(s, id, Selecting) && id in s.pool.closed &&
      s' == s.(reqs := s.reqs[id := s.reqs[id].(phase := Holding)])
    case TakeContextEnd(id) =>
      InPhase(s, id, Selecting) &&
      s' == s.(reqs := s.reqs[id := s.reqs[id].(phase := Cancelling)])
    case CancelLocked(id) =>
      InPhase(s, id, Cancelling) && Cancel(s.pool, s'.pool, id, s.reqs[id].num) &&
      s'.reqs == s.reqs[id := s.reqs[id].(phase := Finished)]
    case Release(id) =>
      InPhase(s, id, Holding) && GiveBack(s.pool, s'.pool, s.reqs[id].num) &&
      s'.reqs == s.reqs[id := s.reqs[id].(phase := Finished)]
  }

  ghost predicate Run(max: int, ss: seq<Sys>, steps: seq<Step>) {
    && |ss| == |steps| + 1
    && ss[0] == Init(max)
    && forall i | 0 <= i < |steps| :: Next(max, ss[i], steps[i], ss[i + 1])
  }

  /** Resources this request has been given and not yet returned, seen by it or not. */
  predicate Outstanding(s: Sys, id: int) {
    id in s.reqs &&
    (s.reqs[id].phase == Holding || (s.reqs[id].phase != Finished && id in s.pool.closed))
  }

  function Held(s: Sys, id: int): int {
    if Outstanding(s, id) then s.reqs[id].num else 0
  }

  /** Resources granted to the first `n` requests. */
  ghost function Granted(s: Sys, n: int): int
    decreases n
  {
    if n <= 0 then 0 else Granted(s, n - 1) + Held(s, n - 1)
  }

  /** When only request `id` changes, the total changes by what it gained. */
  lemma {:induction false} GrantedChanges(s: Sys, t: Sys, id: int, n: int)
    requires forall i | 0 <= i < n && i != id :: Held(s, i) == Held(t, i)
    ensures Granted(t, n) == Granted(s, n) + (if 0 <= id < n then Held(t, id) - Held(s, id) else 0)
    decreases n
  {
    if n > 0 {
      GrantedChanges(s, t, id, n - 1);
    }
  }

  lemma {:induction false} GrantedNonNegative(s: Sys, n: int)
    requires NonNegative(s)
    ensures Granted(s, n) >= 0
    decreases n
  {
    if n > 0 {
      GrantedNonNegative(s, n - 1);
    }
  }

  lemma {:induction false} SomeoneHolds(s: Sys, n: int) returns (id: int)
    requires Granted(s, n) != 0
    ensures Outstanding(s, id)
    decreases n
  {
    if Held(s, n - 1) != 0 {
      id := n - 1;
    } else {
      id := SomeoneHolds(s, n - 1);
    }
  }

  /** The queue and the requests agree on who waits. */
  ghost predicate QueueMatches(s: Sys) {
    && (forall id | id in s.pool.queue :: id in s.reqs && s.pool.queue[id].num == s.reqs[id].num)
    && (forall id | id in s.reqs ::
          id in s.pool.queue <==>
          (s.reqs[id].phase == Selecting || s.reqs[id].phase == Cancelling) && id !in s.pool.closed)
    && s.pool.count >= 0
    && (forall id | id in s.reqs :: 0 <= id < s.pool.count)
    && (forall id | id in s.pool.closed :: id < s.pool.count)
  }

  /** Nothing is lost or duplicated: what is free and what is granted add up to the maximum. */
  ghost predicate Conserved(max: int, s: Sys) {
    QueueMatches(s) && s.pool.cur + Granted(s, s.pool.count) == max
  }

  /** Requests never ask for less than nothing. */
  ghost predicate NonNegative(s: Sys) {
    forall id | id in s.reqs :: s.reqs[id].num >= 0
  }

  ghost predicate QueueFits(max: int, s: Sys) {
    forall id | id in s.pool.queue :: 0 < s.pool.queue[id].num <= max
  }

  ghost predicate Bounded(max: int, s: Sys) {
    && 0 <= s.pool.cur <= max
    && QueueFits(max, s)
    && (s.pool.queue != map[] ==> s.pool.cur < max)
  }

  lemma ServeKeeps(max: int, s: Sys, id: int)
    requires Conserved(max, s) && Leader(s.pool.queue, id)
    ensures Conserved(max, s.(pool := ServeLeader(s.pool, id)))
  {
    var t := s.(pool := ServeLeader(s.pool, id));
    if s.pool.cur >= s.pool.queue[id].num {
      GrantedChanges(s, t, id, s.pool.count);
    }
  }

  lemma GrantKeeps(max: int, s: Sys, p': Pool)
    requires Conserved(max, s) && Grant(s.pool, p')
    ensures Conserved(max, s.(pool := p'))
    ensures 0 <= s.pool.cur <= max && QueueFits(max, s) ==> Bounded(max, s.(pool := p'))
  {
    if s.pool.queue != map[] {
      var id :| Leader(s.pool.queue, id) && p' == ServeLeader(s.pool, id);
      ServeKeeps(max, s, id);
    } else {
      assert s.(pool := p') == s;
    }
  }

  /** The request is done: it leaves the queue, or its grant goes back to the pool. */
  ghost function Retired(s: Sys, id: int): Sys
    requires id in s.reqs
  {
    Sys(if Outstanding(s, id) then s.pool.(cur := s.pool.cur + s.reqs[id].num)
        else s.pool.(queue := s.pool.queue - {id}),
        s.reqs[id := s.reqs[id].(phase := Finished)])
  }

  lemma RetireKeeps(max: int, s: Sys, id: int)
    requires Conserved(max, s) && id in s.reqs
    ensures Conserved(max, Retired(s, id))
    ensures Bounded(max, s) && NonNegative(s) ==> 0 <= Retired(s, id).pool.cur <= max && QueueFits(max, Retired(s, id))
  {
    var t := Retired(s, id);
    GrantedChanges(s, t, id, s.pool.count);
    if NonNegative(s) {
      GrantedNonNegative(t, t.pool.count);
    }
  }

  lemma ApplyKeeps(max: int, s: Sys, s': Sys, priority: int, num: int)
    requires Conserved(max, s) && Applied(max, s, s', priority, num)
    ensures Conserved(max, s')
    ensures Bounded(max, s) && num >= 0 ==> Bounded(max, s')
  {
    GrantedChanges(s, s', s.pool.count, s.pool.count);
  }

  lemma ChoiceKeeps(max: int, s: Sys, s': Sys, id: int, ph: Phase)
    requires Conserved(max, s) && InPhase(s, id, Selecting)
    requires ph == Cancelling || (ph == Holding && id in s.pool.closed)
    requires s' == s.(reqs := s.reqs[id := s.reqs[id].(phase := ph)])
    ensures Conserved(max, s')
    ensures Bounded(max, s) ==> Bounded(max, s')
  {
    GrantedChanges(s, s', id, s.pool.count);
  }

  /** Cancelling, also when it loses the race against a grant, and releasing retire a request. */
  lemma RetirementStep(max: int, s: Sys, step: Step, s': Sys)
    requires Conserved(max, s) && Next(max, s, step, s') && (step.CancelLocked? || step.Release?)
    ensures Grant(Retired(s, step.id).pool, s'.pool) && s'.reqs == Retired(s, step.id).reqs
  {
  }

  lemma StepKeeps(max: int, s: Sys, step: Step, s': Sys)
    requires Conserved(max, s) && Next(max, s, step, s')
    ensures Conserved(max, s')
    ensures Bounded(max, s) && NonNegative(s) && (step.Apply? ==> step.num >= 0) ==> Bounded(max, s')
  {
    match step
    case Apply(priority, num) => ApplyKeeps(max, s, s', priority, num);
    case TakeGrant(id) => ChoiceKeeps(max, s, s', id, Holding);
    case TakeContextEnd(id) => ChoiceKeeps(max, s, s', id, Cancelling);
    case _ =>
      RetirementStep(max, s, step, s');
      RetireKeeps(max, s, step.id);
      GrantKeeps(max, Retired(s, step.id), s'.pool);
      assert s' == Retired(s, step.id).(pool := s'.pool);
  }

  /** In every state of every run, free plus granted is the maximum. */
  lemma {:induction false} RunConserves(max: int, ss: seq<Sys>, steps: seq<Step>, i: nat)
    requires Run(max, ss, steps) && i < |ss|
    ensures Conserved(max, ss[i])
  {
    if i == 0 {
    } else {
      RunConserves(max, ss, steps, i - 1);
      assert Next(max, ss[i - 1], steps[i - 1], ss[i]);
      StepKeeps(max, ss[i - 1], steps[i - 1], ss[i]);
    }
  }

  /** In every run whose requests ask for nothing negative, the free count stays within
      0..max and a non-empty queue always leaves some grant outstanding, whose return will
      serve the queue: the queue is never stranded. */
  lemma {:induction false} RunBounded(max: int, ss: seq<Sys>, steps: seq<Step>, i: nat)
    requires Run(max, ss, steps) && i < |ss| && max >= 0
    requires forall k | 0 <= k < |steps| && steps[k].Apply? :: steps[k].num >= 0
    ensures NonNegative(ss[i]) && Bounded(max, ss[i])
    ensures ss[i].pool.queue != map[] ==> exists id :: Outstanding(ss[i], id)
  {
    if i > 0 {
      RunBounded(max, ss, steps, i - 1);
      RunConserves(max, ss, steps, i - 1);
      assert Next(max, ss[i - 1], steps[i - 1], ss[i]);
      StepKeeps(max, ss[i - 1], steps[i - 1], ss[i]);
    }
    RunConserves(max, ss, steps, i);
    if ss[i].pool.queue != map[] {
      var id := SomeoneHolds(ss[i], ss[i].pool.count);
    }
  }

  /** How many of the first `n` requests are queued or hold resources. */
  ghost function Unfinished(s: Sys, n: int): nat
    decreases n
  {
    if n <= 0 then 0
    else Unfinished(s, n - 1) + if n - 1 in s.reqs && s.reqs[n - 1].phase != Finished then 1 else 0
  }

  lemma {:induction false} OneFinishes(s: Sys, t: Sys, id: int, n: int)
    requires id in s.reqs && s.reqs[id].phase != Finished
    requires t.reqs == s.reqs[id := s.reqs[id].(phase := Finished)]
    ensures Unfinished(t, n) == Unfinished(s, n) - if 0 <= id < n then 1 else 0
    decreases n
  {
    if n > 0 {
      OneFinishes(s, t, id, n - 1);
    }
  }

  /** Every release, and every locked cancel, takes exactly one request off those queued or
      holding resources; with `RunBounded`, releasing grants one after the other empties the
      queue. */
  lemma RetirementDrains(max: int, s: Sys, step: Step, s': Sys)
    requires Conserved(max, s) && Next(max, s, step, s') && (step.CancelLocked? || step.Release?)
    ensures Unfinished(s', s'.pool.count) == Unfinished(s, s.pool.count) - 1
  {
    OneFinishes(s, s', step.id, s.pool.count);
  }

  /** With nothing unfinished nobody is queued. */
  lemma {:induction false} DrainedQueueIsEmpty(max: int, s: Sys, n: int)
    requires Conserved(max, s) && Unfinished(s, n) == 0
    ensures forall id | id in s.pool.queue :: id >= n
    decreases n
  {
    if n > 0 {
      DrainedQueueIsEmpty(max, s, n - 1);
    }
  }

  /** All runs whose requests are drawn from `allowed` keep the free count within 0..max. */
  ghost predicate StaysWithin(max: int, allowed: iset<int>) {
    forall ss: seq<Sys>, steps: seq<Step>, i: nat | Run(max, ss, steps) && DrawnFrom(steps, allowed) && i < |ss| ::
      0 <= ss[i].pool.cur <= max
  }

  ghost predicate DrawnFrom(steps: seq<Step>, allowed: iset<int>) {
    forall k | 0 <= k < |steps| && steps[k].Apply? :: steps[k].num in allowed
  }

  /** The manager does not refuse negative requests, so the bounds hold over all runs exactly
      when callers never make one. */
  lemma BoundsNeedNonNegativeRequests(max: int, allowed: iset<int>)
    requires max >= 0
    ensures StaysWithin(max, allowed) <==> forall n | n in allowed :: n >= 0
  {
    if forall n | n in allowed :: n >= 0 {
      forall ss: seq<Sys>, steps: seq<Step>, i: nat | Run(max, ss, steps) && DrawnFrom(steps, allowed) && i < |ss|
        ensures 0 <= ss[i].pool.cur <= max
      {
        RunBounded(max, ss, steps, i);
      }
    } else {
      var n :| n in allowed && n < 0;
      var ss := [Init(max), Sys(Pool(max - n, 1, map[], {}), map[0 := Request(n, Holding)])];
      var steps := [Apply(0, n)];
      assert Run(max, ss, steps) && DrawnFrom(steps, allowed) && ss[1].pool.cur > max;
    }
  }

  // ------------------------------------------------------------------ who is served first

  lemma {:induction false} RunIndexed(max: int, ss: seq<Sys>, steps: seq<Step>, i: nat)
    requires Run(max, ss, steps) && i < |ss|
    ensures Indexed(ss[i].pool.queue)
  {
    if i > 0 {
      RunIndexed(max, ss, steps, i - 1);
      assert Next(max, ss[i - 1], steps[i - 1], ss[i]);
    }
  }

  /** Whoever is granted from the queue has the smallest priority of those queued, and of those with
      its priority came first: nobody is granted while an earlier request of the same or a smaller
      priority is still queued. */
  lemma GrantedInTurn(max: int, ss: seq<Sys>, steps: seq<Step>, i: nat, id: int, other: int)
    requires Run(max, ss, steps) && i < |steps|
    requires id in ss[i].pool.queue && id !in ss[i + 1].pool.queue && id in ss[i + 1].pool.closed
    requires other in ss[i + 1].pool.queue
    ensures other in ss[i].pool.queue
    ensures ss[i].pool.queue[id].priority <= ss[i].pool.queue[other].priority
    ensures ss[i].pool.queue[id].priority == ss[i].pool.queue[other].priority ==> id < other
  {
    var s, step, s' := ss[i], steps[i], ss[i + 1];
    RunConserves(max, ss, steps, i);
    RunIndexed(max, ss, steps, i);
    assert Next(max, s, step, s');
    var p := if step.Release? then s.pool.(cur := s.pool.cur + s.reqs[step.id].num)
             else if step.CancelLocked? && step.id in s.pool.queue then s.pool.(queue := s.pool.queue - {step.id})
             else if step.CancelLocked? then s.pool.(cur := s.pool.cur + s.reqs[step.id].num)
             else s.pool;
    assert Grant(p, s'.pool);
    GrantTakesFirst(p, s'.pool, id, other);
  }

  lemma GrantTakesFirst(p: Pool, p': Pool, id: int, other: int)
    requires Grant(p, p') && Indexed(p.queue) && id in p.queue && id !in p'.queue && other in p'.queue
    ensures Leader(p.queue, id) && other in p.queue && other != id
  {
    var x :| Leader(p.queue, x) && p' == ServeLeader(p, x);
    assert x == id;
  }
}
