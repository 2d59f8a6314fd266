/** The order-preserving parallel map (common/concurrency/map.go), for a concurrency of two
    or more: a dispatcher registers one unbuffered channel per task in a bounded queue and
    starts a mapper on it; a collector drains the channels in queue order; a watcher turns
    the first mapper error into a cancellation.

    `outs[i]` is what the mapper of task `i` emits if it runs to its end. */
module MapO2M {

  /** `Ended`: the mapper function returned and its result waits to be reported.
      `Closed`: the task's channel is closed. */
  datatype MapperStatus = Running | Ended(err: bool) | Closed

  datatype Mapper = Mapper(sent: nat, status: MapperStatus)

  datatype Dispatcher = Receiving | Offering | Waiting | Done

  datatype Collector<T> = Idle | Reading(task: nat) | Sending(task: nat, item: T) | Aborted | Finished

  /** `failed` records that some mapper returned an error. */
  datatype State<T> = State(
    dispatcher: Dispatcher,
    mappers: seq<Mapper>,
    queue: seq<nat>,
    collector: Collector<T>,
    watcherGone: bool,
    failed: bool,
    cancelled: bool,
    out: seq<T>)

  datatype DispatcherStep = Receive | InClosed | Register | Quit | CloseChannels

  datatype MapperStep = Send | End(err: bool) | Report

  datatype CollectorStep = Take | Forward | NextTask | Abort | Finish

  datatype Step = Dispatch(d: DispatcherStep) | Map(i: nat, m: MapperStep) | Collect(k: CollectorStep) | Cancel

  ghost predicate Init<T>(s: State<T>) {
    s == State(Receiving, [], [], Idle, false, false, false, [])
  }

  /** `c` is the concurrency; the queue of channels holds at most `c - 1`. */
  ghost predicate Dispatches<T>(outs: seq<seq<T>>, c: nat, s: State<T>, d: DispatcherStep, s': State<T>) {
    var n := |s.mappers|;
    match d
    case Receive => s.dispatcher == Receiving && n < |outs| && s' == s.(dispatcher := Offering)
    case InClosed => s.dispatcher == Receiving && n == |outs| && s' == s.(dispatcher := Waiting)
    case Register =>
      && s.dispatcher == Offering && |s.queue| < c - 1
      && s' == s.(dispatcher := Receiving, queue := s.queue + [n], mappers := s.mappers + [Mapper(0, Running)])
    case Quit =>
      s.cancelled && (s.dispatcher == Receiving || s.dispatcher == Offering) && s' == s.(dispatcher := Waiting)
    case CloseChannels =>
      && s.dispatcher == Waiting && (forall i | 0 <= i < n :: s.mappers[i].status.Closed?)
      && s' == s.(dispatcher := Done)
  }

  /** Task channels are unbuffered: a send needs the collector to be reading that channel. */
  ghost predicate Maps<T>(outs: seq<seq<T>>, s: State<T>, i: nat, m: MapperStep, s': State<T>)
  {
    && i < |s.mappers| && i < |outs|
    && match m
       case Send =>
         && s.mappers[i].status == Running && s.mappers[i].sent < |outs[i]| && s.collector == Reading(i)
         && s' == s.(collector := Sending(i, outs[i][s.mappers[i].sent]),
                     mappers := s.mappers[i := Mapper(s.mappers[i].sent + 1, Running)])
       case End(err) =>
         && s.mappers[i].status == Running && (err || s.mappers[i].sent == |outs[i]|)
         && s' == s.(mappers := s.mappers[i := s.mappers[i].(status := Ended(err))], failed := s.failed || err)
       case Report =>
         && s.mappers[i].status.Ended? && (s.cancelled || !s.watcherGone)
         && s' == s.(mappers := s.mappers[i := s.mappers[i].(status := Closed)],
                     watcherGone := s.watcherGone || s.mappers[i].status.err)
  }

  ghost predicate Collects<T>(s: State<T>, k: CollectorStep, s': State<T>) {
    match k
    case Take =>
      s.collector == Idle && s.queue != [] && s' == s.(collector := Reading(s.queue[0]), queue := s.queue[1..])
    case Forward =>
      s.collector.Sending? && s' == s.(collector := Reading(s.collector.task), out := s.out + [s.collector.item])
    case NextTask =>
      && s.collector.Reading? && s.collector.task < |s.mappers| && s.mappers[s.collector.task].status.Closed?
      && s' == s.(collector := Idle)
    case Abort => s.cancelled && s.collector.Sending? && s' == s.(collector := Aborted)
    case Finish => s.collector == Idle && s.queue == [] && s.dispatcher == Done && s' == s.(collector := Finished)
  }

  ghost predicate Next<T>(outs: seq<seq<T>>, c: nat, s: State<T>, step: Step, s': State<T>) {
    match step
    case Dispatch(d) => Dispatches(outs, c, s, d, s')
    case Map(i, m) => Maps(outs, s, i, m, s')
    case Collect(k) => Collects(s, k, s')
    case Cancel => s' == s.(cancelled := true)
  }

  /** Tasks the collector has taken from the queue. */
  function Taken<T>(s: State<T>): int { |s.mappers| - |s.queue| }

  /** Nothing failed and nothing was cancelled so far. */
  predicate Clean<T>(s: State<T>) { !s.cancelled && !s.failed }

  /** The first `n` tasks' outputs so far, in input order. */
  ghost function Emitted<T>(outs: seq<seq<T>>, mappers: seq<Mapper>, n: int): seq<T>
    requires n <= |mappers| <= |outs| && forall i | 0 <= i < |mappers| :: mappers[i].sent <= |outs[i]|
    decreases n
  {
    if n <= 0 then [] else Emitted(outs, mappers, n - 1) + outs[n - 1][..mappers[n - 1].sent]
  }

  ghost predicate Shape<T>(outs: seq<seq<T>>, c: nat, s: State<T>) {
    && |s.mappers| <= |outs| && |s.queue| <= |s.mappers| && |s.queue| <= c - 1
    && (forall i | 0 <= i < |s.mappers| :: s.mappers[i].sent <= |outs[i]|)
    && (forall k | 0 <= k < |s.queue| :: s.queue[k] == Taken(s) + k)
    && (forall i | Taken(s) <= i < |s.mappers| :: s.mappers[i].sent == 0)
  }

  /** The collector works on the task it took last and has seen every earlier channel closed. */
  ghost predicate InOrder<T>(s: State<T>)
    requires |s.queue| <= |s.mappers|
  {
    && (s.collector.Reading? || s.collector.Sending? ==> s.collector.task == Taken(s) - 1)
    && (s.collector == Aborted ==> Taken(s) > 0)
    && (forall i | 0 <= i < Taken(s) - 1 :: s.mappers[i].status.Closed?)
    && (s.collector.Idle? || s.collector.Finished? ==> forall i | 0 <= i < Taken(s) :: s.mappers[i].status.Closed?)
    && (s.collector.Sending? ==> s.mappers[s.collector.task].sent > 0)
  }

  /** What has been put out: everything emitted, less an item the collector still holds or
      dropped when it quit. */
  ghost predicate Collected<T>(outs: seq<seq<T>>, s: State<T>)
    requires |s.mappers| <= |outs| && forall i | 0 <= i < |s.mappers| :: s.mappers[i].sent <= |outs[i]|
  {
    var all := Emitted(outs, s.mappers, Taken(s));
    match s.collector
    case Sending(_, item) => all == s.out + [item]
    case Aborted => |all| > 0 && s.out == all[..|all| - 1]
    case _ => all == s.out
  }

  ghost predicate CleanFacts<T>(outs: seq<seq<T>>, s: State<T>)
    requires |s.mappers| <= |outs|
  {
    && ((s.dispatcher == Waiting || s.dispatcher == Done) && !s.cancelled ==> |s.mappers| == |outs|)
    && (!s.failed ==> forall i | 0 <= i < |s.mappers| && s.mappers[i].status != Running ::
          s.mappers[i].sent == |outs[i]| && s.mappers[i].status != Ended(true))
    && (s.watcherGone ==> s.failed)
    && (s.dispatcher == Offering ==> |s.mappers| < |outs|)
    && (s.dispatcher == Done ==> forall i | 0 <= i < |s.mappers| :: s.mappers[i].status.Closed?)
    && (s.collector == Finished ==> s.dispatcher == Done && s.queue == [])
    && (s.collector == Aborted ==> s.cancelled)
  }

  ghost predicate Inv<T>(outs: seq<seq<T>>, c: nat, s: State<T>) {
    Shape(outs, c, s) && InOrder(s) && Collected(outs, s) && CleanFacts(outs, s)
  }

  lemma {:induction false} EmittedSame<T>(outs: seq<seq<T>>, m: seq<Mapper>, m': seq<Mapper>, n: int)
    requires n <= |m| <= |outs| && n <= |m'| <= |outs|
    requires forall i | 0 <= i < |m| :: m[i].sent <= |outs[i]|
    requires forall i | 0 <= i < |m'| :: m'[i].sent <= |outs[i]|
    requires forall i | 0 <= i < n :: m[i].sent == m'[i].sent
    ensures Emitted(outs, m, n) == Emitted(outs, m', n)
    decreases n
  {
    if n > 0 {
      EmittedSame(outs, m, m', n - 1);
    }
  }

  lemma SendKeeps<T>(outs: seq<seq<T>>, c: nat, s: State<T>, i: nat, s': State<T>)
    requires Inv(outs, c, s) && Maps(outs, s, i, Send, s')
    ensures Inv(outs, c, s')
  {
    EmittedSame(outs, s.mappers, s'.mappers, i);
    var k := s.mappers[i].sent;
    assert outs[i][..k + 1] == outs[i][..k] + [outs[i][k]];
  }

  lemma EndKeeps<T>(outs: seq<seq<T>>, c: nat, s: State<T>, i: nat, err: bool, s': State<T>)
    requires Inv(outs, c, s) && Maps(outs, s, i, End(err), s')
    ensures Inv(outs, c, s')
  {
    EmittedSame(outs, s.mappers, s'.mappers, Taken(s));
    assert Shape(outs, c, s') && InOrder(s');
  }

  lemma ReportKeeps<T>(outs: seq<seq<T>>, c: nat, s: State<T>, i: nat, s': State<T>)
    requires Inv(outs, c, s) && Maps(outs, s, i, Report, s')
    ensures Inv(outs, c, s')
  {
    EmittedSame(outs, s.mappers, s'.mappers, Taken(s));
    assert Shape(outs, c, s') && InOrder(s');
  }

  lemma RegisterKeeps<T>(outs: seq<seq<T>>, c: nat, s: State<T>, s': State<T>)
    requires Inv(outs, c, s) && Dispatches(outs, c, s, Register, s')
    ensures Inv(outs, c, s')
  {
    EmittedSame(outs, s.mappers, s'.mappers, Taken(s));
  }

  lemma DispatchKeeps<T>(outs: seq<seq<T>>, c: nat, s: State<T>, d: DispatcherStep, s': State<T>)
    requires Inv(outs, c, s) && Dispatches(outs, c, s, d, s') && !d.Register?
    ensures Inv(outs, c, s')
  {
  }

  lemma CollectKeeps<T>(outs: seq<seq<T>>, c: nat, s: State<T>, k: CollectorStep, s': State<T>)
    requires Inv(outs, c, s) && Collects(s, k, s') && !k.Take?
    ensures Inv(outs, c, s')
  {
  }

  lemma TakeKeeps<T>(outs: seq<seq<T>>, c: nat, s: State<T>, s': State<T>)
    requires Inv(outs, c, s) && Collects(s, Take, s')
    ensures Inv(outs, c, s')
  {
    var t := Taken(s);
    assert s'.mappers[t].sent == 0 && outs[t][..0] == [];
    assert Emitted(outs, s'.mappers, t + 1) == Emitted(outs, s.mappers, t);
  }

  lemma StepKeepsInv<T>(outs: seq<seq<T>>, c: nat, s: State<T>, step: Step, s': State<T>)
    requires Inv(outs, c, s) && Next(outs, c, s, step, s')
    ensures Inv(outs, c, s')
  {
    match step
    case Dispatch(d) =>
      if d.Register? { RegisterKeeps(outs, c, s, s'); } else { DispatchKeeps(outs, c, s, d, s'); }
    case Map(i, m) =>
      match m {
        case Send => SendKeeps(outs, c, s, i, s');
        case End(err) => EndKeeps(outs, c, s, i, err, s');
        case Report => ReportKeeps(outs, c, s, i, s');
      }
    case Collect(k) =>
      if k.Take? { TakeKeeps(outs, c, s, s'); } else { CollectKeeps(outs, c, s, k, s'); }
    case Cancel =>
  }

  ghost predicate Run<T>(outs: seq<seq<T>>, c: nat, ss: seq<State<T>>, steps: seq<Step>) {
    && |ss| == |steps| + 1 && Init(ss[0])
    && forall i, j | 0 <= i < |steps| && j == i + 1 :: Next(outs, c, ss[i], steps[i], ss[j])
  }

  lemma {:induction false} RunKeepsInv<T>(outs: seq<seq<T>>, c: nat, ss: seq<State<T>>, steps: seq<Step>, i: nat)
    requires c >= 2 && Run(outs, c, ss, steps) && i < |ss|
    ensures Inv(outs, c, ss[i])
  {
    if i > 0 {
      RunKeepsInv(outs, c, ss, steps, i - 1);
      StepKeepsInv(outs, c, ss[i - 1], steps[i - 1], ss[i]);
    }
  }

  /** Prefix lengths, one per task. */
  ghost predicate Cuts<T>(outs: seq<seq<T>>, cuts: seq<nat>) {
    |cuts| <= |outs| && forall i | 0 <= i < |cuts| :: cuts[i] <= |outs[i]|
  }

  ghost function ConcatCuts<T>(outs: seq<seq<T>>, cuts: seq<nat>): seq<T>
    requires Cuts(outs, cuts)
  {
    if cuts == [] then []
    else ConcatCuts(outs, cuts[..|cuts| - 1]) + outs[|cuts| - 1][..cuts[|cuts| - 1]]
  }

  ghost function Concat<T>(outs: seq<seq<T>>): seq<T> {
    if outs == [] then [] else Concat(outs[..|outs| - 1]) + outs[|outs| - 1]
  }

  lemma {:induction false} EmittedIsCuts<T>(outs: seq<seq<T>>, m: seq<Mapper>, n: nat, cuts: seq<nat>)
    requires n == |cuts| <= |m| <= |outs| && (forall i | 0 <= i < |m| :: m[i].sent <= |outs[i]|)
    requires forall i | 0 <= i < n :: cuts[i] == m[i].sent
    ensures Cuts(outs, cuts) && Emitted(outs, m, n) == ConcatCuts(outs, cuts)
  {
    if n > 0 {
      EmittedIsCuts(outs, m, n - 1, cuts[..n - 1]);
    }
  }

  lemma {:induction false} FullCuts<T>(outs: seq<seq<T>>, m: seq<Mapper>, n: nat)
    requires n <= |m| <= |outs| && forall i | 0 <= i < |m| :: m[i].sent <= |outs[i]|
    requires forall i | 0 <= i < n :: m[i].sent == |outs[i]|
    ensures Emitted(outs, m, n) == Concat(outs[..n])
  {
    if n > 0 {
      FullCuts(outs, m, n - 1);
      assert outs[..n][..n - 1] == outs[..n - 1];
    }
  }

  /** In every interleaving, failed and cancelled ones included, the output is a concatenation
      in input order of a prefix of each task's output. */
  lemma OutputIsOrderedPrefixes<T>(outs: seq<seq<T>>, c: nat, ss: seq<State<T>>, steps: seq<Step>, i: nat)
    returns (cuts: seq<nat>)
    requires c >= 2 && Run(outs, c, ss, steps) && i < |ss|
    ensures Cuts(outs, cuts) && ss[i].out == ConcatCuts(outs, cuts)
  {
    RunKeepsInv(outs, c, ss, steps, i);
    var s := ss[i];
    var n := Taken(s);
    cuts := seq(n, k requires 0 <= k < n => s.mappers[k].sent);
    EmittedIsCuts(outs, s.mappers, n, cuts);
    if s.collector.Sending? || s.collector.Aborted? {
      cuts := LessOne(outs, cuts, s.out);
    }
  }

  /** Dropping the last element of an ordered concatenation of prefixes leaves one. */
  lemma {:induction false} LessOne<T>(outs: seq<seq<T>>, cuts: seq<nat>, out: seq<T>) returns (less: seq<nat>)
    requires Cuts(outs, cuts) && |ConcatCuts(outs, cuts)| > 0
    requires out == ConcatCuts(outs, cuts)[..|ConcatCuts(outs, cuts)| - 1]
    ensures Cuts(outs, less) && ConcatCuts(outs, less) == out
  {
    var k := |cuts| - 1;
    if cuts[k] > 0 {
      less := cuts[..k] + [cuts[k] - 1];
      assert less[..k] == cuts[..k];
      assert outs[k][..cuts[k]] == outs[k][..cuts[k] - 1] + [outs[k][cuts[k] - 1]];
    } else {
      less := LessOne(outs, cuts[..k], out);
    }
  }

  /** A run that ends without failure or cancellation has put out everything, in order. */
  lemma CleanRunIsComplete<T>(outs: seq<seq<T>>, c: nat, ss: seq<State<T>>, steps: seq<Step>, i: nat)
    requires c >= 2 && Run(outs, c, ss, steps) && i < |ss|
    requires ss[i].collector == Finished && Clean(ss[i])
    ensures ss[i].out == Concat(outs)
  {
    RunKeepsInv(outs, c, ss, steps, i);
    FullCuts(outs, ss[i].mappers, |outs|);
    assert outs[..|outs|] == outs;
  }

  /** Mappers that have not closed their channel, among the first `n`. */
  ghost function Live(m: seq<Mapper>, n: nat): nat
    requires n <= |m|
  {
    if n == 0 then 0 else Live(m, n - 1) + if m[n - 1].status.Closed? then 0 else 1
  }

  lemma {:induction false} LiveAfterClosed(m: seq<Mapper>, n: nat, k: int)
    requires n <= |m| && forall i | 0 <= i < k && i < n :: m[i].status.Closed?
    ensures Live(m, n) <= if n <= k then 0 else n - Floor(k)
  {
    if n > 0 {
      LiveAfterClosed(m, n - 1, k);
    }
  }

  /** `k`, or 0 when negative. */
  function Floor(k: int): nat { if k < 0 then 0 else k }

  /** At no time are more than `c` mappers at work. */
  lemma AtMostConcurrencyMappers<T>(outs: seq<seq<T>>, c: nat, ss: seq<State<T>>, steps: seq<Step>, i: nat)
    requires c >= 2 && Run(outs, c, ss, steps) && i < |ss|
    ensures Live(ss[i].mappers, |ss[i].mappers|) <= c
  {
    RunKeepsInv(outs, c, ss, steps, i);
    LiveAfterClosed(ss[i].mappers, |ss[i].mappers|, Taken(ss[i]) - 1);
  }

  /** The steps still to be made for task `i`: receive, register, emit and forward each item,
      end, report, take the channel and leave it. */
  ghost function TaskWork<T>(outs: seq<seq<T>>, s: State<T>, i: nat): int
    requires i < |outs|
  {
    if i >= |s.mappers| then 2 * |outs[i]| + 6
    else
      2 * (|outs[i]| - s.mappers[i].sent)
      + (if s.mappers[i].status.Running? then 2 else if s.mappers[i].status.Ended? then 1 else 0)
      + (if i >= Taken(s) then 2
         else if s.collector == Reading(i) || (s.collector.Sending? && s.collector.task == i) then 1 else 0)
  }

  ghost function Work<T>(outs: seq<seq<T>>, s: State<T>, n: nat): int
    requires n <= |outs|
  {
    if n == 0 then 0 else Work(outs, s, n - 1) + TaskWork(outs, s, n - 1)
  }

  ghost function Remaining<T>(outs: seq<seq<T>>, s: State<T>): int {
    Work(outs, s, |outs|)
    + (match s.dispatcher case Receiving => 2 case Offering => 1 case Waiting => 1 case Done => 0)
    + (if s.collector.Sending? then 1 else 0) + (if s.collector.Finished? then 0 else 1)
  }

  lemma {:induction false} WorkChanges<T>(outs: seq<seq<T>>, s: State<T>, t: State<T>, i: nat, n: nat)
    requires n <= |outs| && i < |outs|
    requires forall k: nat | k < n && k != i :: TaskWork(outs, s, k) == TaskWork(outs, t, k)
    ensures Work(outs, t, n) == Work(outs, s, n) + if i < n then TaskWork(outs, t, i) - TaskWork(outs, s, i) else 0
  {
    if n > 0 {
      WorkChanges(outs, s, t, i, n - 1);
    }
  }

  lemma {:induction false} WorkSame<T>(outs: seq<seq<T>>, s: State<T>, t: State<T>, n: nat)
    requires n <= |outs|
    requires forall k: nat | k < n :: TaskWork(outs, s, k) == TaskWork(outs, t, k)
    ensures Work(outs, t, n) == Work(outs, s, n)
  {
    if n > 0 {
      WorkSame(outs, s, t, n - 1);
    }
  }

  lemma DispatchCounts<T>(outs: seq<seq<T>>, c: nat, s: State<T>, d: DispatcherStep, s': State<T>)
    requires Inv(outs, c, s) && Dispatches(outs, c, s, d, s') && Clean(s')
    ensures Remaining(outs, s') == Remaining(outs, s) - 1
  {
    if d.Register? {
      WorkChanges(outs, s, s', |s.mappers|, |outs|);
    } else {
      WorkSame(outs, s, s', |outs|);
    }
  }

  lemma MapCounts<T>(outs: seq<seq<T>>, c: nat, s: State<T>, i: nat, m: MapperStep, s': State<T>)
    requires Inv(outs, c, s) && Maps(outs, s, i, m, s')
    ensures Remaining(outs, s') == Remaining(outs, s) - 1
  {
    WorkChanges(outs, s, s', i, |outs|);
  }

  lemma CollectCounts<T>(outs: seq<seq<T>>, c: nat, s: State<T>, k: CollectorStep, s': State<T>)
    requires Inv(outs, c, s) && Collects(s, k, s') && Clean(s')
    ensures Remaining(outs, s') == Remaining(outs, s) - 1
  {
    match k
    case Take => WorkChanges(outs, s, s', Taken(s), |outs|);
    case NextTask => WorkChanges(outs, s, s', s.collector.task, |outs|);
    case Forward => WorkSame(outs, s, s', |outs|);
    case Finish => WorkSame(outs, s, s', |outs|);
    case Abort =>
  }

  /** Each step of a run without failure or cancellation takes exactly one off what remains. */
  lemma CleanStepCounts<T>(outs: seq<seq<T>>, c: nat, s: State<T>, step: Step, s': State<T>)
    requires Inv(outs, c, s) && Next(outs, c, s, step, s') && Clean(s')
    ensures Remaining(outs, s') == Remaining(outs, s) - 1
  {
    match step
    case Dispatch(d) => DispatchCounts(outs, c, s, d, s');
    case Map(i, m) => MapCounts(outs, c, s, i, m, s');
    case Collect(k) => CollectCounts(outs, c, s, k, s');
    case Cancel =>
  }

  lemma {:induction false} DoneWork<T>(outs: seq<seq<T>>, s: State<T>, n: nat)
    requires n <= |outs| == |s.mappers| == Taken(s) && s.collector == Finished
    requires forall i | 0 <= i < |outs| :: s.mappers[i] == Mapper(|outs[i]|, Closed)
    ensures Work(outs, s, n) == 0
  {
    if n > 0 {
      DoneWork(outs, s, n - 1);
    }
  }

  /** All runs without failure or cancellation that reach the end take the same number of
      steps, and none is longer. */
  lemma {:induction false} CleanRunLength<T>(outs: seq<seq<T>>, c: nat, ss: seq<State<T>>, steps: seq<Step>, i: nat)
    requires c >= 2 && Run(outs, c, ss, steps) && i < |ss| && (forall k | 0 <= k <= i :: Clean(ss[k]))
    ensures Remaining(outs, ss[i]) == Remaining(outs, ss[0]) - i
    ensures ss[i].collector == Finished ==> i == Remaining(outs, ss[0])
  {
    RunKeepsInv(outs, c, ss, steps, i);
    if i > 0 {
      CleanRunLength(outs, c, ss, steps, i - 1);
      RunKeepsInv(outs, c, ss, steps, i - 1);
      CleanStepCounts(outs, c, ss[i - 1], steps[i - 1], ss[i]);
    }
    if ss[i].collector == Finished {
      DoneWork(outs, ss[i], |outs|);
    }
  }

  /** No deadlock: without failure or cancellation some step is possible until the collector
      has finished. */
  lemma CleanRunNeverSticks<T>(outs: seq<seq<T>>, c: nat, s: State<T>) returns (step: Step, s': State<T>)
    requires c >= 2 && Inv(outs, c, s) && Clean(s) && s.collector != Finished
    ensures Next(outs, c, s, step, s') && Clean(s')
  {
    match s.collector
    case Sending(task, item) =>
      step, s' := Collect(Forward), s.(collector := Reading(task), out := s.out + [item]);
    case Reading(i) =>
      var m := s.mappers[i];
      if m.status.Closed? {
        step, s' := Collect(NextTask), s.(collector := Idle);
      } else if m.status.Ended? {
        step := Map(i, Report);
        s' := s.(mappers := s.mappers[i := m.(status := Closed)], watcherGone := s.watcherGone || m.status.err);
      } else if m.sent < |outs[i]| {
        step := Map(i, Send);
        s' := s.(collector := Sending(i, outs[i][m.sent]), mappers := s.mappers[i := Mapper(m.sent + 1, Running)]);
      } else {
        step := Map(i, End(false));
        s' := s.(mappers := s.mappers[i := m.(status := Ended(false))], failed := s.failed || false);
      }
    case Idle =>
      if s.queue != [] {
        step, s' := Collect(Take), s.(collector := Reading(s.queue[0]), queue := s.queue[1..]);
      } else {
        step, s' := IdleStep(outs, c, s);
      }
  }

  lemma IdleStep<T>(outs: seq<seq<T>>, c: nat, s: State<T>) returns (step: Step, s': State<T>)
    requires c >= 2 && Inv(outs, c, s) && Clean(s) && s.collector == Idle && s.queue == []
    ensures Next(outs, c, s, step, s') && Clean(s')
  {
    match s.dispatcher
    case Receiving =>
      if |s.mappers| < |outs| {
        step, s' := Dispatch(Receive), s.(dispatcher := Offering);
      } else {
        step, s' := Dispatch(InClosed), s.(dispatcher := Waiting);
      }
    case Offering =>
      step := Dispatch(Register);
      s' := s.(dispatcher := Receiving, queue := s.queue + [|s.mappers|], mappers := s.mappers + [Mapper(0, Running)]);
    case Waiting => step, s' := Dispatch(CloseChannels), s.(dispatcher := Done);
    case Done => step, s' := Collect(Finish), s.(collector := Finished);
  }
}
