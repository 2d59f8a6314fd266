/** The head of a client pool and its block interval (chain/clientpool/client_pool.go,
    chain/clientpool/utils.go). Times and durations are whole nanoseconds. */
module PoolHead {
  import opened Powers

  datatype Block = Block(number: nat, time: int)

  /** An entry as the pool sees it. */
  datatype Entry = Entry(enable: bool, initialized: bool, latest: Block)

  datatype Status = Status(ready: bool, head: Block, queue: seq<Block>, interval: int)

  // ------------------------------------------------------------------- the queue of heads

  /** Numbers strictly increase and times never decrease. */
  ghost predicate Ordered(q: seq<Block>) {
    forall i, j | 0 <= i < j < |q| :: q[i].number < q[j].number && q[i].time <= q[j].time
  }

  function Last(q: seq<Block>): Block
    requires q != []
  {
    q[|q| - 1]
  }

  predicate Before(x: Block, b: Block) { x.number < b.number && x.time <= b.time }

  /** How many of the first `n` blocks may stand before `b`: trailing ones that may not go. */
  function Kept(q: seq<Block>, b: Block, n: nat): (r: nat)
    requires n <= |q|
    ensures r <= n && (r > 0 ==> Before(q[r - 1], b)) && (forall k | r <= k < n :: !Before(q[k], b))
  {
    if n == 0 || Before(q[n - 1], b) then n else Kept(q, b, n - 1)
  }

  /** The first block from the `i`-th on that is not older than `dur`, the last two always kept. */
  function FirstKept(q: seq<Block>, b: Block, dur: int, i: nat): (r: nat)
    requires i < |q|
    ensures i <= r < |q| && (r + 2 >= |q| || b.time - q[r].time <= dur)
    ensures r > i ==> r + 2 <= |q|
    ensures forall k | i <= k < r :: b.time - q[k].time > dur
    decreases |q| - i
  {
    if |q| - i <= 2 || b.time - q[i].time <= dur then i else FirstKept(q, b, dur, i + 1)
  }

  function Pushed(q: seq<Block>, b: Block, dur: int): (r: seq<Block>)
    ensures r != []
  {
    var all := q[..Kept(q, b, |q|)] + [b];
    all[FirstKept(all, b, dur, 0)..]
  }

  /** The average interval over the queue, at most `dur`; 0 when it is not known. */
  function Average(q: seq<Block>, b: Block, dur: int): int
    requires q != []
  {
    if q[0].number < b.number && q[0].time < b.time then
      var avg := (b.time - q[0].time) / (b.number - q[0].number);
      if avg < dur then avg else dur
    else 0
  }

  lemma AppendKeepsOrder(q: seq<Block>, n: nat, b: Block)
    requires Ordered(q) && n <= |q| && (n > 0 ==> Before(q[n - 1], b))
    ensures Ordered(q[..n] + [b])
  {
    var all := q[..n] + [b];
    forall i, j | 0 <= i < j < |all| ensures all[i].number < all[j].number && all[i].time <= all[j].time {
      assert j == n && i < n - 1 ==> q[i].number < q[n - 1].number && q[i].time <= q[n - 1].time;
    }
  }

  lemma SuffixKeepsOrder(q: seq<Block>, i: nat)
    requires Ordered(q) && i < |q|
    ensures Ordered(q[i..]) && Last(q[i..]) == Last(q)
  {
  }

  /** Pushing keeps the queue ordered, puts the block at its back, and bounds the span by `dur`
      unless two blocks are left. */
  lemma PushedKeeps(q: seq<Block>, b: Block, dur: int)
    requires Ordered(q)
    ensures var r := Pushed(q, b, dur);
            Ordered(r) && Last(r) == b && (|r| <= 2 || b.time - r[0].time <= dur)
  {
    var n := Kept(q, b, |q|);
    AppendKeepsOrder(q, n, b);
    var all := q[..n] + [b];
    SuffixKeepsOrder(all, FirstKept(all, b, dur, 0));
  }

  /** No block that may stand before `b` comes later. */
  ghost predicate IsLastBefore(q: seq<Block>, b: Block, x: Block) {
    forall y | y in q && y.number < b.number && y.time <= b.time :: y.number <= x.number
  }

  /** In an ordered queue those that may stand before `b` are a prefix. */
  lemma KeptAreBefore(q: seq<Block>, b: Block, k: nat)
    requires Ordered(q) && k < |q|
    ensures (q[k].number < b.number && q[k].time <= b.time) <==> k < Kept(q, b, |q|)
  {
    var n := Kept(q, b, |q|);
    assert k + 1 < n ==> q[k].number < q[n - 1].number && q[k].time <= q[n - 1].time;
  }

  lemma LastKeptIsLast(q: seq<Block>, b: Block, k: nat)
    requires Ordered(q) && k < Kept(q, b, |q|)
    ensures IsLastBefore(q, b, q[k]) <==> k + 1 == Kept(q, b, |q|)
  {
    var n := Kept(q, b, |q|);
    KeptAreBefore(q, b, n - 1);
    if k + 1 == n {
      forall y | y in q && y.number < b.number && y.time <= b.time ensures y.number <= q[k].number {
        var i :| 0 <= i < |q| && q[i] == y;
        KeptAreBefore(q, b, i);
      }
    } else {
      assert q[k].number < q[n - 1].number && q[n - 1] in q;
    }
  }

  /** Which places of an ordered queue, `b` at its back, are kept. */
  lemma KeptPlaces(all: seq<Block>, b: Block, dur: int, k: nat)
    requires Ordered(all) && k + 1 < |all|
    ensures k >= FirstKept(all, b, dur, 0) <==> b.time - all[k].time <= dur || k + 2 == |all|
  {
    var r := FirstKept(all, b, dur, 0);
    assert r < k ==> all[r].time <= all[k].time;
  }

  lemma DistinctPlaces(q: seq<Block>, r: nat, k: nat)
    requires Ordered(q) && r <= |q| && k < |q|
    ensures q[k] in q[r..] <==> k >= r
  {
    assert k >= r ==> q[r..][k - r] == q[k];
    assert forall i | 0 <= i < |q| && q[i] == q[k] :: i == k;
  }

  /** Exactly which blocks are in the queue after a push: the one pushed, and of those that may stand
      before it the ones not older than `dur` and the last one. */
  lemma PushedHolds(q: seq<Block>, b: Block, dur: int, x: Block)
    requires Ordered(q)
    ensures x in Pushed(q, b, dur) <==>
              || x == b
              || (x in q && x.number < b.number && x.time <= b.time
                  && (b.time - x.time <= dur || IsLastBefore(q, b, x)))
  {
    PushedBack(q, b, dur);
    if x in q {
      var k :| 0 <= k < |q| && q[k] == x;
      KeptAreBefore(q, b, k);
      if k < Kept(q, b, |q|) {
        LastKeptIsLast(q, b, k);
        KeptStays(q, b, dur, k);
      } else {
        NotKept(q, b, Kept(q, b, |q|), k);
      }
    }
  }

  lemma PushedBack(q: seq<Block>, b: Block, dur: int)
    ensures b in Pushed(q, b, dur) && forall x | x in Pushed(q, b, dur) :: x == b || x in q[..Kept(q, b, |q|)]
  {
    var all := q[..Kept(q, b, |q|)] + [b];
    var r := FirstKept(all, b, dur, 0);
    assert all[r..][|all| - 1 - r] == b;
  }

  lemma KeptStays(q: seq<Block>, b: Block, dur: int, k: nat)
    requires Ordered(q) && k < Kept(q, b, |q|)
    ensures q[k] in Pushed(q, b, dur) <==> b.time - q[k].time <= dur || k + 1 == Kept(q, b, |q|)
  {
    var n := Kept(q, b, |q|);
    var all := q[..n] + [b];
    AppendKeepsOrder(q, n, b);
    assert all[k] == q[k];
    KeptPlaces(all, b, dur, k);
    DistinctPlaces(all, FirstKept(all, b, dur, 0), k);
  }

  lemma NotKept(q: seq<Block>, b: Block, n: nat, k: nat)
    requires Ordered(q) && n <= k < |q|
    ensures q[k] !in q[..n]
  {
  }

  /** What an average is, from the first block of the queue to the latest: the time per block,
      rounded down, but at most `dur`; 0 when no time or no block passed. */
  ghost predicate IsAverage(front: Block, b: Block, dur: int, avg: int) {
    var blocks, time := b.number - front.number, b.time - front.time;
    if blocks > 0 && time > 0 then
      && avg <= dur
      && (avg == dur <==> dur * blocks <= time)
      && (avg < dur ==> avg * blocks <= time < (avg + 1) * blocks)
    else avg == 0
  }

  lemma AverageIsTimePerBlock(q: seq<Block>, b: Block, dur: int)
    requires q != []
    ensures IsAverage(q[0], b, dur, Average(q, b, dur))
  {
    var blocks, time := b.number - q[0].number, b.time - q[0].time;
    if blocks > 0 && time > 0 {
      Quotient(time, blocks, dur);
    }
  }

  lemma Quotient(time: int, blocks: int, dur: int)
    requires blocks > 0 && time > 0
    ensures time / blocks * blocks <= time < (time / blocks + 1) * blocks
    ensures time / blocks >= dur <==> dur * blocks <= time
  {
    var avg := time / blocks;
    if avg >= dur {
      assert avg * blocks >= dur * blocks;
    } else {
      assert dur * blocks >= (avg + 1) * blocks;
    }
  }

  /** Blocks evenly `d` apart. */
  ghost predicate Even(q: seq<Block>, d: int) {
    forall i, j | 0 <= i < j < |q| :: q[j].time - q[i].time == d * (q[j].number - q[i].number)
  }

  lemma EvenAverage(q: seq<Block>, d: int, dur: int, avg: int)
    requires |q| >= 2 && Ordered(q) && Even(q, d) && 0 < d <= dur && IsAverage(q[0], Last(q), dur, avg)
    ensures avg == d
  {
    assert q[0].number < q[|q| - 1].number;
    ExactQuotient(Last(q).number - q[0].number, Last(q).time - q[0].time, d, dur, avg);
  }

  lemma ExactQuotient(blocks: int, time: int, d: int, dur: int, avg: int)
    requires blocks > 0 && time == d * blocks && 0 < d <= dur && avg <= dur
    requires avg == dur <==> dur * blocks <= time
    requires avg < dur ==> avg * blocks <= time < (avg + 1) * blocks
    ensures avg == d && time > 0
  {
    Scaled(0, d, blocks);
    Scaled(avg, d, blocks);
    Scaled(d, avg + 1, blocks);
    Scaled(dur, d, blocks);
  }

  lemma AverageInRange(q: seq<Block>, b: Block, dur: int)
    requires q != [] && dur >= 0
    ensures 0 <= Average(q, b, dur) <= dur
  {
  }

  /** With a negative `dur` every known average is negative, so the bounds need `dur >= 0`. */
  lemma AverageNegativeIff(q: seq<Block>, b: Block, dur: int)
    requires q != []
    ensures Average(q, b, dur) < 0 <==> dur < 0 && q[0].number < b.number && q[0].time < b.time
  {
  }

  // -------------------------------------------------------------------- choosing the head

  /** The entries a new head is chosen from. */
  predicate Candidate(e: Entry, pre: Block) { e.enable && e.initialized && e.latest.number >= pre.number }

  predicate Behind(e: Entry, top: Block, broken: int) { top.time - e.latest.time > broken }

  /** `top` is the highest block of the candidates. */
  ghost predicate IsTop(es: set<Entry>, pre: Block, top: Block) {
    && (exists e :: e in es && Candidate(e, pre) && e.latest == top)
    && (forall e | e in es && Candidate(e, pre) :: e.latest.number <= top.number)
  }

  /** `head` is `top`, lowered to the lowest candidate that has not fallen behind `top`. */
  ghost predicate IsHead(es: set<Entry>, pre: Block, broken: int, top: Block, head: Block) {
    && (head == top || exists e :: e in es && Candidate(e, pre) && !Behind(e, top, broken) && e.latest == head)
    && head.number <= top.number
    && (forall e | e in es && Candidate(e, pre) && !Behind(e, top, broken) :: head.number <= e.latest.number)
  }

  /** What a rebuild of the pool's status may yield; the order in which entries are visited
      decides between blocks of the same number. */
  ghost predicate Rebuilt(es: set<Entry>, pre: Status, post: Status, broken: int, dur: int) {
    if forall e | e in es :: !Candidate(e, pre.head) then post == pre
    else
      && (exists top :: IsTop(es, pre.head, top) && IsHead(es, pre.head, broken, top, post.head))
      && post.ready
      && post.queue == Pushed(pre.queue, post.head, dur)
      && post.interval == (var avg := Average(post.queue, post.head, dur); if avg == 0 then pre.interval else avg)
  }

  /** The pool's status, updated in place. */
  class PoolStatus {
    var ready: bool
    var head: Block
    var queue: seq<Block>
    var interval: int

    constructor ()
      ensures View() == Status(false, Block(0, 0), [], 0)
    {
      ready, head, queue, interval := false, Block(0, 0), [], 0;
    }

    function View(): Status
      reads this
    {
      Status(ready, head, queue, interval)
    }

    /** Pops the trailing blocks that may not stand before `latest`. */
    method PopBackTo(latest: Block)
      modifies this`queue
      ensures queue == old(queue)[..Kept(old(queue), latest, |old(queue)|)]
    {
      ghost var n := |queue|;
      assert queue[..n] == queue;
      while queue != [] && !(Last(queue).number < latest.number && Last(queue).time <= latest.time)
        invariant 0 <= n <= |old(queue)| && queue == old(queue)[..n]
        invariant Kept(old(queue), latest, n) == Kept(old(queue), latest, |old(queue)|)
        decreases |queue|
      {
        queue := queue[..|queue| - 1];
        n := n - 1;
      }
    }

    /** Pops the leading blocks that are too old. */
    method PopFrontTo(latest: Block, dur: int)
      requires queue != []
      modifies this`queue
      ensures queue == old(queue)[FirstKept(old(queue), latest, dur, 0)..]
    {
      ghost var i := 0;
      while |queue| > 2 && latest.time - queue[0].time > dur
        invariant 0 <= i < |old(queue)| && queue == old(queue)[i..]
        invariant FirstKept(old(queue), latest, dur, i) == FirstKept(old(queue), latest, dur, 0)
        decreases |queue|
      {
        queue := queue[1..];
        i := i + 1;
      }
    }

    method PushLatestQueue(latest: Block, dur: int) returns (avg: int)
      modifies this`queue
      ensures queue == Pushed(old(queue), latest, dur)
      ensures avg == Average(queue, latest, dur) && IsAverage(queue[0], latest, dur, avg)
    {
      PopBackTo(latest);
      queue := queue + [latest];
      PopFrontTo(latest, dur);
      var front := queue[0];
      AverageIsTimePerBlock(queue, latest, dur);
      if front.number < latest.number && front.time < latest.time {
        avg := (latest.time - front.time) / (latest.number - front.number);
        if avg >= dur { avg := dur; }
      } else {
        avg := 0;
      }
    }

    /** Rebuilds the status from the entries, in whatever order they are visited. */
    method Rebuild(entries: seq<Entry>, broken: int, dur: int)
      modifies this
      ensures Rebuilt(set e | e in entries, old(View()), View(), broken, dur)
    {
      ghost var es := set e | e in entries;
      var valid := SelectValid(entries, head);
      if valid == [] {
        return;
      }
      var top := Highest(valid);
      var lowest := LowestInStep(valid, top, broken);
      assert IsTop(es, head, top) by {
        assert forall e | e in es && Candidate(e, head) :: e in valid;
      }
      assert IsHead(es, head, broken, top, lowest);
      ready := true;
      head := lowest;
      var avg := PushLatestQueue(lowest, dur);
      if avg != 0 {
        interval := avg;
      }
    }
  }

  method SelectValid(entries: seq<Entry>, pre: Block) returns (valid: seq<Entry>)
    ensures forall e :: e in valid <==> e in entries && Candidate(e, pre)
  {
    valid := [];
    for i := 0 to |entries|
      invariant forall e :: e in valid <==> e in entries[..i] && Candidate(e, pre)
    {
      if entries[i].enable && entries[i].initialized && entries[i].latest.number >= pre.number {
        valid := valid + [entries[i]];
      }
    }
  }

  method Highest(valid: seq<Entry>) returns (top: Block)
    requires valid != []
    ensures exists e :: e in valid && e.latest == top
    ensures forall e | e in valid :: e.latest.number <= top.number
  {
    top := valid[0].latest;
    for i := 1 to |valid|
      invariant exists e :: e in valid && e.latest == top
      invariant forall e | e in valid[..i] :: e.latest.number <= top.number
    {
      if valid[i].latest.number > top.number {
        top := valid[i].latest;
      }
    }
  }

  method LowestInStep(valid: seq<Entry>, top: Block, broken: int) returns (low: Block)
    ensures low == top || exists e :: e in valid && !Behind(e, top, broken) && e.latest == low
    ensures low.number <= top.number
    ensures forall e | e in valid && !Behind(e, top, broken) :: low.number <= e.latest.number
  {
    low := top;
    for i := 0 to |valid|
      invariant low == top || exists e :: e in valid && !Behind(e, top, broken) && e.latest == low
      invariant low.number <= top.number
      invariant forall e | e in valid[..i] && !Behind(e, top, broken) :: low.number <= e.latest.number
    {
      if top.time - valid[i].latest.time > broken {
        continue;
      }
      if valid[i].latest.number < low.number {
        low := valid[i].latest;
      }
    }
  }

  /** One entry's status, updated by its refresher. */
  class EntryStatus {
    var initialized: bool
    var latest: Block

    constructor ()
      ensures !initialized && latest == Block(0, 0)
    {
      initialized, latest := false, Block(0, 0);
    }

    method InitFailed()
      modifies this
      ensures !initialized && latest == old(latest)
    {
      initialized := false;
    }

    /** The known block never moves back, and moves on to an answer that is not behind it. */
    method InitDone(answer: Block)
      modifies this
      ensures initialized && Newest(old(latest), answer, latest)
    {
      initialized := true;
      if answer.number >= latest.number {
        latest := answer;
      }
    }

    /** One block of the subscription. */
    method Report(answer: Block)
      modifies this
      ensures initialized == old(initialized) && Newest(old(latest), answer, latest)
    {
      if answer.number < latest.number {
        return;
      }
      latest := answer;
    }
  }

  /** `b` is one of the two and behind neither; of two blocks with the same number it is the
      answer, whose time is the later news. */
  ghost predicate Newest(known: Block, answer: Block, b: Block) {
    && (b == known || b == answer)
    && b.number >= known.number && b.number >= answer.number
    && (known.number == answer.number ==> b == answer)
  }

  // ------------------------------------------------------------------------------ whole runs

  datatype Sys = Sys(entries: map<nat, Entry>, pool: Status)

  datatype Step =
    | Add(id: nat)
    | Drop(id: nat)
    | SetEnable(id: nat, enable: bool)
    | InitFails(id: nat)
    | InitSucceeds(id: nat, answer: Block, latest: Block)
    | Reports(id: nat, answer: Block, latest: Block)
    | Rebuilds(post: Status)

  ghost predicate Next(broken: int, dur: int, s: Sys, t: Sys, step: Step) {
    match step
    case Add(id) => id !in s.entries && t == s.(entries := s.entries[id := Entry(false, false, Block(0, 0))])
    case Drop(id) => t == s.(entries := s.entries - {id})
    case SetEnable(id, enable) =>
      id in s.entries && t == s.(entries := s.entries[id := s.entries[id].(enable := enable)])
    case InitFails(id) =>
      id in s.entries && t == s.(entries := s.entries[id := s.entries[id].(initialized := false)])
    case InitSucceeds(id, answer, latest) =>
      id in s.entries && Newest(s.entries[id].latest, answer, latest)
      && t == s.(entries := s.entries[id := s.entries[id].(initialized := true, latest := latest)])
    case Reports(id, answer, latest) =>
      id in s.entries && Newest(s.entries[id].latest, answer, latest)
      && t == s.(entries := s.entries[id := s.entries[id].(latest := latest)])
    case Rebuilds(post) =>
      Rebuilt(s.entries.Values, s.pool, post, broken, dur) && t == s.(pool := post)
  }

  ghost predicate Inv(p: Status, dur: int) {
    && Ordered(p.queue)
    && (p.ready <==> p.queue != [])
    && (p.ready ==> Last(p.queue) == p.head)
    && (|p.queue| <= 2 || p.head.time - p.queue[0].time <= dur)
    && 0 <= p.interval <= dur
  }

  ghost predicate Run(broken: int, dur: int, ss: seq<Sys>, steps: seq<Step>) {
    && |ss| == |steps| + 1
    && ss[0] == Sys(map[], Status(false, Block(0, 0), [], 0))
    && forall i | 0 <= i < |steps| :: Next(broken, dur, ss[i], ss[i + 1], steps[i])
  }

  lemma HeadRises(es: set<Entry>, pre: Status, post: Status, broken: int, dur: int)
    requires Rebuilt(es, pre, post, broken, dur)
    ensures pre.head.number <= post.head.number
  {
  }

  lemma PushKeepsInv(pre: Status, head: Block, dur: int, interval: int)
    requires dur >= 0 && Inv(pre, dur)
    requires var avg := Average(Pushed(pre.queue, head, dur), head, dur);
             interval == if avg == 0 then pre.interval else avg
    ensures Inv(Status(true, head, Pushed(pre.queue, head, dur), interval), dur)
  {
    PushedKeeps(pre.queue, head, dur);
    AverageInRange(Pushed(pre.queue, head, dur), head, dur);
  }

  lemma RebuildKeeps(es: set<Entry>, pre: Status, post: Status, broken: int, dur: int)
    requires dur >= 0 && Inv(pre, dur) && Rebuilt(es, pre, post, broken, dur)
    ensures Inv(post, dur) && pre.head.number <= post.head.number
  {
    HeadRises(es, pre, post, broken, dur);
    if post != pre {
      PushKeepsInv(pre, post.head, dur, post.interval);
    }
  }

  lemma StepKeeps(broken: int, dur: int, s: Sys, t: Sys, step: Step)
    requires dur >= 0 && Inv(s.pool, dur) && Next(broken, dur, s, t, step)
    ensures Inv(t.pool, dur) && s.pool.head.number <= t.pool.head.number
    ensures forall id | id in s.entries && id in t.entries :: s.entries[id].latest.number <= t.entries[id].latest.number
  {
    if step.Rebuilds? {
      RebuildKeeps(s.entries.Values, s.pool, t.pool, broken, dur);
    }
  }

  /** Over every run the queue keeps its order, its back and its span, the interval stays within
      bounds, and the head's number never decreases. */
  lemma {:induction false} RunKeepsInv(broken: int, dur: int, ss: seq<Sys>, steps: seq<Step>, i: nat, j: nat)
    requires dur >= 0 && Run(broken, dur, ss, steps) && i <= j < |ss|
    ensures Inv(ss[j].pool, dur) && ss[i].pool.head.number <= ss[j].pool.head.number
    decreases j
  {
    if i < j {
      RunKeepsInv(broken, dur, ss, steps, i, j - 1);
      StepKeeps(broken, dur, ss[j - 1], ss[j], steps[j - 1]);
    } else if j > 0 {
      RunKeepsInv(broken, dur, ss, steps, i - 1, j - 1);
      StepKeeps(broken, dur, ss[j - 1], ss[j], steps[j - 1]);
    }
  }

  /** Whenever the status is rebuilt in a run from some entry that is enabled, initialized and not
      behind the head, the pool is ready, and for one highest block among those entries the new head
      is the block of one of them whose time is at most `broken` behind it, at or below the block of
      every other such one. */
  lemma RebuiltHeadIsLow(broken: int, dur: int, ss: seq<Sys>, steps: seq<Step>, k: nat, valid: set<Entry>)
    requires dur >= 0 && broken >= 0 && Run(broken, dur, ss, steps) && k < |steps| && steps[k].Rebuilds?
    requires forall e :: e in valid <==>
               e in ss[k].entries.Values && e.enable && e.initialized && e.latest.number >= ss[k].pool.head.number
    requires valid != {}
    ensures ss[k + 1].pool.ready
    ensures IsLowest(valid, broken, ss[k + 1].pool.head)
  {
    var es, pre := ss[k].entries.Values, ss[k].pool.head;
    var e :| e in valid;
    assert Candidate(e, pre);
    assert Rebuilt(es, ss[k].pool, ss[k + 1].pool, broken, dur);
    var top :| IsTop(es, pre, top) && IsHead(es, pre, broken, top, ss[k + 1].pool.head);
    var d :| d in es && Candidate(d, pre) && d.latest == top;
    assert d in valid && top.time - d.latest.time <= broken;
    assert forall x | x in valid :: x in es && Candidate(x, pre);
    assert IsLowestInStep(valid, broken, top, ss[k + 1].pool.head);
  }

  ghost predicate IsLowest(valid: set<Entry>, broken: int, head: Block) {
    exists top :: IsLowestInStep(valid, broken, top, head)
  }

  ghost predicate IsLowestInStep(valid: set<Entry>, broken: int, top: Block, head: Block) {
    && (exists e :: e in valid && e.latest == top)
    && (forall e | e in valid :: e.latest.number <= top.number)
    && (exists e :: e in valid && e.latest == head && top.time - e.latest.time <= broken)
    && (forall e | e in valid && top.time - e.latest.time <= broken :: head.number <= e.latest.number)
  }

  /** Without such an entry a rebuild changes nothing. */
  lemma RebuiltWithoutEntries(broken: int, dur: int, ss: seq<Sys>, steps: seq<Step>, k: nat)
    requires Run(broken, dur, ss, steps) && k < |steps| && steps[k].Rebuilds?
    requires forall e | e in ss[k].entries.Values ::
               !e.enable || !e.initialized || e.latest.number < ss[k].pool.head.number
    ensures ss[k + 1] == ss[k]
  {
    assert Next(broken, dur, ss[k], ss[k + 1], steps[k]);
    assert forall e | e in ss[k].entries.Values :: !Candidate(e, ss[k].pool.head);
  }

  /** The interval is the average over the queue, or was kept because that is not known. */
  ghost predicate Measured(p: Status, dur: int) {
    p.queue != [] && p.head == Last(p.queue) ==>
      exists avg :: IsAverage(p.queue[0], p.head, dur, avg) && (avg == 0 || p.interval == avg)
  }

  lemma {:induction false} RunMeasures(broken: int, dur: int, ss: seq<Sys>, steps: seq<Step>, i: nat)
    requires Run(broken, dur, ss, steps) && i < |ss|
    ensures Measured(ss[i].pool, dur)
  {
    if i > 0 {
      RunMeasures(broken, dur, ss, steps, i - 1);
      assert Next(broken, dur, ss[i - 1], ss[i], steps[i - 1]);
      if ss[i].pool != ss[i - 1].pool {
        AverageIsTimePerBlock(ss[i].pool.queue, ss[i].pool.head, dur);
      }
    }
  }

  /** Over every run: when the blocks in the queue are evenly `d` apart, at most `dur`, the interval
      is exactly `d`. */
  lemma EvenBlocksGiveInterval(broken: int, dur: int, ss: seq<Sys>, steps: seq<Step>, i: nat, d: int)
    requires dur >= 0 && Run(broken, dur, ss, steps) && i < |ss|
    requires |ss[i].pool.queue| >= 2 && Even(ss[i].pool.queue, d) && 0 < d <= dur
    ensures ss[i].pool.interval == d
  {
    var p := ss[i].pool;
    RunKeepsInv(broken, dur, ss, steps, i, i);
    RunMeasures(broken, dur, ss, steps, i);
    var avg :| IsAverage(p.queue[0], p.head, dur, avg) && (avg == 0 || p.interval == avg);
    EvenAverage(p.queue, d, dur, avg);
  }
}
