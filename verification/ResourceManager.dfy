/** A priority resource allocator (common/concurrency/resource_manager.go): requests that
    cannot be met wait in a hand-written binary heap. A waiter's channel is named by its
    arrival index, which is unique, and `closed` holds the channels that were closed. */
module ResourcePool {

  datatype Waiter = Waiter(priority: int, index: int, num: int)

  /** Smaller priority first, then earlier arrival. */
  predicate InFront(w: Waiter, a: Waiter) {
    if w.priority != a.priority then w.priority < a.priority else w.index < a.index
  }

  /** What the manager holds: free resources, requests so far, and the waiters by index. */
  datatype Pool = Pool(cur: int, count: int, queue: map<int, Waiter>, closed: set<int>)

  /** The waiter with the smallest priority, and of those with it the one that came first. */
  ghost predicate Leader(q: map<int, Waiter>, id: int) {
    && id in q
    && (forall x | x in q :: q[id].priority <= q[x].priority)
    && (forall x | x in q && q[x].priority == q[id].priority :: id <= x)
  }

  ghost predicate Indexed(q: map<int, Waiter>) { forall id | id in q :: q[id].index == id }

  /** Such a waiter is the one that nobody is in front of. */
  lemma LeaderIff(q: map<int, Waiter>, id: int)
    requires Indexed(q) && id in q
    ensures Leader(q, id) <==> forall x | x in q :: !InFront(q[x], q[id])
  {
    if forall x | x in q :: !InFront(q[x], q[id]) {
      forall x | x in q
        ensures q[id].priority <= q[x].priority && (q[x].priority == q[id].priority ==> id <= x)
      {
        assert !InFront(q[x], q[id]);
      }
    }
  }

  /** The leader gets its resources if there are enough; at most this one waiter is served. */
  ghost function ServeLeader(p: Pool, id: int): Pool
    requires id in p.queue
  {
    if p.cur < p.queue[id].num then p
    else Pool(p.cur - p.queue[id].num, p.count, p.queue - {id}, p.closed + {id})
  }

  ghost predicate Grant(p: Pool, p': Pool) {
    if p.queue == map[] then p' == p
    else exists id :: Leader(p.queue, id) && p' == ServeLeader(p, id)
  }

  /** What a grant comes to: the waiter to be served first gets its resources if there are enough. */
  lemma GrantMeans(p: Pool, p': Pool, id: int)
    requires Grant(p, p') && Leader(p.queue, id)
    ensures p.cur < p.queue[id].num ==> p' == p
    ensures p.cur >= p.queue[id].num ==>
              p' == Pool(p.cur - p.queue[id].num, p.count, p.queue - {id}, p.closed + {id})
  {
  }

  lemma GrantTo(p: Pool, p': Pool, id: int)
    requires Leader(p.queue, id) && p' == ServeLeader(p, id)
    ensures Grant(p, p')
  {
  }

  ghost predicate GiveBack(p: Pool, p': Pool, num: int) {
    Grant(p.(cur := p.cur + num), p')
  }

  ghost predicate Cancel(p: Pool, p': Pool, id: int, num: int) {
    if id in p.queue then Grant(p.(queue := p.queue - {id}), p') else GiveBack(p, p', num)
  }
}

module ResourceManager {
  import opened ResourcePool

  function Parent(i: nat): nat
    requires i > 0
  {
    (i - 1) / 2
  }

  ghost predicate Ordered(s: seq<Waiter>, i: nat)
    requires 0 < i < |s|
  {
    !InFront(s[i], s[Parent(i)])
  }

  ghost predicate Heap(s: seq<Waiter>) {
    forall i | 0 < i < |s| :: Ordered(s, i)
  }

  /** Children of `n` are not in front of the parent of `n`. */
  ghost predicate Spans(s: seq<Waiter>, n: nat)
    requires n < |s|
  {
    forall c | 0 < c < |s| && Parent(c) == n && n > 0 :: !InFront(s[c], s[Parent(n)])
  }

  /** Heap order except that `n` may be in front of its parent. */
  ghost predicate HeapButUp(s: seq<Waiter>, n: nat)
    requires n < |s|
  {
    Spans(s, n) && forall i | 0 < i < |s| && i != n :: Ordered(s, i)
  }

  /** Heap order except around `n`, in both directions. */
  ghost predicate HeapBut(s: seq<Waiter>, n: nat)
    requires n < |s|
  {
    Spans(s, n) && forall i | 0 < i < |s| && i != n && Parent(i) != n :: Ordered(s, i)
  }

  ghost predicate Unique(s: seq<Waiter>) {
    forall i, j | 0 <= i < j < |s| :: s[i].index != s[j].index
  }

  /** The waiters by index. */
  ghost function ByIndex(s: seq<Waiter>): (m: map<int, Waiter>)
    requires Unique(s)
    ensures forall w :: w in s <==> w.index in m && m[w.index] == w
    ensures forall id | id in m :: m[id].index == id
  {
    map i | 0 <= i < |s| :: s[i].index := s[i]
  }

  lemma ByIndexIs(t: seq<Waiter>, m: map<int, Waiter>)
    requires Unique(t)
    requires forall id | id in m :: m[id].index == id
    requires forall w :: w in t <==> w.index in m && m[w.index] == w
    ensures ByIndex(t) == m
  {
    var b := ByIndex(t);
    forall id | id in b ensures id in m && b[id] == m[id] { assert b[id] in t; }
    forall id | id in m ensures id in b { assert m[id] in t; }
  }

  lemma Members(s: seq<Waiter>, w: Waiter)
    requires Unique(s)
    ensures multiset(s)[w] == if w in s then 1 else 0
  {
    OnceEach(s, w);
    assert w in s <==> w in multiset(s);
  }

  lemma Reordered(s: seq<Waiter>, t: seq<Waiter>)
    requires Unique(s) && multiset(t) == multiset(s)
    ensures Unique(t) && ByIndex(t) == ByIndex(s)
  {
    UniqueByContents(s, t);
    forall w ensures w in t <==> w in s { Members(s, w); Members(t, w); }
    ByIndexIs(t, ByIndex(s));
  }

  lemma WithoutOne(s: seq<Waiter>, t: seq<Waiter>, g: Waiter)
    requires Unique(s) && g in s && multiset(t) == multiset(s) - multiset{g}
    ensures Unique(t) && ByIndex(t) == ByIndex(s) - {g.index}
  {
    UniqueByContents(s, t);
    forall w ensures w in t <==> w in s && w != g { Members(s, w); Members(t, w); }
    ByIndexIs(t, ByIndex(s) - {g.index});
  }

  lemma Appended(s: seq<Waiter>, g: Waiter)
    requires Unique(s) && forall w | w in s :: w.index < g.index
    ensures Unique(s + [g]) && ByIndex(s + [g]) == ByIndex(s)[g.index := g]
  {
    ByIndexIs(s + [g], ByIndex(s)[g.index := g]);
  }

  /** Nobody queued is in front of the root. */
  lemma {:induction false} RootLeads(s: seq<Waiter>, i: nat)
    requires Heap(s) && i < |s|
    ensures !InFront(s[i], s[0])
  {
    if i > 0 {
      assert Ordered(s, i);
      RootLeads(s, Parent(i));
    }
  }

  function Swap(s: seq<Waiter>, i: nat, j: nat): (r: seq<Waiter>)
    requires i < |s| && j < |s|
    ensures multiset(r) == multiset(s)
  {
    s[i := s[j]][j := s[i]]
  }

  /** The root of the heap is the waiter to be served first. */
  lemma RootIsLeader(s: seq<Waiter>)
    requires Heap(s) && Unique(s) && s != []
    ensures s[0].index in ByIndex(s) && ByIndex(s)[s[0].index] == s[0] && Leader(ByIndex(s), s[0].index)
  {
    var q := ByIndex(s);
    assert s[0] in s;
    forall id | id in q
      ensures !InFront(q[id], s[0])
    {
      assert q[id] in s;
      var k :| 0 <= k < |s| && s[k] == q[id];
      RootLeads(s, k);
    }
    LeaderIff(q, s[0].index);
  }

  lemma UniqueByContents(s: seq<Waiter>, t: seq<Waiter>)
    requires Unique(s) && multiset(t) <= multiset(s)
    ensures Unique(t)
  {
    forall i, j | 0 <= i < j < |t|
      ensures t[i].index != t[j].index
    {
      if t[i] == t[j] {
        PairCount(t, i, j);
        assert multiset(s)[t[i]] >= 2;
        OnceEach(s, t[i]);
      } else {
        assert t[i] in multiset(t) && t[j] in multiset(t);
        assert t[i] in s && t[j] in s;
      }
    }
  }

  lemma PairCount(t: seq<Waiter>, i: nat, j: nat)
    requires i < j < |t| && t[i] == t[j]
    ensures multiset(t)[t[i]] >= 2
  {
    assert t == t[..j] + [t[j]] + t[j + 1..];
    assert t[i] in t[..j];
    assert multiset(t[..j])[t[i]] >= 1;
  }

  lemma {:induction false} OnceEach(s: seq<Waiter>, w: Waiter)
    requires Unique(s)
    ensures multiset(s)[w] <= 1
  {
    if s != [] {
      OnceEach(s[1..], w);
      assert s == [s[0]] + s[1..];
      if s[0] == w {
        assert w !in s[1..];
      }
    }
  }

  class Manager {
    const maxResource: int
    var curResource: int
    var count: int
    var waiters: seq<Waiter>
    var closed: set<int>

    ghost predicate Valid()
      reads this
    {
      Heap(waiters) && Unique(waiters) && forall i | 0 <= i < |waiters| :: waiters[i].index < count
    }

    ghost function View(): Pool
      requires Valid()
      reads this
    {
      Pool(curResource, count, ByIndex(waiters), closed)
    }

    constructor (resourceCount: int)
      ensures Valid() && maxResource == resourceCount
      ensures View() == Pool(resourceCount, 0, map[], {})
    {
      maxResource, curResource, count, waiters, closed := resourceCount, resourceCount, 0, [], {};
    }

    method SiftUp(start: nat)
      requires start < |waiters| && HeapButUp(waiters, start)
      modifies this`waiters
      ensures Heap(waiters) && multiset(waiters) == old(multiset(waiters))
    {
      var n := start;
      while n > 0
        invariant 0 <= n < |waiters| && HeapButUp(waiters, n)
        invariant multiset(waiters) == old(multiset(waiters))
      {
        var up := Parent(n);
        if InFront(waiters[n], waiters[up]) {
          SwapUp(waiters, n);
          waiters := Swap(waiters, n, up);
          n := up;
        } else {
          assert Ordered(waiters, n);
          break;
        }
      }
    }

    method SiftDown(start: nat) returns (moved: bool)
      requires start < |waiters| && HeapBut(waiters, start)
      modifies this`waiters
      ensures multiset(waiters) == old(multiset(waiters))
      ensures moved ==> Heap(waiters)
      ensures !moved ==> waiters == old(waiters) && HeapButUp(waiters, start)
    {
      var n := start;
      var size := |waiters|;
      while true
        invariant start <= n < |waiters| == size
        invariant HeapBut(waiters, n) && (n != start && n > 0 ==> Ordered(waiters, n))
        invariant n == start ==> waiters == old(waiters)
        invariant multiset(waiters) == old(multiset(waiters))
        decreases size - n
      {
        var right := (n + 1) * 2;
        var left := right - 1;
        if left >= size {
          break;
        }
        var next := left;
        if right < size && InFront(waiters[right], waiters[next]) {
          next := right;
        }
        FirstChild(waiters, n, next);
        if !InFront(waiters[next], waiters[n]) {
          NoChildAhead(waiters, n, next);
          break;
        }
        SwapDown(waiters, n, next);
        waiters := Swap(waiters, next, n);
        n := next;
      }
      moved := n > start;
    }

    /** Removes exactly the waiter at heap index `i`. */
    method RemoveWaiterAt(i: nat)
      requires Valid() && i < |waiters|
      modifies this`waiters
      ensures Valid()
      ensures multiset(waiters) == old(multiset(waiters)) - multiset{old(waiters[i])}
      ensures ByIndex(waiters) == old(ByIndex(waiters)) - {old(waiters[i].index)}
    {
      PullOut(i);
      WithoutOne(old(waiters), waiters, old(waiters[i]));
      Kept(old(waiters), waiters);
    }

    /** The last waiter takes the place of the removed one and moves either way. */
    method PullOut(i: nat)
      requires Heap(waiters) && i < |waiters|
      modifies this`waiters
      ensures Heap(waiters)
      ensures multiset(waiters) == old(multiset(waiters)) - multiset{old(waiters[i])}
    {
      ghost var was := waiters;
      var tail := |waiters| - 1;
      if i != tail {
        waiters := waiters[i := waiters[tail]];
      }
      waiters := waiters[..tail];
      TakeOut(was, i, waiters);
      if i < |waiters| {
        MovedTail(was, i, waiters);
        var moved := SiftDown(i);
        if !moved {
          SiftUp(i);
        }
      } else {
        assert forall k | 0 < k < |waiters| :: Ordered(was, k) ==> Ordered(waiters, k);
      }
    }

    /** Wakes the queue leader if it can be served. */
    method GrantLocked()
      requires Valid()
      modifies this`curResource, this`waiters, this`closed
      ensures Valid() && Grant(old(View()), View())
    {
      if |waiters| == 0 {
        return;
      }
      var w := waiters[0];
      RootIsLeader(waiters);
      if curResource < w.num {
        GrantTo(View(), View(), w.index);
        return;
      }
      closed := closed + {w.index};
      curResource := curResource - w.num;
      RemoveWaiterAt(0);
      assert View() == ServeLeader(old(View()), w.index);
      GrantTo(old(View()), View(), w.index);
    }

    method ReleaseLocked(num: int)
      requires Valid()
      modifies this`curResource, this`waiters, this`closed
      ensures Valid() && GiveBack(old(View()), View(), num)
      ensures Grant(old(View()).(cur := old(curResource) + num), View())
    {
      curResource := curResource + num;
      GrantLocked();
    }

    method AddWaiter(priority: int, num: int) returns (ch: int)
      requires Valid()
      modifies this`waiters, this`count
      ensures Valid() && ch == old(count) && count == old(count) + 1
      ensures multiset(waiters) == old(multiset(waiters)) + multiset{Waiter(priority, ch, num)}
      ensures ByIndex(waiters) == old(ByIndex(waiters))[ch := Waiter(priority, ch, num)]
    {
      ch := count;
      ghost var was := waiters;
      waiters := waiters + [Waiter(priority, ch, num)];
      count := count + 1;
      ghost var grown := waiters;
      assert forall i | 0 < i < |was| :: Ordered(was, i) ==> Ordered(grown, i);
      SiftUp(|waiters| - 1);
      Appended(was, Waiter(priority, ch, num));
      Reordered(grown, waiters);
      Kept(grown, waiters);
    }

    /** A waiter still queued leaves the queue; one granted meanwhile gives its resources back. */
    method CancelWaiter(ch: int, num: int)
      requires Valid()
      modifies this`curResource, this`waiters, this`closed
      ensures Valid() && Cancel(old(View()), View(), ch, num)
      ensures ch in old(View()).queue ==> Grant(old(View()).(queue := old(View()).queue - {ch}), View())
      ensures ch !in old(View()).queue ==> Grant(old(View()).(cur := old(curResource) + num), View())
    {
      for i := 0 to |waiters|
        invariant Valid() && View() == old(View())
        invariant forall k | 0 <= k < i :: waiters[k].index != ch
      {
        if waiters[i].index == ch {
          assert waiters[i] in waiters;
          RemoveWaiterAt(i);
          GrantLocked();
          return;
        }
      }
      assert ch !in ByIndex(waiters);
      ReleaseLocked(num);
    }

    /** The locked part of Apply: refuse, take at once (even past a queue), or queue. */
    method ApplyLocked(priority: int, num: int) returns (outcome: Outcome)
      requires Valid()
      modifies this`curResource, this`waiters, this`count
      ensures Valid()
      ensures num > maxResource ==> outcome == Refused && View() == old(View())
      ensures num <= maxResource && old(curResource) >= num ==>
          outcome == Acquired && View() == old(View()).(cur := old(curResource) - num, count := old(count) + 1)
      ensures num <= maxResource && old(curResource) < num ==>
          && outcome == Queued(old(count))
          && View() == old(View()).(count := old(count) + 1,
                                    queue := old(View()).queue[old(count) := Waiter(priority, old(count), num)])
    {
      if num > maxResource {
        return Refused;
      }
      if curResource >= num {
        curResource := curResource - num;
        count := count + 1;
        return Acquired;
      }
      var ch := AddWaiter(priority, num);
      return Queued(ch);
    }
  }

  datatype Outcome = Refused | Acquired | Queued(ch: int)

  lemma SwapUp(s: seq<Waiter>, n: nat)
    requires 0 < n < |s| && HeapButUp(s, n) && InFront(s[n], s[Parent(n)])
    ensures HeapButUp(Swap(s, n, Parent(n)), Parent(n))
  {
    var up := Parent(n);
    var t := Swap(s, n, up);
    forall i | 0 < i < |t| && i != up
      ensures Ordered(t, i)
    {
      if i != n {
        assert Ordered(s, i);
      }
    }
    forall c | 0 < c < |t| && Parent(c) == up && up > 0
      ensures !InFront(t[c], t[Parent(up)])
    {
      assert Ordered(s, up);
      if c != n {
        assert Ordered(s, c);
      }
    }
  }

  /** Of the one or two children of `n`, none is in front of `next`. */
  lemma FirstChild(s: seq<Waiter>, n: nat, next: nat)
    requires n < |s| && n * 2 + 1 < |s| && (next == n * 2 + 1 || (next == n * 2 + 2 && next < |s|))
    requires next == n * 2 + 1 && n * 2 + 2 < |s| ==> !InFront(s[n * 2 + 2], s[next])
    requires next == n * 2 + 2 ==> InFront(s[next], s[n * 2 + 1])
    ensures Parent(next) == n && forall c | 0 < c < |s| && Parent(c) == n :: !InFront(s[c], s[next])
  {
  }

  lemma NoChildAhead(s: seq<Waiter>, n: nat, next: nat)
    requires n < |s| && 0 < next < |s| && !InFront(s[next], s[n])
    requires forall c | 0 < c < |s| && Parent(c) == n :: !InFront(s[c], s[next])
    ensures forall c | 0 < c < |s| && Parent(c) == n :: Ordered(s, c)
  {
  }

  lemma SwapDown(s: seq<Waiter>, n: nat, next: nat)
    requires n < |s| && HeapBut(s, n) && 0 < next < |s| && Parent(next) == n && InFront(s[next], s[n])
    requires forall c | 0 < c < |s| && Parent(c) == n :: !InFront(s[c], s[next])
    ensures HeapBut(Swap(s, next, n), next) && Ordered(Swap(s, next, n), next)
  {
    var t := Swap(s, next, n);
    forall i | 0 < i < |t| && i != next && Parent(i) != next
      ensures Ordered(t, i)
    {
      if i != n && Parent(i) != n {
        assert Ordered(s, i);
      }
    }
    forall c | 0 < c < |t| && Parent(c) == next
      ensures !InFront(t[c], t[Parent(next)])
    {
      assert Ordered(s, c);
    }
  }

  /** Overwriting place `i` with the last element and dropping the tail takes out one element. */
  lemma TakeOut(s: seq<Waiter>, i: nat, t: seq<Waiter>)
    requires i < |s| && t == s[i := s[|s| - 1]][..|s| - 1]
    ensures multiset(t) == multiset(s) - multiset{s[i]}
  {
    var u := s[i := s[|s| - 1]];
    assert u == t + [s[|s| - 1]];
    assert multiset(u) == multiset(s) - multiset{s[i]} + multiset{s[|s| - 1]};
    SameBesides(multiset(t), multiset(s) - multiset{s[i]}, multiset{s[|s| - 1]});
  }

  lemma SameBesides(a: multiset<Waiter>, b: multiset<Waiter>, last: multiset<Waiter>)
    requires a + last == b + last
    ensures a == b
  {
    assert a == (a + last) - last && b == (b + last) - last;
  }

  lemma MovedTail(s: seq<Waiter>, i: nat, t: seq<Waiter>)
    requires Heap(s) && i < |t| == |s| - 1 && t == s[i := s[|s| - 1]][..|s| - 1]
    ensures HeapBut(t, i)
  {
    forall k | 0 < k < |t| && k != i && Parent(k) != i
      ensures Ordered(t, k)
    {
      assert Ordered(s, k);
    }
    forall c | 0 < c < |t| && Parent(c) == i && i > 0
      ensures !InFront(t[c], t[Parent(i)])
    {
      assert Ordered(s, c) && Ordered(s, i);
    }
  }

  lemma Kept(s: seq<Waiter>, t: seq<Waiter>)
    requires multiset(t) <= multiset(s)
    ensures forall i | 0 <= i < |t| :: t[i] in s
  {
    forall i | 0 <= i < |t|
      ensures t[i] in s
    {
      assert t[i] in multiset(t);
    }
  }
}
