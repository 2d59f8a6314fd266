/** The in-memory window of the newest slots (chain/chain/cache_latest_slot.go). */
module LatestSlotCache {
  import opened Options
  import opened Powers
  import opened Ranges
  import opened Slots

  datatype Cache = Cache(mem: map<nat, Slot>, range: Range, ready: bool)

  /** The cached numbers are exactly the recorded range, and linked slot types are linked. */
  ghost predicate Valid(linked: bool, parentOf: Hash -> Hash, c: Cache) {
    && c.range.end.Fin?
    && (forall n: nat :: n in c.mem <==> c.range.Contains(n))
    && (forall n | n in c.mem :: c.mem[n].number == n)
    && (linked ==> forall n | n in c.mem :: Rooted(parentOf, c.mem[n]))
    && (linked ==> forall n, m | n in c.mem && m in c.mem && m == n + 1 :: c.mem[n].hash == c.mem[m].parentHash)
  }

  function PutAll(mem: map<nat, Slot>, slots: seq<Slot>): map<nat, Slot>
  {
    if slots == [] then mem
    else PutAll(mem, slots[..|slots| - 1])[slots[|slots| - 1].number := slots[|slots| - 1]]
  }

  /** What the write section of `growth` does to the cache. */
  function CommitGrowth(c: Cache, cur: Range, newRange: Range, loaded: seq<Slot>): Cache {
    var put := PutAll(c.mem, loaded);
    var gone := cur.Remove(newRange).First();
    Cache(map n | n in put && !gone.Contains(n) :: put[n], newRange, true)
  }

  /** What the write section of `tryLoadL2Cache` does. */
  function CommitL2(c: Cache, loadRange: Range, slots: seq<Slot>): Cache {
    Cache(PutAll(map[], slots), loadRange, c.ready)
  }

  /** What the patch section of `repairRound` does. */
  function CommitRepair(c: Cache, fixed: Slot): Cache {
    if fixed.number in c.mem && c.mem[fixed.number].hash == fixed.hash
    then c.(mem := c.mem[fixed.number := fixed]) else c
  }

  ghost predicate Consecutive(slots: seq<Slot>, start: nat) {
    forall i | 0 <= i < |slots| :: slots[i].number == start + i
  }

  lemma {:induction false} PutAllConsecutive(mem: map<nat, Slot>, slots: seq<Slot>, start: nat)
    requires Consecutive(slots, start)
    ensures forall n :: n in PutAll(mem, slots) <==> n in mem || start <= n < start + |slots|
    ensures forall n | n in PutAll(mem, slots) ::
              PutAll(mem, slots)[n] == if start <= n < start + |slots| then slots[n - start] else mem[n]
  {
    if slots != [] {
      PutAllConsecutive(mem, slots[..|slots| - 1], start);
    }
  }

  /** What the new range gives up of the old one lies at its left. */
  predicate KeepsRight(cur: Range, newRange: Range) {
    cur.end.Fin? && newRange.end.Fin? &&
    (cur.IsEmpty() || newRange.IsEmpty() || (cur.start <= newRange.start && cur.end.n <= newRange.end.n))
  }

  lemma GoneIsLeft(cur: Range, newRange: Range)
    requires KeepsRight(cur, newRange)
    ensures cur.Remove(newRange).First().end.Fin?
    ensures forall n: nat :: cur.Remove(newRange).First().Contains(n) <==> cur.Contains(n) && !newRange.Contains(n)
  {
  }

  /** Loaded slots that complete the part of the cache kept in `newRange`: they run from
      `start` to its right end, cover what is not cached, and link up with what is. */
  ghost predicate Fits(linked: bool, parentOf: Hash -> Hash,
                       mem: map<nat, Slot>, cur: Range, newRange: Range, start: nat, loaded: seq<Slot>)
  {
    && newRange.end.Fin?
    && Consecutive(loaded, start)
    && (forall n: nat | newRange.Contains(n) :: cur.Contains(n) || start <= n < start + |loaded|)
    && (loaded != [] ==> newRange.Contains(start) && newRange.end.n == start + |loaded| - 1)
    && KeepsRight(cur, newRange)
    && (linked ==>
          && (forall i | 0 <= i < |loaded| :: Rooted(parentOf, loaded[i]))
          && Linked(loaded)
          && (loaded != [] && start > 0 && start - 1 in mem && newRange.Contains(start - 1) ==>
                mem[start - 1].hash == loaded[0].parentHash))
  }

  /** `d` is `mem` cut to `newRange` with the loaded slots put in. */
  ghost predicate Patched(mem: map<nat, Slot>, d: map<nat, Slot>, newRange: Range, start: nat, loaded: seq<Slot>) {
    && (forall n: nat :: n in d <==> newRange.Contains(n))
    && (forall n | n in d :: start <= n < start + |loaded| || n in mem)
    && (forall n | n in d :: d[n] == if start <= n < start + |loaded| then loaded[n - start] else mem[n])
  }

  lemma CommittedSlots(linked: bool, parentOf: Hash -> Hash,
                       c: Cache, newRange: Range, start: nat, loaded: seq<Slot>)
    requires Valid(linked, parentOf, c) && Fits(linked, parentOf, c.mem, c.range, newRange, start, loaded)
    ensures Patched(c.mem, CommitGrowth(c, c.range, newRange, loaded).mem, newRange, start, loaded)
  {
    PutAllConsecutive(c.mem, loaded, start);
    GoneIsLeft(c.range, newRange);
    var d := CommitGrowth(c, c.range, newRange, loaded);
    forall n: nat
      ensures n in d.mem <==> newRange.Contains(n)
    {
      if start <= n < start + |loaded| {
        assert newRange.Contains(n);
      }
    }
  }

  lemma CommitGrowthKeepsValid(linked: bool, parentOf: Hash -> Hash,
                               c: Cache, newRange: Range, start: nat, loaded: seq<Slot>)
    requires Valid(linked, parentOf, c) && Fits(linked, parentOf, c.mem, c.range, newRange, start, loaded)
    ensures Valid(linked, parentOf, CommitGrowth(c, c.range, newRange, loaded))
  {
    CommittedSlots(linked, parentOf, c, newRange, start, loaded);
    var d := CommitGrowth(c, c.range, newRange, loaded);
    if linked {
      forall n, m | n in d.mem && m in d.mem && m == n + 1
        ensures d.mem[n].hash == d.mem[m].parentHash
      {
        PatchedLinks(parentOf, c, d.mem, newRange, start, loaded, n);
      }
    }
  }

  lemma PatchedLinks(parentOf: Hash -> Hash, c: Cache, d: map<nat, Slot>, newRange: Range, start: nat,
                     loaded: seq<Slot>, n: nat)
    requires Valid(true, parentOf, c) && Fits(true, parentOf, c.mem, c.range, newRange, start, loaded)
    requires Patched(c.mem, d, newRange, start, loaded) && n in d && n + 1 in d
    ensures d[n].hash == d[n + 1].parentHash
  {
    if start <= n && n + 1 < start + |loaded| {
      assert loaded[n + 1 - start].parentHash == loaded[n + 1 - start - 1].hash;
    } else if n + 1 == start && loaded != [] {
      assert d[n + 1] == loaded[0];
    }
  }

  lemma CommitL2KeepsValid(linked: bool, parentOf: Hash -> Hash, c: Cache, r: Range, slots: seq<Slot>)
    requires r.end.Fin? && |slots| == r.Size() && Consecutive(slots, r.start)
    requires linked ==> Linked(slots) && forall i | 0 <= i < |slots| :: Rooted(parentOf, slots[i])
    ensures Valid(linked, parentOf, CommitL2(c, r, slots))
  {
    PutAllConsecutive(map[], slots, r.start);
    var d := CommitL2(c, r, slots);
    if linked {
      forall n, m | n in d.mem && m in d.mem && m == n + 1
        ensures d.mem[n].hash == d.mem[m].parentHash
      {
        assert slots[n + 1 - r.start - 1].hash == slots[n + 1 - r.start].parentHash;
      }
    }
  }

  /** A repaired slot goes in only over a slot of equal hash, so nothing that links changes. */
  lemma CommitRepairKeepsValid(linked: bool, parentOf: Hash -> Hash, c: Cache, fixed: Slot)
    requires Valid(linked, parentOf, c) && (linked ==> Rooted(parentOf, fixed))
    ensures Valid(linked, parentOf, CommitRepair(c, fixed))
    ensures CommitRepair(c, fixed).range == c.range
    ensures CommitRepair(c, fixed).mem.Keys == c.mem.Keys
    ensures forall n | n in c.mem :: CommitRepair(c, fixed).mem[n].hash == c.mem[n].hash
  {
    var d := CommitRepair(c, fixed);
    assert d.mem.Keys == c.mem.Keys;
  }

  /** The range the cache will hold after growing to the end of `ext`. */
  function Window(cur: Range, ext: Range, maxSize: nat, minSize: nat): Range
    requires ext.end.Fin?
  {
    if cur.IsEmpty() then NewRangeByEndAndSize(ext.end.n, minSize).Intersection(ext)
    else
      var w := NewRangeByEndAndSize(ext.end.n, maxSize).Intersection(ext);
      Range(Max(w.start, cur.start), w.end)
  }

  /** `r` holds exactly the last `size` numbers of the source, from `from` on. */
  ghost predicate HoldsLast(r: Range, ext: Range, from: nat, size: nat)
    requires ext.end.Fin?
  {
    && (forall n: nat :: r.Contains(n) <==> from <= n && ext.Contains(n) && n + size > ext.end.n)
    && (!ext.IsEmpty() ==> r.end == ext.end)
  }

  /** What a growth makes of the range `cur`: of an empty one the source's last `minSize` numbers, of
      another one those of its last `maxSize` that are not left of it. */
  ghost predicate GrownRange(cur: Range, ext: Range, maxSize: nat, minSize: nat, r: Range)
    requires ext.end.Fin?
  {
    if cur.IsEmpty() then HoldsLast(r, ext, 0, minSize) else HoldsLast(r, ext, cur.start, maxSize)
  }

  lemma WindowIsLast(cur: Range, ext: Range, maxSize: nat, minSize: nat)
    requires ext.end.Fin? && maxSize > 0 && minSize > 0 && (cur.IsEmpty() || Less(cur.end, ext.end))
    ensures GrownRange(cur, ext, maxSize, minSize, Window(cur, ext, maxSize, minSize))
  {
    LastOfSource(ext, minSize);
    LastOfSource(ext, maxSize);
  }

  lemma LastOfSource(ext: Range, size: nat)
    requires ext.end.Fin? && size > 0
    ensures HoldsLast(NewRangeByEndAndSize(ext.end.n, size).Intersection(ext), ext, 0, size)
  {
  }

  ghost predicate Agrees(mem: map<nat, Slot>, src: nat -> Slot) {
    forall n | n in mem :: mem[n].hash == src(n).hash
  }

  /** Equal hashes at `p` mean equal hashes at every cached number below it. */
  lemma {:induction false} AgreesDownward(parentOf: Hash -> Hash, c: Cache, src: nat -> Slot, p: nat, n: nat)
    requires Valid(true, parentOf, c) && Chain(true, parentOf, src)
    requires p in c.mem && n in c.mem && n <= p && c.mem[p].hash == src(p).hash
    ensures c.mem[n].hash == src(n).hash
    decreases p
  {
    if n < p {
      assert p - 1 in c.mem;
      assert c.mem[p - 1].hash == c.mem[(p - 1) + 1].parentHash;
      assert src((p - 1) + 1).parentHash == src(p - 1).hash;
      AgreesDownward(parentOf, c, src, p - 1, n);
    }
  }

  /** The slots the source holds for a finite range. */
  function LoadFrom(src: nat -> Slot, r: Range): seq<Slot>
    requires r.end.Fin?
  {
    seq(r.Size(), i requires 0 <= i < r.Size() => src(r.start + i))
  }

  ghost predicate FromSource(src: nat -> Slot, start: nat, loaded: seq<Slot>) {
    forall i: nat, n: nat | i < |loaded| && n == start + i :: loaded[i] == src(n)
  }

  /** What reading the second-level cache gave. */
  datatype L2Read = NoL2 | L2Failed | L2(has: Range, at: nat -> Slot)

  /** The cached range after an empty cache was filled from the second-level cache. */
  function Refilled(cur: Range, l2: L2Read, ext: Range, size: nat): (r: Range)
    requires ext.end.Fin? && cur.end.Fin?
    ensures r.end.Fin?
  {
    if cur.IsEmpty() && !ext.IsEmpty() && l2.L2?
    then l2.has.Intersection(NewRangeByEndAndSize(ext.end.n, size)) else cur
  }

  /** The cache after that. */
  function RefilledCache(c: Cache, l2: L2Read, ext: Range, size: nat): Cache
    requires ext.end.Fin? && c.range.end.Fin?
  {
    if c.range.IsEmpty() && !ext.IsEmpty() && l2.L2? then
      var r := Refilled(c.range, l2, ext, size);
      CommitL2(c, r, LoadFrom(l2.at, r))
    else c
  }

  /** `at` gives a slot for each number of `r`, linked. */
  ghost predicate ChainOn(linked: bool, parentOf: Hash -> Hash, at: nat -> Slot, r: Range) {
    && (forall n: nat | r.Contains(n) :: at(n).number == n)
    && (linked ==> forall n: nat | r.Contains(n) :: Rooted(parentOf, at(n)))
    && (linked ==> forall n: nat, m: nat | r.Contains(n) && r.Contains(m) && m == n + 1 ::
          at(n).hash == at(m).parentHash)
  }

  /** Slots as a load of `[start, newRange.end]` returns them: numbered as asked for, their hashes
      committing to their parent hashes. Nothing is said of their links. */
  ghost predicate Loads(linked: bool, parentOf: Hash -> Hash, newRange: Range, start: nat, loaded: seq<Slot>) {
    && newRange.end.Fin? && newRange.start <= start <= newRange.end.n
    && |loaded| == newRange.end.n + 1 - start && Consecutive(loaded, start)
    && (linked ==> forall i | 0 <= i < |loaded| :: Rooted(parentOf, loaded[i]))
  }

  /** What growth passes to the link check: the loaded slots, behind the cached slot left of them
      if that stays cached. */
  ghost function Checking(c: Cache, newRange: Range, start: nat, loaded: seq<Slot>): seq<Slot> {
    if start > 0 && c.range.Contains(start - 1) && newRange.Contains(start - 1) && start - 1 in c.mem
    then [c.mem[start - 1]] + loaded else loaded
  }

  /** `at` numbers the slots of `r`, and their hashes commit to their parent hashes. */
  ghost predicate RootedOn(linked: bool, parentOf: Hash -> Hash, at: nat -> Slot, r: Range) {
    && (forall n: nat | r.Contains(n) :: at(n).number == n)
    && (linked ==> forall n: nat | r.Contains(n) :: Rooted(parentOf, at(n)))
  }

  lemma RootedSlots(linked: bool, parentOf: Hash -> Hash, at: nat -> Slot, r: Range)
    requires r.end.Fin? && RootedOn(linked, parentOf, at, r)
    ensures Consecutive(LoadFrom(at, r), r.start)
    ensures linked ==> forall i | 0 <= i < r.Size() :: Rooted(parentOf, LoadFrom(at, r)[i])
  {
    var s := LoadFrom(at, r);
    forall i | 0 <= i < |s|
      ensures s[i].number == r.start + i && (linked ==> Rooted(parentOf, s[i]))
    {
      assert r.Contains(r.start + i);
    }
  }

  lemma LoadedSlots(linked: bool, parentOf: Hash -> Hash, at: nat -> Slot, r: Range)
    requires r.end.Fin? && ChainOn(linked, parentOf, at, r)
    ensures Consecutive(LoadFrom(at, r), r.start)
    ensures linked ==> Linked(LoadFrom(at, r)) && forall i | 0 <= i < r.Size() :: Rooted(parentOf, LoadFrom(at, r)[i])
  {
    RootedSlots(linked, parentOf, at, r);
    var s := LoadFrom(at, r);
    forall i | 0 < i < |s|
      ensures linked ==> s[i - 1].hash == s[i].parentHash
    {
      assert r.Contains(r.start + i) && r.Contains(r.start + i - 1);
      assert at((r.start + i - 1) + 1) == s[i];
    }
  }

  lemma L2Loaded(linked: bool, parentOf: Hash -> Hash, c: Cache, at: nat -> Slot, has: Range, r: Range)
    requires r.end.Fin? && ChainOn(linked, parentOf, at, has) && forall n: nat | r.Contains(n) :: has.Contains(n)
    ensures var d := CommitL2(c, r, LoadFrom(at, r));
      Valid(linked, parentOf, d) && forall n | n in d.mem :: d.mem[n] == at(n)
  {
    LoadedSlots(linked, parentOf, at, r);
    CommitL2KeepsValid(linked, parentOf, c, r, LoadFrom(at, r));
    PutAllConsecutive(map[], LoadFrom(at, r), r.start);
  }

  /** The cached slot `Pow2(reloads - 1)` below the first tail is not the source's. */
  ghost predicate OffChain(mem: map<nat, Slot>, src: nat -> Slot, newRange: Range, first: nat, reloads: nat)
    requires reloads > 0
  {
    first >= newRange.start + Pow2(reloads - 1) &&
    var p := first - Pow2(reloads - 1);
    p in mem && mem[p].hash != src(p).hash
  }

  lemma MismatchIsOff(mem: map<nat, Slot>, src: nat -> Slot, newRange: Range, first: nat, start: nat, round: nat)
    requires start + Pow2(round) == first + 1 && start > newRange.start
    requires start - 1 in mem && mem[start - 1].hash != src(start - 1).hash
    ensures OffChain(mem, src, newRange, first, round + 1)
  {
    assert first - Pow2(round) == start - 1;
  }

  /** The new range and the part of it right of the cached range. */
  method FirstTail(cur: Range, ext: Range, maxSize: nat, minSize: nat) returns (newRange: Range, tail: Range)
    requires ext.end.Fin? && cur.end.Fin? && maxSize > 0 && minSize > 0
    requires cur.IsEmpty() || cur.end.n < ext.end.n
    ensures newRange == Window(cur, ext, maxSize, minSize) && KeepsRight(cur, newRange)
    ensures !newRange.IsEmpty() ==>
      && tail.end == newRange.end && newRange.start <= tail.start <= newRange.end.n
      && tail.start == (if cur.IsEmpty() then newRange.start else Max(newRange.start, cur.end.n + 1))
      && (cur.IsEmpty() || cur.start <= newRange.start)
  {
    newRange := Window(cur, ext, maxSize, minSize);
    tail := newRange.Remove(cur).Last();
  }

  /** Where the tail of a load round starts: right of the cached range first, then further left
      by a distance that doubles with each round, within the new range. */
  function TailStart(cur: Range, newRange: Range, round: nat): (start: nat)
    requires cur.end.Fin? && newRange.end.Fin?
    ensures start >= newRange.start
  {
    if round == 0 then (if cur.IsEmpty() then newRange.start else Max(newRange.start, cur.end.n + 1))
    else
      var last := TailStart(cur, newRange, round - 1);
      if last >= newRange.start + Pow2(round - 1) then last - Pow2(round - 1) else newRange.start
  }

  /** Unless it is cut at the new range, the tail of a round starts `Pow2(round) - 1` left of the
      first one. */
  lemma {:induction false} TailDistance(cur: Range, newRange: Range, round: nat)
    requires cur.end.Fin? && newRange.end.Fin?
    ensures var start, first := TailStart(cur, newRange, round), TailStart(cur, newRange, 0);
            start == newRange.start || start + Pow2(round) == first + 1
  {
    if round > 0 { TailDistance(cur, newRange, round - 1); }
  }

  /** A larger tail, `x` further to the left within `newRange`. */
  method LargerTail(tail: Range, newRange: Range, x: nat) returns (r: Range)
    requires newRange.end.Fin? && tail.end == newRange.end && newRange.start <= tail.start <= newRange.end.n
    ensures r == Range(if tail.start >= newRange.start + x then tail.start - x else newRange.start, newRange.end)
  {
    r := tail.MoveLeftBorder(x).Intersection(newRange);
  }

  /** A tail that reaches down to the cached slots. */
  predicate Reaches(cur: Range, newRange: Range, start: nat) {
    start == newRange.start || (!cur.IsEmpty() && cur.start <= newRange.start && cur.end.Fin? && start <= cur.end.n + 1)
  }

  /** The link check suffices: whatever a load returned, a tail that passes it fits. */
  lemma TailFits(linked: bool, parentOf: Hash -> Hash, c: Cache, newRange: Range, start: nat, loaded: seq<Slot>)
    requires Valid(linked, parentOf, c) && KeepsRight(c.range, newRange) && Reaches(c.range, newRange, start)
    requires Loads(linked, parentOf, newRange, start, loaded)
    requires linked ==> Linked(Checking(c, newRange, start, loaded))
    ensures Fits(linked, parentOf, c.mem, c.range, newRange, start, loaded)
  {
    if linked && start > 0 && start - 1 in c.mem && newRange.Contains(start - 1) {
      UnlinkedHead(c.mem[start - 1], loaded);
      Joined(c.mem[start - 1], loaded);
    }
  }

  lemma RootedTailFits(linked: bool, parentOf: Hash -> Hash, c: Cache, src: nat -> Slot, newRange: Range, r: Range)
    requires Valid(linked, parentOf, c) && RootedOn(linked, parentOf, src, r)
    requires KeepsRight(c.range, newRange) && Reaches(c.range, newRange, r.start)
    requires r.end == newRange.end && newRange.start <= r.start <= newRange.end.n
    requires linked ==> Linked(Checking(c, newRange, r.start, LoadFrom(src, r)))
    ensures Fits(linked, parentOf, c.mem, c.range, newRange, r.start, LoadFrom(src, r))
  {
    RootedSlots(linked, parentOf, src, r);
    TailFits(linked, parentOf, c, newRange, r.start, LoadFrom(src, r));
  }

  lemma UnlinkedHead(left: Slot, slots: seq<Slot>)
    requires Linked([left] + slots)
    ensures Linked(slots)
  {
    var all := [left] + slots;
    forall i, j | 0 <= i < j < |slots| && j == i + 1
      ensures slots[i].number + 1 == slots[j].number && slots[i].hash == slots[j].parentHash
    {
      assert all[i + 1] == slots[i] && all[j + 1] == slots[j];
    }
  }

  /** On a chain the loaded slots are linked, so the check comes down to the joint. */
  lemma ChainChecking(linked: bool, parentOf: Hash -> Hash, c: Cache, src: nat -> Slot, newRange: Range, r: Range)
    requires linked && Valid(linked, parentOf, c) && Chain(linked, parentOf, src) && r.end.Fin? && !r.IsEmpty()
    ensures var start, loaded := r.start, LoadFrom(src, r);
      Linked(Checking(c, newRange, start, loaded)) <==>
      (start > 0 && c.range.Contains(start - 1) && newRange.Contains(start - 1) ==>
         c.mem[start - 1].hash == src(start - 1).hash)
  {
    LoadedSlots(linked, parentOf, src, r);
    var start, loaded := r.start, LoadFrom(src, r);
    if start > 0 && c.range.Contains(start - 1) && newRange.Contains(start - 1) {
      assert start - 1 in c.mem && c.mem[start - 1].number == start - 1;
      assert loaded[0] == src(start);
      Joined(c.mem[start - 1], loaded);
      assert src(start - 1).hash == src(start).parentHash;
    }
  }

  /** The loaded slots fit, are the source's, and the cached slot left of them is too. */
  ghost predicate SourceTail(linked: bool, parentOf: Hash -> Hash, c: Cache, src: nat -> Slot,
                             newRange: Range, start: nat, loaded: seq<Slot>)
  {
    && Fits(linked, parentOf, c.mem, c.range, newRange, start, loaded)
    && loaded != [] && FromSource(src, start, loaded)
    && (linked && start > 0 && start - 1 in c.mem && newRange.Contains(start - 1) ==>
          c.mem[start - 1].hash == src(start - 1).hash)
  }

  /** The cached slot left of the tail is not the source's. */
  ghost predicate JointOff(c: Cache, src: nat -> Slot, newRange: Range, start: nat) {
    start > newRange.start && start - 1 in c.mem && c.mem[start - 1].hash != src(start - 1).hash
  }

  lemma MismatchIsJointOff(parentOf: Hash -> Hash, c: Cache, src: nat -> Slot, newRange: Range, r: Range)
    requires Valid(true, parentOf, c) && Chain(true, parentOf, src)
    requires r.end == newRange.end && newRange.end.Fin? && newRange.start <= r.start <= newRange.end.n
    requires !Linked(Checking(c, newRange, r.start, LoadFrom(src, r)))
    ensures JointOff(c, src, newRange, r.start)
  {
    ChainChecking(true, parentOf, c, src, newRange, r);
  }

  lemma LoadedFromSource(src: nat -> Slot, r: Range)
    requires r.end.Fin? && !r.IsEmpty()
    ensures LoadFrom(src, r) != [] && FromSource(src, r.start, LoadFrom(src, r))
  {
  }

  lemma PassIsSourceTail(linked: bool, parentOf: Hash -> Hash, c: Cache, src: nat -> Slot, newRange: Range, r: Range)
    requires Valid(linked, parentOf, c) && Chain(linked, parentOf, src)
    requires r.end == newRange.end && newRange.end.Fin? && newRange.start <= r.start <= newRange.end.n
    requires linked ==> Linked(Checking(c, newRange, r.start, LoadFrom(src, r)))
    requires Fits(linked, parentOf, c.mem, c.range, newRange, r.start, LoadFrom(src, r))
    ensures SourceTail(linked, parentOf, c, src, newRange, r.start, LoadFrom(src, r))
  {
    LoadedFromSource(src, r);
    if linked { ChainChecking(linked, parentOf, c, src, newRange, r); }
  }

  /** The source's end is beyond the cached one. */
  predicate Ahead(cur: Range, ext: Range)
    requires ext.end.Fin?
  {
    cur.IsEmpty() || Less(cur.end, ext.end)
  }

  /** What a successful growth over a fixed source may make of a cache. */
  ghost predicate Grown(linked: bool, parentOf: Hash -> Hash, c: Cache, src: nat -> Slot, ext: Range,
                        maxSize: nat, minSize: nat, d: Cache)
    requires ext.end.Fin?
  {
    if Ahead(c.range, ext) then
      var newRange := Window(c.range, ext, maxSize, minSize);
      exists start, loaded ::
        && Fits(linked, parentOf, c.mem, c.range, newRange, start, loaded)
        && (if loaded == [] then newRange.IsEmpty() else SourceTail(linked, parentOf, c, src, newRange, start, loaded))
        && d == CommitGrowth(c, c.range, newRange, loaded)
    else d == c.(ready := true)
  }

  lemma NothingFits(linked: bool, parentOf: Hash -> Hash, c: Cache, newRange: Range)
    requires KeepsRight(c.range, newRange) && (newRange == c.range || newRange.IsEmpty())
    ensures Fits(linked, parentOf, c.mem, c.range, newRange, 0, [])
  {
  }

  class StdLatestSlotCache {
    const linked: bool
    var memCache: map<nat, Slot>
    var curRange: Range
    var ready: bool

    constructor (linked: bool)
      ensures this.linked == linked && View() == Cache(map[], EMPTY_RANGE, false)
      ensures forall parentOf: Hash -> Hash :: Valid(linked, parentOf, View())
    {
      this.linked, memCache, curRange, ready := linked, map[], EMPTY_RANGE, false;
    }

    function View(): Cache
      reads this
    {
      Cache(memCache, curRange, ready)
    }

    /** Fills an empty cache from the second-level cache. */
    method TryLoadL2Cache(l2: L2Read, ext: Range, memCacheSize: nat, ghost parentOf: Hash -> Hash)
      requires Valid(linked, parentOf, View()) && (l2.L2? ==> ChainOn(linked, parentOf, l2.at, l2.has))
      requires ext.end.Fin? && memCacheSize > 0
      modifies this`memCache, this`curRange
      ensures Valid(linked, parentOf, View()) && View() == RefilledCache(old(View()), l2, ext, memCacheSize)
      ensures !old(curRange.IsEmpty()) || ext.IsEmpty() || !l2.L2? ==> View() == old(View())
      ensures old(curRange.IsEmpty()) && !ext.IsEmpty() && l2.L2? ==>
          && ready == old(ready)
          && (forall n: nat :: n in memCache <==> l2.has.Contains(n) && n <= ext.end.n < n + memCacheSize)
          && (forall n | n in memCache :: memCache[n] == l2.at(n))
    {
      if l2.NoL2? || !curRange.IsEmpty() || ext.IsEmpty() || l2.L2Failed? {
        return;
      }
      var loadRange := l2.has.Intersection(NewRangeByEndAndSize(ext.end.n, memCacheSize));
      var slots := LoadFrom(l2.at, loadRange);
      L2Loaded(linked, parentOf, View(), l2.at, l2.has, loadRange);
      curRange := loadRange;
      memCache := map[];
      PutSlots(slots);
    }

    method PutSlots(slots: seq<Slot>)
      modifies this`memCache
      ensures memCache == PutAll(old(memCache), slots)
    {
      for k := 0 to |slots|
        invariant memCache == PutAll(old(memCache), slots[..k])
      {
        memCache := memCache[slots[k].number := slots[k]];
        assert slots[..k + 1][..k] == slots[..k];
      }
      assert slots[..|slots|] == slots;
    }

    /** Loads one tail and checks its links, the joint with the cached slot left of it included.
        A tail that passes fits the cache, whatever the source was doing. */
    method LoadTail(src: nat -> Slot, newRange: Range, loadRange: Range, ghost parentOf: Hash -> Hash)
      returns (loaded: seq<Slot>, mismatch: bool)
      requires Valid(linked, parentOf, View()) && RootedOn(linked, parentOf, src, loadRange)
      requires KeepsRight(curRange, newRange) && Reaches(curRange, newRange, loadRange.start)
      requires loadRange.end == newRange.end && newRange.start <= loadRange.start <= newRange.end.n
      ensures loaded == LoadFrom(src, loadRange)
      ensures mismatch <==> linked && !Linked(Checking(View(), newRange, loadRange.start, loaded))
      ensures !mismatch ==> Fits(linked, parentOf, memCache, curRange, newRange, loadRange.start, loaded)
    {
      loaded := LoadFrom(src, loadRange);
      var checking := loaded;
      if loadRange.start > 0 && curRange.Contains(loadRange.start - 1) && newRange.Contains(loadRange.start - 1) {
        checking := [memCache[loadRange.start - 1]] + loaded;
      }
      mismatch := false;
      if linked {
        mismatch := CheckLinksMismatch(checking);
      }
      if !mismatch {
        RootedTailFits(linked, parentOf, View(), src, newRange, loadRange);
      }
    }

    /** On a chain a mismatch proves the cached slot left of the tail off it, and a tail that passes
        joins a cached slot that is on it. */
    method LoadChainTail(src: nat -> Slot, newRange: Range, loadRange: Range, ghost parentOf: Hash -> Hash)
      returns (loaded: seq<Slot>, mismatch: bool)
      requires Valid(linked, parentOf, View()) && Chain(linked, parentOf, src)
      requires KeepsRight(curRange, newRange) && Reaches(curRange, newRange, loadRange.start)
      requires loadRange.end == newRange.end && newRange.start <= loadRange.start <= newRange.end.n
      ensures mismatch ==> JointOff(View(), src, newRange, loadRange.start)
      ensures !mismatch ==> SourceTail(linked, parentOf, View(), src, newRange, loadRange.start, loaded)
    {
      loaded, mismatch := LoadTail(src, newRange, loadRange, parentOf);
      if mismatch {
        MismatchIsJointOff(parentOf, View(), src, newRange, loadRange);
      } else {
        PassIsSourceTail(linked, parentOf, View(), src, newRange, loadRange);
      }
    }

    /** One load round: the tail links up, or the cached slot left of it is off the source's chain and
        the next tail reaches further left. */
    method LoadRound(src: nat -> Slot, newRange: Range, loadRange: Range, round: nat, ghost parentOf: Hash -> Hash)
      returns (loaded: seq<Slot>, mismatch: bool, next: Range)
      requires Valid(linked, parentOf, View()) && Chain(linked, parentOf, src) && KeepsRight(curRange, newRange)
      requires Reaches(curRange, newRange, loadRange.start) && loadRange.start == TailStart(curRange, newRange, round)
      requires loadRange.end == newRange.end && newRange.start <= loadRange.start <= newRange.end.n
      ensures !mismatch ==> SourceTail(linked, parentOf, View(), src, newRange, loadRange.start, loaded)
      ensures mismatch ==> OffChain(memCache, src, newRange, TailStart(curRange, newRange, 0), round + 1)
      ensures mismatch ==> next == Range(TailStart(curRange, newRange, round + 1), newRange.end)
      ensures mismatch ==> newRange.start <= next.start < loadRange.start && Reaches(curRange, newRange, next.start)
    {
      loaded, mismatch := LoadChainTail(src, newRange, loadRange, parentOf);
      next := loadRange;
      if mismatch {
        TailDistance(curRange, newRange, round);
        MismatchIsOff(memCache, src, newRange, TailStart(curRange, newRange, 0), loadRange.start, round);
        next := LargerTail(loadRange, newRange, Pow2(round));
      }
    }

    /** Reloads ever larger tails until one links up with what is cached. Each reload proves
        the cached slot at distance `Pow2(reloads - 1)` below the first tail to be off the
        source's chain, so the reloads are logarithmic in the depth of the fork. */
    method ReloadUntilLinked(src: nat -> Slot, loadFails: nat -> bool, newRange: Range, first: Range,
                             ghost parentOf: Hash -> Hash)
      returns (ok: bool, loaded: seq<Slot>, reorg: bool, ghost start: nat, ghost reloads: nat)
      requires Valid(linked, parentOf, View()) && Chain(linked, parentOf, src) && KeepsRight(curRange, newRange)
      requires first.end == newRange.end && newRange.start <= first.start <= newRange.end.n
      requires Reaches(curRange, newRange, first.start) && first.start == TailStart(curRange, newRange, 0)
      ensures ok ==> SourceTail(linked, parentOf, View(), src, newRange, start, loaded)
      ensures ok ==> start == TailStart(curRange, newRange, reloads)
      ensures (forall k: nat :: !loadFails(k)) ==> ok
      ensures reorg <==> reloads > 0
      ensures reloads > 0 ==> OffChain(memCache, src, newRange, first.start, reloads)
    {
      var loadRange := first;
      var round := 0;
      loaded, reorg, start, reloads := [], false, 0, 0;
      while true
        invariant reloads == round && (reorg <==> reloads > 0)
        invariant loadRange == Range(TailStart(curRange, newRange, round), newRange.end)
        invariant newRange.start <= loadRange.start <= newRange.end.n && Reaches(curRange, newRange, loadRange.start)
        invariant reloads > 0 ==> OffChain(memCache, src, newRange, first.start, reloads)
        decreases loadRange.start
      {
        if loadFails(round) {
          return false, [], reorg, start, reloads;
        }
        var mismatch, next;
        start := loadRange.start;
        loaded, mismatch, next := LoadRound(src, newRange, loadRange, round, parentOf);
        if !mismatch {
          return true, loaded, reorg, start, reloads;
        }
        loadRange := next;
        reorg := true;
        round := round + 1;
        reloads := round;
      }
    }

    /** Loads what the cache lacks up to the end of the source; nothing is loaded or checked
        when that end is not beyond the cached one. */
    method LoadFromPersistent(src: nat -> Slot, loadFails: nat -> bool, ext: Range, maxSize: nat, minSize: nat,
                              ghost parentOf: Hash -> Hash)
      returns (ok: bool, newRange: Range, loaded: seq<Slot>, reorg: bool, ghost start: nat, ghost reloads: nat)
      requires Valid(linked, parentOf, View()) && Chain(linked, parentOf, src) && ext.end.Fin?
      requires maxSize > 0 && minSize > 0
      ensures ok ==> Fits(linked, parentOf, memCache, curRange, newRange, start, loaded)
      ensures !curRange.IsEmpty() && curRange.end.n >= ext.end.n ==>
          ok && newRange == curRange && loaded == [] && reloads == 0
      ensures (forall k: nat :: !loadFails(k)) ==> ok
      ensures ok && (curRange.IsEmpty() || curRange.end.n < ext.end.n) ==>
          && newRange == Window(curRange, ext, maxSize, minSize)
          && GrownRange(curRange, ext, maxSize, minSize, newRange)
          && (if loaded == [] then newRange.IsEmpty()
              else SourceTail(linked, parentOf, View(), src, newRange, start, loaded))
      ensures reorg <==> reloads > 0
      ensures reloads > 0 ==>
          !curRange.IsEmpty() && OffChain(memCache, src, newRange, Max(newRange.start, curRange.end.n + 1), reloads)
    {
      newRange, loaded, reorg, ok, start, reloads := curRange, [], false, true, 0, 0;
      if !curRange.IsEmpty() && curRange.end.n >= ext.end.n {
        NothingFits(linked, parentOf, View(), newRange);
        return;
      }
      var first;
      WindowIsLast(curRange, ext, maxSize, minSize);
      newRange, first := FirstTail(curRange, ext, maxSize, minSize);
      if newRange.IsEmpty() {
        // the source is empty, so is every load
        NothingFits(linked, parentOf, View(), newRange);
        return;
      }
      ok, loaded, reorg, start, reloads := ReloadUntilLinked(src, loadFails, newRange, first, parentOf);
    }

    /** One growth round. If the source's end is beyond what is cached (the second-level cache
        included), then afterwards every cached slot has the source's hash, also those kept
        from before a reorganisation; otherwise nothing is checked and nothing changes, also
        what was just loaded from the second level. */
    method Growth(src: nat -> Slot, loadFails: nat -> bool, l2: L2Read, ext: Range, maxSize: nat, minSize: nat,
                  ghost parentOf: Hash -> Hash)
      returns (ok: bool)
      requires Valid(linked, parentOf, View()) && (l2.L2? ==> ChainOn(linked, parentOf, l2.at, l2.has))
      requires Chain(linked, parentOf, src) && ext.end.Fin? && maxSize > 0 && minSize > 0
      modifies this
      ensures Valid(linked, parentOf, View()) && ((forall k: nat :: !loadFails(k)) ==> ok)
      ensures var base := RefilledCache(old(View()), l2, ext, maxSize);
          && Valid(linked, parentOf, base)
          && (if ok then Grown(linked, parentOf, base, src, ext, maxSize, minSize, View()) else View() == base)
          && (ok && linked && Ahead(base.range, ext) ==> Agrees(memCache, src))
          && (ok && Ahead(base.range, ext) ==> GrownRange(base.range, ext, maxSize, minSize, curRange))
          && (!Ahead(base.range, ext) ==> ok && View() == base.(ready := true))
    {
      TryLoadL2Cache(l2, ext, maxSize, parentOf);
      ghost var c := View();
      var newRange, loaded, reorg;
      ghost var start, reloads;
      ok, newRange, loaded, reorg, start, reloads :=
        LoadFromPersistent(src, loadFails, ext, maxSize, minSize, parentOf);
      if !ok {
        return;
      }
      GrowthCommits(linked, parentOf, c, src, newRange, start, loaded);
      if !c.range.IsEmpty() && c.range.end.n >= ext.end.n {
        UnmovedGrowthChecksNothing(linked, parentOf, c);
      }
      Commit(curRange, newRange, loaded);
    }

    /** The write section of `growth`. */
    method Commit(cur: Range, newRange: Range, loaded: seq<Slot>)
      requires KeepsRight(cur, newRange)
      modifies this
      ensures View() == CommitGrowth(old(View()), cur, newRange, loaded)
    {
      PutSlots(loaded);
      ghost var put := memCache;
      var gone := cur.Remove(newRange).First();
      GoneIsLeft(cur, newRange);
      var sn := gone.start;
      while sn <= gone.end.n
        invariant gone.start <= sn
        invariant memCache == map n | n in put && !(gone.start <= n < sn && gone.Contains(n)) :: put[n]
        decreases gone.end.n - sn
      {
        memCache := memCache - {sn};
        sn := sn + 1;
      }
      curRange := newRange;
      ready := true;
    }

    /** The patch section of `repairRound`. */
    method Repair(fixed: Slot)
      modifies this`memCache
      ensures View() == CommitRepair(old(View()), fixed)
      ensures memCache.Keys == old(memCache).Keys
      ensures forall n | n in memCache ::
          memCache[n] == if n == fixed.number && old(memCache)[n].hash == fixed.hash then fixed else old(memCache)[n]
    {
      if fixed.number in memCache && memCache[fixed.number].hash == fixed.hash {
        memCache := memCache[fixed.number := fixed];
      }
    }

    /** Visits the cached slots of `interval` in ascending order. */
    method Traverse(interval: Range, ghost parentOf: Hash -> Hash) returns (res: Option<(Range, seq<Slot>)>)
      requires Valid(linked, parentOf, View())
      ensures res.Some? <==> ready
      ensures ready ==>
          && res.value.0 == curRange
          && |res.value.1| == interval.Intersection(curRange).Size()
          && forall i | 0 <= i < |res.value.1| ::
               interval.Intersection(curRange).start + i in memCache &&
               res.value.1[i] == memCache[interval.Intersection(curRange).start + i]
    {
      if !ready {
        return None;
      }
      var r := interval.Intersection(curRange);
      var out: seq<Slot> := [];
      var sn := r.start;
      while sn <= r.end.n
        invariant r.start <= sn && (if r.IsEmpty() then sn == r.start else sn <= r.end.n + 1)
        invariant |out| == sn - r.start
        invariant forall i | 0 <= i < |out| :: r.start + i in memCache && out[i] == memCache[r.start + i]
        decreases r.end.n - sn
      {
        assert r.Contains(sn);
        out := out + [memCache[sn]];
        sn := sn + 1;
      }
      return Some((curRange, out));
    }
  }

  lemma Joined(left: Slot, slots: seq<Slot>)
    requires slots != [] && Linked(slots) && left.number + 1 == slots[0].number
    ensures Linked([left] + slots) <==> left.hash == slots[0].parentHash
  {
    var all := [left] + slots;
    if left.hash == slots[0].parentHash {
      forall i, j | 0 <= i < j < |all| && j == i + 1
        ensures all[i].number + 1 == all[j].number && all[i].hash == all[j].parentHash
      {
        if i > 0 {
          assert all[i] == slots[i - 1] && all[j] == slots[j - 1];
        }
      }
    } else {
      assert all[0] == left && all[1] == slots[0];
    }
  }

  /** What growth kept agrees with the source because its right end does. */
  lemma PatchedAgrees(parentOf: Hash -> Hash, c: Cache, d: map<nat, Slot>,
                      newRange: Range, start: nat, loaded: seq<Slot>, src: nat -> Slot)
    requires Valid(true, parentOf, c) && Chain(true, parentOf, src) && Patched(c.mem, d, newRange, start, loaded)
    requires FromSource(src, start, loaded)
    requires loaded == [] ==> newRange.IsEmpty()
    requires loaded != [] ==> newRange.end == Fin(start + |loaded| - 1)
    requires start > 0 && newRange.Contains(start - 1) ==>
               start - 1 in c.mem && c.mem[start - 1].hash == src(start - 1).hash
    ensures Agrees(d, src)
  {
    forall n | n in d
      ensures d[n].hash == src(n).hash
    {
      var slot := PatchedSlot(c.mem, d, newRange, start, loaded, n);
      if n < start {
        AgreesDownward(parentOf, c, src, start - 1, n);
      }
    }
  }

  lemma GrowthCommits(linked: bool, parentOf: Hash -> Hash, c: Cache, src: nat -> Slot,
                      newRange: Range, start: nat, loaded: seq<Slot>)
    requires Valid(linked, parentOf, c) && Chain(linked, parentOf, src)
    requires Fits(linked, parentOf, c.mem, c.range, newRange, start, loaded)
    ensures Valid(linked, parentOf, CommitGrowth(c, c.range, newRange, loaded))
    ensures linked && (if loaded == [] then newRange.IsEmpty()
                       else SourceTail(linked, parentOf, c, src, newRange, start, loaded)) ==>
              Agrees(CommitGrowth(c, c.range, newRange, loaded).mem, src)
  {
    CommitGrowthKeepsValid(linked, parentOf, c, newRange, start, loaded);
    CommittedSlots(linked, parentOf, c, newRange, start, loaded);
    if linked && loaded != [] && SourceTail(linked, parentOf, c, src, newRange, start, loaded) {
      PatchedAgrees(parentOf, c, CommitGrowth(c, c.range, newRange, loaded).mem, newRange, start, loaded, src);
    }
  }

  lemma PatchedSlot(mem: map<nat, Slot>, d: map<nat, Slot>, newRange: Range, start: nat, loaded: seq<Slot>, n: nat)
    returns (slot: Slot)
    requires Patched(mem, d, newRange, start, loaded) && n in d
    requires loaded == [] ==> newRange.IsEmpty()
    requires loaded != [] ==> newRange.end == Fin(start + |loaded| - 1)
    ensures slot == d[n]
    ensures n < start ==> n in mem && slot == mem[n] && newRange.Contains(start - 1)
    ensures n >= start ==> n - start < |loaded| && slot == loaded[n - start]
  {
    slot := d[n];
    if !(start <= n < start + |loaded|) {
      JointIsKept(newRange, start, loaded, n);
    }
  }

  lemma JointIsKept(newRange: Range, start: nat, loaded: seq<Slot>, n: nat)
    requires newRange.Contains(n) && !(start <= n < start + |loaded|)
    requires loaded != [] && newRange.end == Fin(start + |loaded| - 1)
    ensures n < start && newRange.Contains(start - 1)
  {
  }

  /** Committing an unmoved window changes nothing: with the source's end not ahead, the cache
      agrees with the source afterwards exactly when it did before. */
  lemma UnmovedGrowthChecksNothing(linked: bool, parentOf: Hash -> Hash, c: Cache)
    requires Valid(linked, parentOf, c)
    ensures CommitGrowth(c, c.range, c.range, []) == c.(ready := true)
  {
    GoneIsLeft(c.range, c.range);
    assert CommitGrowth(c, c.range, c.range, []).mem == c.mem;
  }

  ghost function ExampleParent(h: Hash): Hash { if |h.text| > 0 then Hash(h.text[1..]) else h }

  ghost function Repeat(n: nat): string { seq(n, _ => 'x') }

  ghost function ExampleChain(n: nat): Slot { Slot(n, Hash(Repeat(n + 1)), Hash(Repeat(n)), []) }

  /** Another chain under the same hashing, which differs from the first at every number. */
  ghost function ForkedChain(n: nat): Slot {
    Slot(n, Hash(Repeat(n) + "y"), Hash(if n == 0 then "" else Repeat(n - 1) + "y"), [])
  }

  lemma ExampleChains(n: nat)
    ensures Rooted(ExampleParent, ExampleChain(n)) && Rooted(ExampleParent, ForkedChain(n))
    ensures ExampleChain(n).hash != ForkedChain(n).hash
  {
    assert Repeat(n + 1)[1..] == Repeat(n);
    assert n > 0 ==> (Repeat(n) + "y")[1..] == Repeat(n - 1) + "y";
    assert n == 0 ==> (Repeat(n) + "y")[1..] == "";
    assert Repeat(n + 1)[n] == 'x' && (Repeat(n) + "y")[n] == 'y';
  }

  /** For every range not behind the source's end there is a valid cache of a stale fork, and the
      growth leaves it as it is. */
  lemma StaleForkStays(r: Range, ext: Range, maxSize: nat, minSize: nat) returns (c: Cache)
    requires r.end.Fin? && ext.end.Fin? && !Ahead(r, ext)
    ensures c.range == r && Valid(true, ExampleParent, c) && Chain(true, ExampleParent, ExampleChain)
    ensures Grown(true, ExampleParent, c, ExampleChain, ext, maxSize, minSize, c.(ready := true))
    ensures forall n | n in c.mem :: c.mem[n].hash != ExampleChain(n).hash
    ensures r.start in c.mem
  {
    ExampleIsChain();
    c := ForkedCache(r);
    ForkedIsValid(r);
  }

  ghost function ForkedCache(r: Range): Cache
    requires r.end.Fin?
  {
    Cache(map n: nat | r.start <= n <= r.end.n :: ForkedChain(n), r, true)
  }

  lemma ExampleIsChain()
    ensures Chain(true, ExampleParent, ExampleChain)
  {
    forall n: nat ensures Rooted(ExampleParent, ExampleChain(n)) {
      ExampleChains(n);
    }
  }

  lemma ForkedIsValid(r: Range)
    requires r.end.Fin?
    ensures Valid(true, ExampleParent, ForkedCache(r))
    ensures forall n | n in ForkedCache(r).mem :: ForkedCache(r).mem[n].hash != ExampleChain(n).hash
  {
    forall n | n in ForkedCache(r).mem
      ensures Rooted(ExampleParent, ForkedChain(n)) && ForkedChain(n).hash != ExampleChain(n).hash
    {
      ExampleChains(n);
    }
  }

  /** A growth that succeeds guarantees that the cache agrees with the source, for every valid
      linked cache of a range and every source, if and only if the source's end is ahead. */
  lemma GrowthAgreesIff(r: Range, ext: Range, maxSize: nat, minSize: nat)
    requires r.end.Fin? && ext.end.Fin?
    ensures Ahead(r, ext) <==>
            forall parentOf: Hash -> Hash, src: nat -> Slot, c: Cache, d: Cache |
              && c.range == r && Valid(true, parentOf, c) && Chain(true, parentOf, src)
              && Grown(true, parentOf, c, src, ext, maxSize, minSize, d) :: Agrees(d.mem, src)
  {
    if Ahead(r, ext) {
      forall parentOf: Hash -> Hash, src: nat -> Slot, c: Cache, d: Cache |
        && c.range == r && Valid(true, parentOf, c) && Chain(true, parentOf, src)
        && Grown(true, parentOf, c, src, ext, maxSize, minSize, d)
        ensures Agrees(d.mem, src)
      {
        AheadAgrees(parentOf, c, src, ext, maxSize, minSize, d);
      }
    } else {
      var c := StaleForkStays(r, ext, maxSize, minSize);
      var d := c.(ready := true);
      assert Grown(true, ExampleParent, c, ExampleChain, ext, maxSize, minSize, d) && !Agrees(d.mem, ExampleChain);
    }
  }

  lemma AheadAgrees(parentOf: Hash -> Hash, c: Cache, src: nat -> Slot, ext: Range, maxSize: nat, minSize: nat,
                    d: Cache)
    requires ext.end.Fin? && Ahead(c.range, ext) && Valid(true, parentOf, c) && Chain(true, parentOf, src)
    requires Grown(true, parentOf, c, src, ext, maxSize, minSize, d)
    ensures Agrees(d.mem, src)
  {
    var newRange := Window(c.range, ext, maxSize, minSize);
    var start, loaded :|
      && Fits(true, parentOf, c.mem, c.range, newRange, start, loaded)
      && (if loaded == [] then newRange.IsEmpty() else SourceTail(true, parentOf, c, src, newRange, start, loaded))
      && d == CommitGrowth(c, c.range, newRange, loaded);
    GrowthCommits(true, parentOf, c, src, newRange, start, loaded);
  }
}
