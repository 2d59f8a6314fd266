/** Growth, repair and second-level loads running side by side on one cache
    (chain/chain/cache_latest_slot.go). Every step is one lock section. Growth reads the slot
    left of its tail in one section and commits in a later one; repairs may fall between. */
module CacheInterleaving {
  import opened Ranges
  import opened Slots
  import opened LatestSlotCache

  /** `Checked`: growth's tail passed its checks and it waits for the write lock. `cur` is the range
      it read when it began. */
  datatype GrowthState = Idle | Checked(cur: Range, newRange: Range, start: nat, loaded: seq<Slot>)

  datatype Sys = Sys(cache: Cache, growth: GrowthState)

  /** `CheckTail` is the load round that ends with the link check passed; `ext` is the source's
      range as growth read it. Rounds that fail change nothing. */
  datatype Step =
    | LoadL2(r: Range, slots: seq<Slot>)
    | CheckTail(ext: Range, maxSize: nat, minSize: nat, round: nat, loaded: seq<Slot>)
    | GiveUp
    | Commit
    | Repair(fixed: Slot)

  ghost predicate Init(s: Sys) {
    s == Sys(Cache(map[], EMPTY_RANGE, false), Idle)
  }

  /** Growth's own checks on what it loaded in a round: the window and tail it computed, any slots
      with the numbers asked for whose hashes commit to their parents, and the link check passed.
      The source may have changed since earlier rounds. */
  ghost predicate PassesCheck(linked: bool, parentOf: Hash -> Hash, c: Cache, ext: Range, maxSize: nat, minSize: nat,
                              round: nat, newRange: Range, start: nat, loaded: seq<Slot>)
  {
    && ext.end.Fin? && c.range.end.Fin? && maxSize > 0 && minSize > 0
    && if !Ahead(c.range, ext) then newRange == c.range && start == 0 && loaded == []
       else
         && newRange == Window(c.range, ext, maxSize, minSize) && newRange.end.Fin?
         && if newRange.IsEmpty() then start == 0 && loaded == []
            else
              && start == TailStart(c.range, newRange, round)
              && Loads(linked, parentOf, newRange, start, loaded)
              && (linked ==> Linked(Checking(c, newRange, start, loaded)))
  }

  lemma {:induction false} TailReaches(cur: Range, newRange: Range, round: nat)
    requires cur.end.Fin? && newRange.end.Fin? && (cur.IsEmpty() || cur.start <= newRange.start)
    ensures Reaches(cur, newRange, TailStart(cur, newRange, round))
  {
    if round > 0 { TailReaches(cur, newRange, round - 1); }
  }

  /** What passes growth's checks fits the cache. */
  lemma PassedFits(linked: bool, parentOf: Hash -> Hash, c: Cache, ext: Range, maxSize: nat, minSize: nat,
                   round: nat, newRange: Range, start: nat, loaded: seq<Slot>)
    requires Valid(linked, parentOf, c)
    requires PassesCheck(linked, parentOf, c, ext, maxSize, minSize, round, newRange, start, loaded)
    ensures Fits(linked, parentOf, c.mem, c.range, newRange, start, loaded)
  {
    WindowKeepsRight(c.range, ext, maxSize, minSize);
    if loaded == [] {
      NothingFits(linked, parentOf, c, newRange);
    } else {
      TailReaches(c.range, newRange, round);
      TailFits(linked, parentOf, c, newRange, start, loaded);
    }
  }

  lemma WindowKeepsRight(cur: Range, ext: Range, maxSize: nat, minSize: nat)
    requires ext.end.Fin? && cur.end.Fin? && maxSize > 0 && minSize > 0
    ensures KeepsRight(cur, cur)
    ensures Ahead(cur, ext) ==> var w := Window(cur, ext, maxSize, minSize);
              KeepsRight(cur, w) && (cur.IsEmpty() || cur.start <= w.start)
  {
  }

  /** Loaded data is any, as long as the loaders keep to the range asked for and hashes commit to
      parent hashes. */
  ghost predicate Next(linked: bool, parentOf: Hash -> Hash, s: Sys, step: Step, s': Sys) {
    match step
    case LoadL2(r, slots) =>
      && s.growth.Idle? && s.cache.range.IsEmpty()
      && r.end.Fin? && |slots| == r.Size() && Consecutive(slots, r.start)
      && (linked ==> Linked(slots) && forall i | 0 <= i < |slots| :: Rooted(parentOf, slots[i]))
      && s' == s.(cache := CommitL2(s.cache, r, slots))
    case CheckTail(ext, maxSize, minSize, round, loaded) =>
      && s.growth.Idle? && s'.growth.Checked?
      && PassesCheck(linked, parentOf, s.cache, ext, maxSize, minSize, round,
                     s'.growth.newRange, s'.growth.start, s'.growth.loaded)
      && s'.growth.loaded == loaded
      && s' == s.(growth := Checked(s.cache.range, s'.growth.newRange, s'.growth.start, loaded))
    case GiveUp => s' == s.(growth := Idle)
    case Commit =>
      && s.growth.Checked?
      && s' == Sys(CommitGrowth(s.cache, s.growth.cur, s.growth.newRange, s.growth.loaded), Idle)
    case Repair(fixed) =>
      && (linked ==> Rooted(parentOf, fixed))
      && s' == s.(cache := CommitRepair(s.cache, fixed))
  }

  ghost predicate Inv(linked: bool, parentOf: Hash -> Hash, s: Sys) {
    && Valid(linked, parentOf, s.cache)
    && (s.growth.Checked? ==>
          && s.growth.cur == s.cache.range
          && Fits(linked, parentOf, s.cache.mem, s.cache.range, s.growth.newRange, s.growth.start, s.growth.loaded))
  }

  lemma StepKeepsInv(linked: bool, parentOf: Hash -> Hash, s: Sys, step: Step, s': Sys)
    requires Inv(linked, parentOf, s) && Next(linked, parentOf, s, step, s')
    ensures Inv(linked, parentOf, s')
  {
    match step
    case LoadL2(r, slots) => CommitL2KeepsValid(linked, parentOf, s.cache, r, slots);
    case CheckTail(ext, maxSize, minSize, round, loaded) =>
      PassedFits(linked, parentOf, s.cache, ext, maxSize, minSize, round, s'.growth.newRange, s'.growth.start, loaded);
    case GiveUp =>
    case Commit =>
      CommitGrowthKeepsValid(linked, parentOf, s.cache, s.growth.newRange, s.growth.start, s.growth.loaded);
    case Repair(fixed) => CommitRepairKeepsValid(linked, parentOf, s.cache, fixed);
  }

  ghost predicate Run(linked: bool, parentOf: Hash -> Hash, ss: seq<Sys>, steps: seq<Step>) {
    && |ss| == |steps| + 1 && Init(ss[0])
    && forall i, j | 0 <= i < |steps| && j == i + 1 :: Next(linked, parentOf, ss[i], steps[i], ss[j])
  }

  /** In every state of every interleaving the cached numbers are exactly the recorded range
      and neighbouring slots are hash-linked. */
  lemma {:induction false} RunKeepsCacheValid(linked: bool, parentOf: Hash -> Hash, ss: seq<Sys>, steps: seq<Step>,
                                              i: nat)
    requires Run(linked, parentOf, ss, steps) && i < |ss|
    ensures Inv(linked, parentOf, ss[i]) && Valid(linked, parentOf, ss[i].cache)
  {
    if i > 0 {
      RunKeepsCacheValid(linked, parentOf, ss, steps, i - 1);
      StepKeepsInv(linked, parentOf, ss[i - 1], steps[i - 1], ss[i]);
    }
  }
}
