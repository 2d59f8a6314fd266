/** Queries over slot ranges answered from the cache, a primary store and a fallback store
    (chain/chain/util.go). */
module QueryRange {
  import opened LatestSlotCache
  import opened Options
  import opened Ranges
  import opened Slots

  datatype QueryError = NotReady | OutOfScope | Unavailable

  type Answer<+T> = Result<T, QueryError>

  /** The results of the per-slot query over `[lo, hi]`, in ascending order, each slot once. */
  function Over<T>(q: nat -> seq<T>, lo: nat, hi: int): seq<T>
    decreases hi - lo
  {
    if hi < lo then [] else Over(q, lo, hi - 1) + q(hi)
  }

  lemma {:induction false} OverParts<T>(q: nat -> seq<T>, lo: nat, mid: int, hi: int)
    requires lo - 1 <= mid <= hi
    ensures Over(q, lo, mid) + Over(q, mid + 1, hi) == Over(q, lo, hi)
    decreases hi - mid
  {
    if mid < hi {
      OverParts(q, lo, mid, hi - 1);
      var low, high := Over(q, lo, mid), Over(q, mid + 1, hi - 1);
      assert low + (high + q(hi)) == low + high + q(hi);
    }
  }

  /** A store answers a bounded range with the per-slot query's results, if it answers. */
  ghost predicate Agrees<T>(store: Range -> Answer<seq<T>>, q: nat -> seq<T>) {
    forall r: Range | r.end.Fin? && !r.IsEmpty() && store(r).Ok? :: store(r).value == Over(q, r.start, r.end.n)
  }

  ghost predicate Answers<T>(store: Range -> Answer<seq<T>>) {
    forall r: Range :: store(r).Ok?
  }

  function EndOrMax(r: Range): nat { if r.end.Inf? then MAX_UINT64 else r.end.n }

  method CheckRange<T>(stored: Answer<Range>, primary: Range -> Answer<seq<T>>, query: Range, ghost q: nat -> seq<T>)
    returns (r: Answer<seq<T>>)
    requires !query.IsEmpty() && Agrees(primary, q)
    requires stored.Ok? ==> stored.value.end.Fin?
    ensures r.Ok? ==> r.value == Over(q, query.start, EndOrMax(query))
    ensures r.Ok? ==> stored.Ok? && stored.value.Include(query)
    ensures Answers(primary) ==> (r.Ok? <==> stored.Ok? && stored.value.Include(query))
  {
    if stored.Err? { return Err(stored.error); }
    if !stored.value.Include(query) { return Err(OutOfScope); }
    r := primary(query);
  }

  /** Alone, the primary store must hold the query. With a fallback it must reach as far up; when
      it holds nothing, the query must be bounded. */
  predicate Accepted(stored: Range, withFallback: bool, query: Range)
    requires stored.end.Fin?
  {
    if !withFallback then stored.Include(query)
    else if stored.IsEmpty() then query.end.Fin?
    else EndOrMax(query) <= stored.end.n
  }

  /** Older history comes from the fallback, the rest from the primary store; the answer is the
      per-slot query over the whole range, and a range beyond the recorded one is refused. */
  method CheckRangeWithFallback<T>(
    stored: Answer<Range>, primary: Range -> Answer<seq<T>>, fallback: Option<Range -> Answer<seq<T>>>,
    query: Range, ghost q: nat -> seq<T>) returns (r: Answer<seq<T>>)
    requires !query.IsEmpty() && Agrees(primary, q) && (fallback.Some? ==> Agrees(fallback.value, q))
    requires stored.Ok? ==> stored.value.end.Fin? && stored.value.end.n <= MAX_UINT64
    ensures r.Ok? ==> r.value == Over(q, query.start, EndOrMax(query))
    ensures r.Ok? ==> stored.Ok? && Accepted(stored.value, fallback.Some?, query)
    ensures Answers(primary) && (fallback.Some? ==> Answers(fallback.value)) ==>
              (r.Ok? <==> stored.Ok? && Accepted(stored.value, fallback.Some?, query))
  {
    if fallback.None? {
      r := CheckRange(stored, primary, query, q);
      return;
    }
    if stored.Err? { return Err(stored.error); }
    var s := stored.value;
    if !s.IsEmpty() && EndOrMax(query) > s.end.n { return Err(OutOfScope); }
    var result: seq<T> := [];
    if !s.IsEmpty() {
      var part := query.Intersection(s);
      if !part.IsEmpty() {
        var res := primary(part);
        if res.Err? { return Err(res.error); }
        result := res.value + result;
      }
      PrimaryPart(q, query, s, result);
    }
    var older := EMPTY_RANGE;
    if s.IsEmpty() {
      if query.end.Inf? { return Err(OutOfScope); }
      older := query;
    } else if query.start < s.start {
      older := NewRange(query.start, Min(s.start - 1, EndOrMax(query)));
    }
    if !older.IsEmpty() {
      var res := fallback.value(older);
      if res.Err? { return Err(res.error); }
      if !s.IsEmpty() {
        OverParts(q, query.start, older.end.n, EndOrMax(query));
      }
      result := res.value + result;
    }
    r := Ok(result);
  }

  /** What the primary part of a query holds: everything from the later of the two starts on. */
  lemma PrimaryPart<T>(q: nat -> seq<T>, query: Range, s: Range, result: seq<T>)
    requires !query.IsEmpty() && !s.IsEmpty() && s.end.Fin? && s.end.n <= MAX_UINT64 && EndOrMax(query) <= s.end.n
    requires var part := query.Intersection(s);
             result == if part.IsEmpty() then [] else Over(q, part.start, part.end.n)
    ensures result == Over(q, Max(query.start, s.start), EndOrMax(query))
  {
  }

  /** The interval cut at the cached head; uncut when nothing is cached. */
  function CutEnd(interval: Range, cached: Range): nat
    requires cached.end.Fin?
  {
    if cached.IsEmpty() then EndOrMax(interval) else Min(EndOrMax(interval), cached.end.n)
  }

  /** The processor of cached slots gives the per-slot query's results, if any. */
  ghost predicate CacheAgrees<T>(c: Cache, process: Slot -> Answer<seq<T>>, q: nat -> seq<T>) {
    forall n: nat | n in c.mem && process(c.mem[n]).Ok? :: process(c.mem[n]).value == q(n)
  }

  /** The elements of the cached slots of an interval, in order. */
  method ProcessCached<T>(cache: StdLatestSlotCache, interval: Range, process: Slot -> Answer<seq<T>>,
                          ghost parentOf: Hash -> Hash, ghost q: nat -> seq<T>) returns (r: Answer<seq<T>>)
    requires LatestSlotCache.Valid(cache.linked, parentOf, cache.View()) && CacheAgrees(cache.View(), process, q)
    ensures r.Ok? ==> cache.ready
    ensures r.Ok? ==> var part := interval.Intersection(cache.curRange);
                      r.value == if part.IsEmpty() then [] else Over(q, part.start, part.end.n)
    ensures cache.ready && (forall n | n in cache.memCache :: process(cache.memCache[n]).Ok?) ==> r.Ok?
  {
    var visited := cache.Traverse(interval, parentOf);
    if visited.None? { return Err(NotReady); }
    var slots := visited.value.1;
    ghost var start := interval.Intersection(cache.curRange).start;
    var elems: seq<T> := [];
    for i := 0 to |slots|
      invariant elems == Over(q, start, start + i - 1)
    {
      var res := process(slots[i]);
      if res.Err? { return Err(res.error); }
      elems := elems + res.value;
    }
    r := Ok(elems);
  }

  method QueryRangeWithCache<T>(
    interval: Range, cache: StdLatestSlotCache, process: Slot -> Answer<seq<T>>,
    stored: Answer<Range>, primary: Range -> Answer<seq<T>>, fallback: Option<Range -> Answer<seq<T>>>,
    ghost parentOf: Hash -> Hash, ghost q: nat -> seq<T>) returns (r: Answer<seq<T>>)
    requires LatestSlotCache.Valid(cache.linked, parentOf, cache.View()) && CacheAgrees(cache.View(), process, q)
    requires Agrees(primary, q) && (fallback.Some? ==> Agrees(fallback.value, q))
    requires stored.Ok? ==> stored.value.end.Fin? && stored.value.end.n <= MAX_UINT64
    requires cache.curRange.end.n < MAX_UINT64
    ensures r.Ok? && !interval.IsEmpty() ==> cache.ready
    ensures r.Ok? ==>
              r.value == if interval.IsEmpty() then [] else Over(q, interval.start, CutEnd(interval, cache.curRange))
    ensures Answers(primary) && (fallback.Some? ==> Answers(fallback.value)) && cache.ready && !interval.IsEmpty()
              && (forall n | n in cache.memCache :: process(cache.memCache[n]).Ok?) ==>
              (r.Ok? <==> (NeedsStores(interval, cache.curRange) ==>
                             && stored.Ok?
                             && Accepted(stored.value, fallback.Some?, LeftToStores(interval, cache.curRange))))
  {
    if interval.IsEmpty() { return Ok([]); }
    var cached := ProcessCached(cache, interval, process, parentOf, q);
    if cached.Err? { return Err(cached.error); }
    var cachedRange := cache.curRange;
    var query := interval.Remove(cachedRange).First();
    if query.IsEmpty() || (!cachedRange.IsEmpty() && query.start > cachedRange.end.n) {
      CachedSuffices(q, interval, cachedRange, query, cached.value);
      return cached;
    }
    QueryPart(interval, cachedRange, query);
    var queried := CheckRangeWithFallback(stored, primary, fallback, query, q);
    if queried.Err? { return Err(queried.error); }
    QueriedAndCached(q, interval, cachedRange, query, queried.value, cached.value);
    r := Ok(queried.value + cached.value);
  }

  /** Part of the interval lies below the cached slots. */
  predicate NeedsStores(interval: Range, cached: Range) { cached.IsEmpty() || interval.start < cached.start }

  /** That part. */
  function LeftToStores(interval: Range, cached: Range): Range {
    if cached.IsEmpty() || cached.start == 0 || Less(interval.end, Fin(cached.start)) then interval
    else Range(interval.start, Fin(cached.start - 1))
  }

  /** The cached elements of an interval. */
  ghost predicate CachedPart<T>(q: nat -> seq<T>, interval: Range, cached: Range, elems: seq<T>) {
    var part := interval.Intersection(cached);
    elems == if part.IsEmpty() then [] else Over(q, part.start, EndOrMax(part))
  }

  lemma CachedSuffices<T>(q: nat -> seq<T>, interval: Range, cached: Range, query: Range, elems: seq<T>)
    requires !interval.IsEmpty() && cached.end.Fin? && cached.end.n < MAX_UINT64
    requires query == interval.Remove(cached).First() && CachedPart(q, interval, cached, elems)
    requires query.IsEmpty() || (!cached.IsEmpty() && query.start > cached.end.n)
    ensures elems == Over(q, interval.start, CutEnd(interval, cached)) && !NeedsStores(interval, cached)
  {
  }

  /** The part left to the stores: from the start of the interval up to the cache or the end. */
  lemma QueryPart(interval: Range, cached: Range, query: Range)
    requires !interval.IsEmpty() && cached.end.Fin?
    requires query == interval.Remove(cached).First()
    requires !query.IsEmpty() && (cached.IsEmpty() || query.start <= cached.end.n)
    ensures NeedsStores(interval, cached) && query == LeftToStores(interval, cached)
  {
  }

  lemma QueriedAndCached<T>(q: nat -> seq<T>, interval: Range, cached: Range, query: Range,
                            queried: seq<T>, elems: seq<T>)
    requires !interval.IsEmpty() && cached.end.Fin? && cached.end.n < MAX_UINT64
    requires query == interval.Remove(cached).First() && CachedPart(q, interval, cached, elems)
    requires !query.IsEmpty() && (cached.IsEmpty() || query.start <= cached.end.n)
    requires queried == Over(q, query.start, EndOrMax(query))
    ensures queried + elems == Over(q, interval.start, CutEnd(interval, cached))
  {
    QueryPart(interval, cached, query);
    if !cached.IsEmpty() && !Less(interval.end, Fin(cached.start)) {
      OverParts(q, interval.start, cached.start - 1, CutEnd(interval, cached));
    }
  }
}
