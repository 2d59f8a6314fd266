/** Filters over Aptos changes, events and transactions, and how they are merged
    (chain/aptos/types.go). */
module AptosFilters {
  import opened MoveStrings
  import opened MoveTypes
  import opened MoveRoundTrip
  import opened MoveCanonical
  import opened MoveInclude
  import opened Options

  type Address = nat

  // ---------------------------------------------------------------------- change filters

  datatype Change = Change(address: Option<Address>, resourceType: Option<string>)

  /** No address means any address; no resource type means that nothing passes. */
  datatype ChangeFilter = ChangeFilter(addresses: set<Address>, resourceTypes: TypeSet)

  predicate AddressPart(f: ChangeFilter, c: Change) {
    f.addresses == {} || (c.address.Some? && c.address.value in f.addresses)
  }

  predicate TypePart(f: ChangeFilter, c: Change) { SetIncludesText(f.resourceTypes, c.resourceType) }

  predicate CheckChange(f: ChangeFilter, c: Change) { AddressPart(f, c) && TypePart(f, c) }

  predicate SomeAddressPart(fs: seq<ChangeFilter>, c: Change) { exists i :: 0 <= i < |fs| && AddressPart(fs[i], c) }

  predicate SomeTypePart(fs: seq<ChangeFilter>, n: nat, c: Change)
    requires n <= |fs|
  {
    exists i :: 0 <= i < n && TypePart(fs[i], c)
  }

  /** A filter that accepts a change exactly when some filter accepts its address and some filter
      accepts its type. */
  ghost predicate IsChangeMerge(filters: seq<ChangeFilter>, r: ChangeFilter) {
    forall c :: CheckChange(r, c) <==> SomeAddressPart(filters, c) && SomeTypePart(filters, |filters|, c)
  }

  /** The merged filter is such a filter, hence accepts everything any of them accepts. */
  method MergeChangeFilters(filters: seq<ChangeFilter>) returns (r: ChangeFilter)
    requires filters != []
    ensures IsChangeMerge(filters, r)
    ensures forall f, c | f in filters && CheckChange(f, c) :: CheckChange(r, c)
  {
    var addresses := MergeAddresses(filters);
    var types := filters[0].resourceTypes;
    var i := 1;
    while i < |filters|
      invariant 1 <= i <= |filters|
      invariant forall c: Change :: SetIncludesText(types, c.resourceType) <==> SomeTypePart(filters, i, c)
    {
      forall c: Change ensures SetIncludesText(Merge(types, filters[i].resourceTypes), c.resourceType)
                           <==> SomeTypePart(filters, i + 1, c) {
        MergeIncludesText(types, filters[i].resourceTypes, c.resourceType);
        assert SomeTypePart(filters, i + 1, c) <==> SomeTypePart(filters, i, c) || TypePart(filters[i], c);
      }
      types := Merge(types, filters[i].resourceTypes);
      i := i + 1;
    }
    r := ChangeFilter(addresses, types);
  }

  /** The union of the addresses, or none when one of the filters has none. */
  method MergeAddresses(filters: seq<ChangeFilter>) returns (addresses: set<Address>)
    requires filters != []
    ensures forall types, c :: AddressPart(ChangeFilter(addresses, types), c) <==> SomeAddressPart(filters, c)
  {
    addresses := {};
    var i := 0;
    while i < |filters|
      invariant 0 <= i <= |filters|
      invariant forall a :: a in addresses <==> exists j :: 0 <= j < i && a in filters[j].addresses
      invariant forall j | 0 <= j < i :: filters[j].addresses != {}
    {
      if filters[i].addresses == {} {
        return {};
      }
      addresses := addresses + filters[i].addresses;
      i := i + 1;
    }
    assert addresses != {} by {
      var a :| a in filters[0].addresses;
      assert a in addresses;
    }
  }

  /** The merged filter may accept a change that none of the filters accepts: the two parts may
      come from different filters. */
  lemma PartsOfDifferentFilters()
    ensures exists fs: seq<ChangeFilter>, c: Change ::
              SomeAddressPart(fs, c) && SomeTypePart(fs, |fs|, c) && forall f | f in fs :: !CheckChange(f, c)
  {
    var f, g := ChangeFilter({1}, []), ChangeFilter({2}, [Type(AnyMain, [])]);
    var c := Change(Some(1), None);
    var fs := [f, g];
    assert AddressPart(fs[0], c);
    assert IncludeText(fs[1].resourceTypes[0], c.resourceType);
    assert TypePart(fs[1], c);
    assert SomeAddressPart(fs, c) && SomeTypePart(fs, |fs|, c);
    assert forall h | h in fs :: !CheckChange(h, c);
  }

  // ------------------------------------------------ exactly when a merge accepts too much

  /** Some text is read as the type. */
  ghost predicate IsRead(t: Type) { exists s: string :: BuildType(s) == Ok(t) }

  ghost predicate ChangePatternsRead(fs: seq<ChangeFilter>) {
    forall f, p | f in fs && p in f.resourceTypes :: IsRead(p)
  }

  /** Some filter accepts the change. */
  ghost predicate SomeAccepts(fs: seq<ChangeFilter>, c: Change) { exists f :: f in fs && CheckChange(f, c) }

  predicate Unrestricted(f: ChangeFilter) { f.addresses == {} }

  /** A filter without addresses whose types include `p`. */
  ghost predicate AnywhereIncluded(fs: seq<ChangeFilter>, p: Type) {
    exists f :: f in fs && Unrestricted(f) && SetIncludes(f.resourceTypes, p)
  }

  /** A filter that holds the address and whose types include `p`. */
  ghost predicate IncludedAt(fs: seq<ChangeFilter>, address: Address, p: Type) {
    exists f :: f in fs && address in f.addresses && SetIncludes(f.resourceTypes, p)
  }

  /** Each pattern is included wherever the merge applies it: without restriction if some filter
      has no addresses, and otherwise at every address of any filter. */
  ghost predicate IncludedEverywhere(fs: seq<ChangeFilter>, p: Type) {
    if exists f :: f in fs && Unrestricted(f) then AnywhereIncluded(fs, p)
    else forall f, address | f in fs && address in f.addresses :: IncludedAt(fs, address, p)
  }

  ghost predicate NoPartsMix(fs: seq<ChangeFilter>) {
    forall f, p | f in fs && p in f.resourceTypes :: IncludedEverywhere(fs, p)
  }

  lemma WiderAccepts(f: ChangeFilter, p: Type, c: Change)
    requires AddressPart(f, c) && SetIncludes(f.resourceTypes, p) && IncludeText(p, c.resourceType)
    ensures CheckChange(f, c)
  {
    var i :| 0 <= i < |f.resourceTypes| && Include(f.resourceTypes[i], p);
    IncludeTextUpward(f.resourceTypes[i], p, c.resourceType);
  }

  /** Of a change whose type is the text of `p`, a filter accepts the type exactly when its types
      include `p`. */
  lemma TypePartOfText(f: ChangeFilter, p: Type, s: string, c: Change)
    requires BuildType(s) == Ok(p) && c.resourceType == Some(s) && TypePart(f, c)
    ensures SetIncludes(f.resourceTypes, p)
  {
    var i :| 0 <= i < |f.resourceTypes| && IncludeText(f.resourceTypes[i], c.resourceType);
    assert Include(f.resourceTypes[i], p);
  }

  lemma OwnText(fs: seq<ChangeFilter>, f: ChangeFilter, p: Type, c: Change)
    requires f in fs && p in f.resourceTypes && c.resourceType.Some? && BuildType(c.resourceType.value) == Ok(p)
    ensures SomeTypePart(fs, |fs|, c)
  {
    IncludeReflexive(p);
    var i :| 0 <= i < |f.resourceTypes| && f.resourceTypes[i] == p;
    assert IncludeText(f.resourceTypes[i], c.resourceType);
    var j :| 0 <= j < |fs| && fs[j] == f;
    assert TypePart(fs[j], c);
  }

  lemma AcceptedIsAccepted(fs: seq<ChangeFilter>, c: Change)
    requires NoPartsMix(fs) && SomeAddressPart(fs, c) && SomeTypePart(fs, |fs|, c)
    ensures SomeAccepts(fs, c)
  {
    var i :| 0 <= i < |fs| && TypePart(fs[i], c);
    var k :| 0 <= k < |fs[i].resourceTypes| && IncludeText(fs[i].resourceTypes[k], c.resourceType);
    var p := fs[i].resourceTypes[k];
    assert fs[i] in fs && p in fs[i].resourceTypes && IncludedEverywhere(fs, p);
    if exists f :: f in fs && Unrestricted(f) {
      var f :| f in fs && Unrestricted(f) && SetIncludes(f.resourceTypes, p);
      WiderAccepts(f, p, c);
    } else {
      var j :| 0 <= j < |fs| && AddressPart(fs[j], c);
      assert fs[j] in fs && !Unrestricted(fs[j]) && c.address.value in fs[j].addresses;
      assert IncludedAt(fs, c.address.value, p);
      var f :| f in fs && c.address.value in f.addresses && SetIncludes(f.resourceTypes, p);
      WiderAccepts(f, p, c);
    }
  }

  /** A change of a pattern's text, at no address or at one address, tells whether the pattern is
      included there. */
  lemma TextTells(fs: seq<ChangeFilter>, f: ChangeFilter, p: Type)
    requires f in fs && p in f.resourceTypes && IsRead(p)
    requires forall c | SomeAddressPart(fs, c) && SomeTypePart(fs, |fs|, c) :: SomeAccepts(fs, c)
    ensures IncludedEverywhere(fs, p)
  {
    var s: string :| BuildType(s) == Ok(p);
    if g :| g in fs && Unrestricted(g) {
      var c := Change(None, Some(s));
      OwnText(fs, f, p, c);
      var j :| 0 <= j < |fs| && fs[j] == g;
      assert AddressPart(fs[j], c);
      var h :| h in fs && CheckChange(h, c);
      TypePartOfText(h, p, s, c);
      assert Unrestricted(h);
    } else {
      forall g, address | g in fs && address in g.addresses ensures IncludedAt(fs, address, p) {
        var c := Change(Some(address), Some(s));
        OwnText(fs, f, p, c);
        var j :| 0 <= j < |fs| && fs[j] == g;
        assert AddressPart(fs[j], c);
        var h :| h in fs && CheckChange(h, c);
        TypePartOfText(h, p, s, c);
        assert !Unrestricted(h);
      }
    }
  }

  /** For filters read from texts: a merge accepts only what some filter accepts, if and only if
      each pattern is included everywhere. */
  lemma MergeAcceptsOnlyIff(fs: seq<ChangeFilter>, r: ChangeFilter)
    requires IsChangeMerge(fs, r) && ChangePatternsRead(fs)
    ensures (forall c | CheckChange(r, c) :: SomeAccepts(fs, c)) <==> NoPartsMix(fs)
  {
    if NoPartsMix(fs) {
      forall c | CheckChange(r, c) ensures SomeAccepts(fs, c) {
        AcceptedIsAccepted(fs, c);
      }
    }
    if forall c | CheckChange(r, c) :: SomeAccepts(fs, c) {
      forall f, p | f in fs && p in f.resourceTypes ensures IncludedEverywhere(fs, p) {
        TextTells(fs, f, p);
      }
    }
  }

  // ------------------------------------------------------------------- transaction filters

  datatype Event = Event(eventType: string, guidAddress: Option<Address>)

  datatype Transaction = Transaction(
    success: bool, multisig: bool, events: seq<Event>,
    entryFunction: string, typeArguments: seq<string>, sender: Option<Address>)

  datatype EventFilter = EventFilter(pattern: Type, guidAddress: Option<Address>)

  datatype FunctionFilter = FunctionFilter(
    pattern: Type, checkTypeArguments: bool, typedArguments: seq<string>, sender: Option<Address>)

  datatype TransactionFilter = TransactionFilter(
    eventFilters: seq<EventFilter>, functionFilters: seq<FunctionFilter>, failedIsOk: bool, multisigIsOk: bool)

  predicate CheckEvent(f: EventFilter, ev: Event) {
    && IncludeText(f.pattern, Some(ev.eventType))
    && (f.guidAddress.Some? ==> ev.guidAddress == f.guidAddress)
  }

  predicate CheckEvents(f: EventFilter, tx: Transaction) {
    exists i :: 0 <= i < |tx.events| && CheckEvent(f, tx.events[i])
  }

  predicate CheckFunction(f: FunctionFilter, tx: Transaction) {
    && IncludeText(f.pattern, Some(tx.entryFunction))
    && (f.checkTypeArguments ==> tx.typeArguments == f.typedArguments)
    && (f.sender.Some? ==> tx.sender == f.sender)
  }

  /** Some event filter or some function filter accepts the transaction. */
  predicate SomeFilter(f: TransactionFilter, tx: Transaction) {
    || (exists e :: e in f.eventFilters && CheckEvents(e, tx))
    || (exists g :: g in f.functionFilters && CheckFunction(g, tx))
  }

  predicate CheckTransaction(f: TransactionFilter, tx: Transaction) {
    && (f.failedIsOk || tx.success)
    && (f.multisigIsOk || !tx.multisig)
    && SomeFilter(f, tx)
  }

  /** Types are compared by their printed main parts. */
  predicate TypeEqual(t: Type, a: Type) {
    && MainText(t.main) == MainText(a.main)
    && |t.args| == |a.args|
    && forall i | 0 <= i < |t.args| :: TypeEqual(t.args[i], a.args[i])
  }

  predicate EventFilterEqual(f: EventFilter, a: EventFilter) {
    TypeEqual(f.pattern, a.pattern) && f.guidAddress == a.guidAddress
  }

  predicate FunctionFilterEqual(f: FunctionFilter, a: FunctionFilter) {
    && TypeEqual(f.pattern, a.pattern)
    && f.checkTypeArguments == a.checkTypeArguments
    && f.typedArguments == a.typedArguments
    && f.sender == a.sender
  }

  predicate HasTwinEvent(fs: seq<EventFilter>, e: EventFilter) {
    exists i :: 0 <= i < |fs| && EventFilterEqual(e, fs[i])
  }

  predicate HasTwinFunction(fs: seq<FunctionFilter>, g: FunctionFilter) {
    exists i :: 0 <= i < |fs| && FunctionFilterEqual(g, fs[i])
  }

  ghost predicate StaysEvent(f: TransactionFilter, a: TransactionFilter, e: EventFilter) {
    e in f.eventFilters || (e in a.eventFilters && !HasTwinEvent(f.eventFilters, e))
  }

  ghost predicate StaysFunction(f: TransactionFilter, a: TransactionFilter, g: FunctionFilter) {
    g in f.functionFilters || (g in a.functionFilters && !HasTwinFunction(f.functionFilters, g))
  }

  /** What a merge is to hold: the filters of the left, those of the right without a twin on the
      left, and the weaker of each pair of conditions. */
  ghost predicate IsMerge(f: TransactionFilter, a: TransactionFilter, r: TransactionFilter) {
    && (forall e :: e in r.eventFilters <==> StaysEvent(f, a, e))
    && (forall g :: g in r.functionFilters <==> StaysFunction(f, a, g))
    && r.failedIsOk == (f.failedIsOk || a.failedIsOk)
    && r.multisigIsOk == (f.multisigIsOk || a.multisigIsOk)
  }

  method MergeTransactionFilters(f: TransactionFilter, a: TransactionFilter) returns (r: TransactionFilter)
    ensures IsMerge(f, a, r)
    ensures f.eventFilters <= r.eventFilters && f.functionFilters <= r.functionFilters
  {
    var events := f.eventFilters;
    for i := 0 to |a.eventFilters|
      invariant f.eventFilters <= events
      invariant forall e :: e in events <==>
                            e in f.eventFilters || (e in a.eventFilters[..i] && !HasTwinEvent(f.eventFilters, e))
    {
      if !HasTwinEvent(f.eventFilters, a.eventFilters[i]) {
        events := events + [a.eventFilters[i]];
      }
    }
    var functions := f.functionFilters;
    for i := 0 to |a.functionFilters|
      invariant f.functionFilters <= functions
      invariant forall g :: g in functions <==>
                            || g in f.functionFilters
                            || (g in a.functionFilters[..i] && !HasTwinFunction(f.functionFilters, g))
    {
      if !HasTwinFunction(f.functionFilters, a.functionFilters[i]) {
        functions := functions + [a.functionFilters[i]];
      }
    }
    r := TransactionFilter(events, functions, f.failedIsOk || a.failedIsOk, f.multisigIsOk || a.multisigIsOk);
  }

  /** Filters that compare equal are the same filter. */
  ghost predicate TwinsAgree(f: TransactionFilter, a: TransactionFilter) {
    && (forall e, d | e in a.eventFilters && d in f.eventFilters && EventFilterEqual(e, d) :: e == d)
    && (forall g, h | g in a.functionFilters && h in f.functionFilters && FunctionFilterEqual(g, h) :: g == h)
  }

  /** Then nothing is lost: the merge accepts a transaction exactly when a filter of either
      side matches it and each condition of one of the sides holds. */
  lemma MergeAccepts(f: TransactionFilter, a: TransactionFilter, r: TransactionFilter, tx: Transaction)
    requires IsMerge(f, a, r) && TwinsAgree(f, a)
    ensures CheckTransaction(r, tx) <==>
            && (f.failedIsOk || a.failedIsOk || tx.success)
            && (f.multisigIsOk || a.multisigIsOk || !tx.multisig)
            && (SomeFilter(f, tx) || SomeFilter(a, tx))
    ensures CheckTransaction(f, tx) || CheckTransaction(a, tx) ==> CheckTransaction(r, tx)
  {
    forall e | e in a.eventFilters ensures e in r.eventFilters {
      if HasTwinEvent(f.eventFilters, e) {
        var i :| 0 <= i < |f.eventFilters| && EventFilterEqual(e, f.eventFilters[i]);
        assert f.eventFilters[i] in f.eventFilters;
      }
    }
    forall g | g in a.functionFilters ensures g in r.functionFilters {
      if HasTwinFunction(f.functionFilters, g) {
        var i :| 0 <= i < |f.functionFilters| && FunctionFilterEqual(g, f.functionFilters[i]);
        assert f.functionFilters[i] in f.functionFilters;
      }
    }
  }

  /** Types that survive printing are told apart by their texts. */
  lemma {:induction false} EqualIsSame(t: Type, u: Type)
    requires Clean(t) && ColonFreeType(t) && Clean(u) && ColonFreeType(u)
    requires TypeEqual(t, u)
    ensures t == u
  {
    MainRereadsIff(t.main);
    MainRereadsIff(u.main);
    forall i | 0 <= i < |t.args| ensures t.args[i] == u.args[i] {
      EqualIsSame(t.args[i], u.args[i]);
    }
  }

  ghost predicate ColonFreeFilter(f: TransactionFilter) {
    && (forall e | e in f.eventFilters :: Clean(e.pattern) && ColonFreeType(e.pattern))
    && (forall g | g in f.functionFilters :: Clean(g.pattern) && ColonFreeType(g.pattern))
  }

  lemma ColonFreeTwinsAgree(f: TransactionFilter, a: TransactionFilter)
    requires ColonFreeFilter(f) && ColonFreeFilter(a)
    ensures TwinsAgree(f, a)
  {
    forall e, d | e in a.eventFilters && d in f.eventFilters && EventFilterEqual(e, d) ensures e == d {
      EqualIsSame(e.pattern, d.pattern);
    }
    forall g, h | g in a.functionFilters && h in f.functionFilters && FunctionFilterEqual(g, h) ensures g == h {
      EqualIsSame(g.pattern, h.pattern);
    }
  }

  // ------------------------------------------------- exactly when a merge loses a transaction

  ghost predicate PatternsRead(f: TransactionFilter) {
    && (forall e | e in f.eventFilters :: IsRead(e.pattern))
    && (forall g | g in f.functionFilters :: IsRead(g.pattern))
  }

  /** An event filter that accepts at least what `e` accepts. */
  predicate Covers(d: EventFilter, e: EventFilter) {
    Include(d.pattern, e.pattern) && (d.guidAddress.Some? ==> d.guidAddress == e.guidAddress)
  }

  /** A function filter that accepts at least what `g` accepts. */
  predicate CoversFunction(h: FunctionFilter, g: FunctionFilter) {
    && Include(h.pattern, g.pattern)
    && (h.checkTypeArguments ==> g.checkTypeArguments && h.typedArguments == g.typedArguments)
    && (h.sender.Some? ==> h.sender == g.sender)
  }

  /** A function filter that asks for nothing. */
  predicate IsEmptyFilter(h: FunctionFilter) { IsAny(h.pattern) && !h.checkTypeArguments && h.sender.None? }

  ghost predicate EventKept(r: TransactionFilter, e: EventFilter) {
    || (exists d :: d in r.eventFilters && Covers(d, e))
    || (exists h :: h in r.functionFilters && IsEmptyFilter(h))
  }

  ghost predicate FunctionKept(r: TransactionFilter, g: FunctionFilter) {
    exists h :: h in r.functionFilters && CoversFunction(h, g)
  }

  /** The filters of `a` are all covered in `r`. */
  ghost predicate AllKept(a: TransactionFilter, r: TransactionFilter) {
    (forall e | e in a.eventFilters :: EventKept(r, e)) && (forall g | g in a.functionFilters :: FunctionKept(r, g))
  }

  lemma CoversAll(d: EventFilter, e: EventFilter, tx: Transaction)
    requires Covers(d, e) && CheckEvents(e, tx)
    ensures CheckEvents(d, tx)
  {
    var i :| 0 <= i < |tx.events| && CheckEvent(e, tx.events[i]);
    IncludeTextUpward(d.pattern, e.pattern, Some(tx.events[i].eventType));
    assert CheckEvent(d, tx.events[i]);
  }

  lemma CoversAllCalls(h: FunctionFilter, g: FunctionFilter, tx: Transaction)
    requires CoversFunction(h, g) && CheckFunction(g, tx)
    ensures CheckFunction(h, tx)
  {
    IncludeTextUpward(h.pattern, g.pattern, Some(tx.entryFunction));
  }

  /** A filter whose filters are all covered lets nothing be lost. */
  lemma KeptMatches(a: TransactionFilter, r: TransactionFilter, tx: Transaction)
    requires AllKept(a, r) && SomeFilter(a, tx)
    ensures SomeFilter(r, tx)
  {
    if e :| e in a.eventFilters && CheckEvents(e, tx) {
      assert EventKept(r, e);
      if d :| d in r.eventFilters && Covers(d, e) {
        CoversAll(d, e, tx);
      } else {
        var h :| h in r.functionFilters && IsEmptyFilter(h);
        assert CheckFunction(h, tx);
      }
    } else {
      var g :| g in a.functionFilters && CheckFunction(g, tx);
      assert FunctionKept(r, g);
      var h :| h in r.functionFilters && CoversFunction(h, g);
      CoversAllCalls(h, g, tx);
    }
  }

  /** Type arguments that no filter of a list names. */
  lemma {:induction false} FreshArguments(gs: seq<FunctionFilter>) returns (args: seq<string>)
    ensures forall g | g in gs :: |g.typedArguments| < |args|
  {
    if gs == [] {
      args := [""];
    } else {
      args := FreshArguments(gs[1..]);
      args := args + gs[0].typedArguments + [""];
    }
  }

  lemma MalformedText()
    ensures BuildType("<").Err?
  {
    var s := "<";
    assert s[0..] == s;
    TrimFixes(s);
  }

  /** The transaction that tells whether an event filter is covered: one event of its pattern's
      text, and a call that only an empty function filter accepts. */
  lemma EventWitness(r: TransactionFilter, e: EventFilter) returns (tx: Transaction)
    requires IsRead(e.pattern)
    ensures tx.success && !tx.multisig && CheckEvents(e, tx)
    ensures SomeFilter(r, tx) ==> EventKept(r, e)
  {
    var s: string :| BuildType(s) == Ok(e.pattern);
    var args := FreshArguments(r.functionFilters);
    MalformedText();
    var ev := Event(s, e.guidAddress);
    tx := Transaction(true, false, [ev], "<", args, None);
    IncludeReflexive(e.pattern);
    assert CheckEvent(e, tx.events[0]);
    if d :| d in r.eventFilters && CheckEvents(d, tx) {
      assert CheckEvent(d, ev);
      assert Covers(d, e);
    }
    if h :| h in r.functionFilters && CheckFunction(h, tx) {
      assert IsEmptyFilter(h);
    }
  }

  /** The transaction that tells whether a function filter is covered: a call of its pattern's
      text, with just what the filter asks for and no events. */
  lemma FunctionWitness(r: TransactionFilter, g: FunctionFilter) returns (tx: Transaction)
    requires IsRead(g.pattern)
    ensures tx.success && !tx.multisig && CheckFunction(g, tx)
    ensures SomeFilter(r, tx) ==> FunctionKept(r, g)
  {
    var s: string :| BuildType(s) == Ok(g.pattern);
    var args := FreshArguments(r.functionFilters);
    tx := Transaction(true, false, [], s, if g.checkTypeArguments then g.typedArguments else args, g.sender);
    IncludeReflexive(g.pattern);
    if SomeFilter(r, tx) {
      var h :| h in r.functionFilters && CheckFunction(h, tx);
      assert CoversFunction(h, g);
    }
  }

  /** The same on the inputs of a merge: a filter of `a` that has a twin in `f`, and so is dropped,
      is covered by one of those that stay; an event filter also by an empty function filter. */
  ghost predicate DroppedAreCovered(f: TransactionFilter, a: TransactionFilter) {
    && (forall e | e in a.eventFilters && HasTwinEvent(f.eventFilters, e) :: EventCovered(f, a, e))
    && (forall g | g in a.functionFilters && HasTwinFunction(f.functionFilters, g) :: FunctionCovered(f, a, g))
  }

  ghost predicate EventCovered(f: TransactionFilter, a: TransactionFilter, e: EventFilter) {
    || (exists d :: StaysEvent(f, a, d) && Covers(d, e))
    || (exists h :: StaysFunction(f, a, h) && IsEmptyFilter(h))
  }

  ghost predicate FunctionCovered(f: TransactionFilter, a: TransactionFilter, g: FunctionFilter) {
    exists h :: StaysFunction(f, a, h) && CoversFunction(h, g)
  }

  lemma KeptIffCovered(f: TransactionFilter, a: TransactionFilter, r: TransactionFilter)
    requires IsMerge(f, a, r)
    ensures AllKept(a, r) <==> DroppedAreCovered(f, a)
  {
    forall e ensures EventKept(r, e) <==> EventCovered(f, a, e) {
      EventKeptIffCovered(f, a, r, e);
    }
    forall g ensures FunctionKept(r, g) <==> FunctionCovered(f, a, g) {
      FunctionKeptIffCovered(f, a, r, g);
    }
    forall e | e in a.eventFilters && !HasTwinEvent(f.eventFilters, e) ensures EventCovered(f, a, e) {
      IncludeReflexive(e.pattern);
      assert StaysEvent(f, a, e) && Covers(e, e);
    }
    forall g | g in a.functionFilters && !HasTwinFunction(f.functionFilters, g) ensures FunctionCovered(f, a, g) {
      IncludeReflexive(g.pattern);
      assert StaysFunction(f, a, g) && CoversFunction(g, g);
    }
  }

  lemma EventKeptIffCovered(f: TransactionFilter, a: TransactionFilter, r: TransactionFilter, e: EventFilter)
    requires IsMerge(f, a, r)
    ensures EventKept(r, e) <==> EventCovered(f, a, e)
  {
    if d :| d in r.eventFilters && Covers(d, e) { assert StaysEvent(f, a, d); }
    if h :| h in r.functionFilters && IsEmptyFilter(h) { assert StaysFunction(f, a, h); }
    if d :| StaysEvent(f, a, d) && Covers(d, e) { assert d in r.eventFilters; }
    if h :| StaysFunction(f, a, h) && IsEmptyFilter(h) { assert h in r.functionFilters; }
  }

  lemma FunctionKeptIffCovered(f: TransactionFilter, a: TransactionFilter, r: TransactionFilter, g: FunctionFilter)
    requires IsMerge(f, a, r)
    ensures FunctionKept(r, g) <==> FunctionCovered(f, a, g)
  {
    if h :| h in r.functionFilters && CoversFunction(h, g) { assert StaysFunction(f, a, h); }
    if h :| StaysFunction(f, a, h) && CoversFunction(h, g) { assert h in r.functionFilters; }
  }

  /** A filter accepts all that another accepts if and only if it covers each of that one's
      filters. */
  lemma AcceptsAllIff(a: TransactionFilter, r: TransactionFilter)
    requires PatternsRead(a) && (a.failedIsOk ==> r.failedIsOk) && (a.multisigIsOk ==> r.multisigIsOk)
    ensures (forall tx :: CheckTransaction(a, tx) ==> CheckTransaction(r, tx)) <==> AllKept(a, r)
  {
    if AllKept(a, r) {
      forall tx | CheckTransaction(a, tx) ensures CheckTransaction(r, tx) {
        KeptMatches(a, r, tx);
      }
    }
    if forall tx :: CheckTransaction(a, tx) ==> CheckTransaction(r, tx) {
      forall e | e in a.eventFilters ensures EventKept(r, e) {
        var tx := EventWitness(r, e);
        assert CheckTransaction(a, tx);
      }
      forall g | g in a.functionFilters ensures FunctionKept(r, g) {
        var tx := FunctionWitness(r, g);
        assert CheckTransaction(a, tx);
      }
    }
  }

  /** A merge accepts all that its left input accepts; and all that its right input accepts if and
      only if each filter that is dropped for a twin is covered by one that stays. */
  lemma MergeLosesNothingIff(f: TransactionFilter, a: TransactionFilter, r: TransactionFilter)
    requires IsMerge(f, a, r) && PatternsRead(a)
    ensures (forall tx :: CheckTransaction(a, tx) ==> CheckTransaction(r, tx)) <==> DroppedAreCovered(f, a)
    ensures forall tx :: CheckTransaction(f, tx) ==> CheckTransaction(r, tx)
  {
    AcceptsAllIff(a, r);
    KeptIffCovered(f, a, r);
  }

  /** Of two clean types with equal texts, neither includes the other unless they are the same:
      a filter dropped for a twin is never covered by a twin that differs from it. */
  lemma EqualIncludesIffSame(t: Type, u: Type)
    requires Clean(t) && Clean(u) && TypeEqual(t, u)
    ensures Include(t, u) <==> t == u
  {
    IncludeReflexive(t);
    if Include(t, u) { EqualIncluded(t, u); }
  }

  lemma {:induction false} EqualIncluded(t: Type, u: Type)
    requires Clean(t) && Clean(u) && TypeEqual(t, u) && Include(t, u)
    ensures t == u
  {
    EqualMains(t.main, u.main);
    forall i | 0 <= i < |t.args| ensures t.args[i] == u.args[i] {
      EqualIncluded(t.args[i], u.args[i]);
    }
    assert t.args == u.args;
  }

  lemma EqualMains(m: Main, n: Main)
    requires CleanMain(m) && CleanMain(n) && MainText(m) == MainText(n) && MainIncludes(m, n)
    ensures m == n
  {
    assert n.Qualified? ==> |MainText(n)| > 1;
    if m.Qualified? {
      EqualNames(m.fqn, n.fqn);
    }
  }

  /** Inclusion makes no segment of the wider name longer, so equal texts part alike. */
  lemma EqualNames(f: FullyName, g: FullyName)
    requires CleanName(f) && CleanName(g) && NameIncludes(f, g)
    requires MainText(Qualified(f)) == MainText(Qualified(g))
    ensures f == g
  {
    var m, n := Show(f.moduleName), Show(f.name);
    var o, p := Show(g.moduleName), Show(g.name);
    PartsAgree(Show(f.address), Sep(m, n), Show(g.address), Sep(o, p));
    PartsAgree(m, n, o, p);
  }

  lemma PartsAgree(a: string, rest: string, b: string, more: string)
    requires |a| == |b| && Sep(a, rest) == Sep(b, more)
    ensures a == b && rest == more
  {
    SepChars(a, rest);
    SepChars(b, more);
  }

  // ------------------------------------------------------------- names that print alike

  /** The same module and name, or a colon moved from one to the other. */
  predicate TailAlike(m: string, n: string, o: string, p: string) {
    (m == o && n == p) || (o == m + ":" && n == ":" + p) || (m == o + ":" && p == ":" + n)
  }

  /** Clean names print alike exactly when they are the same up to colons moved across a
      separator: from the end of the address to the start of the module, or from the end of the
      module to the start of the name. */
  lemma PrintAlikeIff(f: FullyName, g: FullyName)
    requires CleanName(f) && CleanName(g)
    ensures MainText(Qualified(f)) == MainText(Qualified(g)) <==>
              var a, m, n := Show(f.address), Show(f.moduleName), Show(f.name);
              var b, o, p := Show(g.address), Show(g.moduleName), Show(g.name);
              || (a == b && TailAlike(m, n, o, p))
              || (b == a + ":" && TailAlike(m, n, ":" + o, p))
              || (a == b + ":" && TailAlike(":" + m, n, o, p))
  {
    var a, m, n := Show(f.address), Show(f.moduleName), Show(f.name);
    var b, o, p := Show(g.address), Show(g.moduleName), Show(g.name);
    ShownHasNoSep(f.address);
    ShownHasNoSep(g.address);
    ShownHasNoSep(f.moduleName);
    ShownHasNoSep(g.moduleName);
    SepAlikeIff(a, Sep(m, n), b, Sep(o, p));
    SepAlikeIff(m, n, o, p);
    ShiftedTailIff(m, n, o, p);
    ShiftedTailIff(o, p, m, n);
  }

  lemma ShownHasNoSep(x: string)
    requires !HasSep(x)
    ensures NoSep(Show(x)) && Show(x) != ""
  {
    HasSepIff(x);
  }

  lemma ShiftedTailIff(m: string, n: string, o: string, p: string)
    requires NoSep(m) && NoSep(o) && m != "" && o != ""
    ensures Sep(m, n) == ":" + Sep(o, p) <==> TailAlike(m, n, ":" + o, p)
  {
    assert ":" + Sep(o, p) == Sep(":" + o, p);
    if o[0] != ':' {
      ColonAheadHasNoSep(o);
      SepAlikeIff(m, n, ":" + o, p);
    } else {
      TwoColonsAhead(m, n, o, p);
    }
  }

  lemma TwoColonsAhead(m: string, n: string, o: string, p: string)
    requires NoSep(m) && NoSep(o) && m != "" && o != "" && o[0] == ':'
    ensures Sep(m, n) == Sep(":" + o, p) <==> TailAlike(m, n, ":" + o, p)
  {
    var x := ":" + o;
    SepChars(m, n);
    SepChars(x, p);
    assert IsSep(x, 0) && IsSep(x + ":", 0);
    assert !IsSep(o, 0);
    assert |o| > 1 ==> x[2] == o[1] && o[1] != ':';
    if Sep(m, n) == Sep(x, p) {
      HeadLength(m, n);
      assert IsSep(Sep(x, p), 0);
      assert |m| == 1;
      assert Sep(m, n)[2] == ':';
      OneColonMoved(m, n, x, p);
    }
    if x == m + ":" && n == ":" + p { ColonMoves(m, p); }
  }

  // ------------------------------------------------------------------ a merge that loses

  lemma Padded(a: string)
    requires a != "" && Trimmed(a) && NoSep(a)
    ensures TrimSpace(a + " ") == a && NoSep(a + " ") && !ColonTail(a + " ")
  {
    var x := a + " ";
    TrimAt(x, 0, |a|);
    assert x[0..|a|] == a;
    forall i: nat | i < |x| ensures !IsSep(x, i) {
      assert IsSep(x, i) ==> IsSep(a, i);
    }
  }

  /** A name spelled with a space before each separator. */
  function PaddedText(f: FullyName): string {
    Sep(Show(f.address) + " ", Sep(Show(f.moduleName) + " ", Show(f.name)))
  }

  /** Such a text spells any clean name, those with a colon before a separator included. */
  lemma PaddedRead(f: FullyName)
    requires CleanName(f) && '<' !in f.address && '<' !in f.moduleName && '<' !in f.name
    ensures BuildType(PaddedText(f)) == Ok(Type(Qualified(f), []))
  {
    var s := PaddedText(f);
    assert s + "" == s && s[..|s|] == s;
    PaddedHasNoBracket(f);
    OpenAfter(s, s, "");
    PaddedIsTrimmed(f);
    TrimFixes(s);
    PaddedMain(f);
  }

  lemma PaddedHasNoBracket(f: FullyName)
    requires '<' !in f.address && '<' !in f.moduleName && '<' !in f.name
    ensures '<' !in PaddedText(f)
  {
    var rest := Sep(Show(f.moduleName) + " ", Show(f.name));
    assert '<' !in Show(f.address) + " " && '<' !in Show(f.moduleName) + " " && '<' !in Show(f.name);
    assert '<' !in rest;
  }

  lemma PaddedIsTrimmed(f: FullyName)
    requires CleanName(f)
    ensures Trimmed(PaddedText(f))
  {
    var rest := Sep(Show(f.moduleName) + " ", Show(f.name));
    SegmentRereads(f.address);
    SegmentRereads(f.name);
    SepChars(Show(f.moduleName) + " ", Show(f.name));
    SepChars(Show(f.address) + " ", rest);
    assert rest[|rest| - 1] == Show(f.name)[|Show(f.name)| - 1];
    assert PaddedText(f)[0] == (Show(f.address) + " ")[0] == Show(f.address)[0];
    assert PaddedText(f)[|PaddedText(f)| - 1] == rest[|rest| - 1];
  }

  lemma PaddedMain(f: FullyName)
    requires CleanName(f)
    ensures ParseMain(PaddedText(f)) == Qualified(f)
  {
    SegmentRereads(f.address);
    SegmentRereads(f.moduleName);
    SegmentRereads(f.name);
    ShownHasNoSep(f.address);
    ShownHasNoSep(f.moduleName);
    Padded(Show(f.address));
    Padded(Show(f.moduleName));
    NameReads(Show(f.address) + " ", Show(f.moduleName) + " ", Show(f.name));
    assert ToShortAddress(Show(f.address)) == Show(f.address);
  }

  lemma {:induction false} TypeEqualSymmetric(t: Type, u: Type)
    requires TypeEqual(t, u)
    ensures TypeEqual(u, t)
  {
    forall i | 0 <= i < |t.args| ensures TypeEqual(u.args[i], t.args[i]) {
      TypeEqualSymmetric(t.args[i], u.args[i]);
    }
  }

  /** An event filter that nothing kept could cover but a twin of it is lost unless it is itself on
      the left, whatever else the inputs hold. */
  lemma TwinLost(f: TransactionFilter, a: TransactionFilter, r: TransactionFilter, e: EventFilter)
    requires IsMerge(f, a, r) && PatternsRead(a) && e in a.eventFilters && HasTwinEvent(f.eventFilters, e)
    requires Clean(e.pattern) && forall d | d in f.eventFilters :: Clean(d.pattern)
    requires forall d | StaysEvent(f, a, d) && Covers(d, e) :: d in f.eventFilters && EventFilterEqual(e, d)
    requires forall h | StaysFunction(f, a, h) :: !IsEmptyFilter(h)
    ensures e !in f.eventFilters ==> exists tx :: CheckTransaction(a, tx) && !CheckTransaction(r, tx)
  {
    if e !in f.eventFilters {
      forall d | StaysEvent(f, a, d) ensures !Covers(d, e) {
        if Covers(d, e) {
          TypeEqualSymmetric(e.pattern, d.pattern);
          EqualIncludesIffSame(d.pattern, e.pattern);
        }
      }
      assert !EventCovered(f, a, e);
      MergeLosesNothingIff(f, a, r);
    }
  }

  /** So is such a function filter. */
  lemma FunctionTwinLost(f: TransactionFilter, a: TransactionFilter, r: TransactionFilter, g: FunctionFilter)
    requires IsMerge(f, a, r) && PatternsRead(a) && g in a.functionFilters && HasTwinFunction(f.functionFilters, g)
    requires Clean(g.pattern) && forall h | h in f.functionFilters :: Clean(h.pattern)
    requires forall h | StaysFunction(f, a, h) && CoversFunction(h, g) ::
               h in f.functionFilters && FunctionFilterEqual(g, h)
    ensures g !in f.functionFilters ==> exists tx :: CheckTransaction(a, tx) && !CheckTransaction(r, tx)
  {
    if g !in f.functionFilters {
      forall h | StaysFunction(f, a, h) ensures !CoversFunction(h, g) {
        if CoversFunction(h, g) {
          TypeEqualSymmetric(g.pattern, h.pattern);
          EqualIncludesIffSame(h.pattern, g.pattern);
        }
      }
      assert !FunctionCovered(f, a, g);
      MergeLosesNothingIff(f, a, r);
    }
  }

  lemma OnlyLeft(f: EventFilter, e: EventFilter)
    requires EventFilterEqual(e, f)
    ensures IsMerge(TransactionFilter([f], [], true, true), TransactionFilter([e], [], true, true),
                    TransactionFilter([f], [], true, true))
  {
    assert EventFilterEqual(e, [f][0]);
    assert HasTwinEvent([f], e);
  }

  /** So any two different clean names that print alike make filters whose merge loses. */
  lemma AlikeNamesLose(f: FullyName, g: FullyName)
    requires CleanName(f) && CleanName(g) && f != g && MainText(Qualified(f)) == MainText(Qualified(g))
    requires '<' !in g.address && '<' !in g.moduleName && '<' !in g.name
    ensures
      var left := TransactionFilter([EventFilter(Type(Qualified(f), []), None)], [], true, true);
      var right := TransactionFilter([EventFilter(Type(Qualified(g), []), None)], [], true, true);
      IsMerge(left, right, left) && exists tx :: CheckTransaction(right, tx) && !CheckTransaction(left, tx)
  {
    var d, e := EventFilter(Type(Qualified(f), []), None), EventFilter(Type(Qualified(g), []), None);
    var left, right := TransactionFilter([d], [], true, true), TransactionFilter([e], [], true, true);
    PaddedRead(g);
    assert IsRead(e.pattern);
    OnlyLeft(d, e);
    assert EventFilterEqual(e, left.eventFilters[0]);
    assert HasTwinEvent(left.eventFilters, e);
    TwinLost(left, right, left, e);
  }
}
