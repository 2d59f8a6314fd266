/** What the entries of a flattened tree say of its nodes, and what the nodes of any rebuilt tree
    say of the entries they were built from. */
module TraceEntries {
  import opened Options
  import opened Traces
  import opened TraceRoundTrip
  import opened TraceAddresses

  // ---------------------------------------------------------------------- flattened entries

  /** The entry of a node, field by field. */
  predicate Describes(c: Codec, t: GethTrace, e: ParityTrace) {
    var destroyed := t.typ == "SELFDESTRUCT";
    var spent := !destroyed && t.error == "max code size exceeded";
    var created := !destroyed && !spent && (t.typ == "CREATE" || t.typ == "CREATE2");
    var called := !destroyed && !spent && !created;
    var reverted := called && t.error == "execution reverted";
    var value := if t.value == "" then "0x0" else t.value;
    && e.kind == (if destroyed then "suicide" else if created then "create" else "call")
    && e.error == (if spent then "Out of gas" else if reverted then "Reverted" else "")
    && e.action.value == (if destroyed then "" else value)
    && e.action.from == (if destroyed then None else t.from)
    && e.action.gas == (if destroyed then None else t.gas)
    && e.action.callType == (if called then c.lower(t.typ) else "")
    && e.action.to == (if called then t.to else "")
    && e.action.input == (if called then t.input else [])
    && e.action.init == (if created || spent then t.input else [])
    && e.action.address == (if destroyed then t.from else None)
    && e.action.refundAddress == (if destroyed then Some(c.hexToAddress(t.to)) else None)
    && e.action.balance == (if destroyed then c.decodeBig(value) else None)
    && e.result == (if created then Some(ActionResult(Some(c.hexToAddress(t.to)), t.gasUsed, []))
                    else if called && !reverted then Some(ActionResult(None, t.gasUsed, t.output)) else None)
  }

  lemma HeadDescribes(c: Codec, t: GethTrace, address: seq<nat>)
    requires HeadHexOk(c, t)
    ensures Describes(c, t, Head(c, t, address))
  {
  }

  /** Every entry of a flattened tree describes the node its address leads to. */
  lemma EntriesDescribe(c: Codec, t: GethTrace, e: ParityTrace)
    requires HexOk(c, t) && e in Flatten(c, t, [])
    ensures Leads(t, e.traceAddress) && Describes(c, NodeAt(t, e.traceAddress), e)
  {
    EntriesStand(c, t, []);
    assert StandsFor(c, t, [], e);
    assert e.traceAddress[0..] == e.traceAddress;
    HeadDescribes(c, NodeAt(t, e.traceAddress), e.traceAddress);
  }

  lemma {:induction false} NodeBelow(t: GethTrace, path: seq<nat>, i: nat)
    requires Leads(t, path + [i])
    ensures Leads(t, path) && i < |Kids(NodeAt(t, path))| && NodeAt(t, path + [i]) == Kids(NodeAt(t, path))[i]
    decreases |path|
  {
    LeadsOn(t, path, i);
    if path == [] {
      assert path + [i] == [i] && [i][1..] == [];
    } else {
      assert (path + [i])[0] == path[0] && (path + [i])[1..] == path[1..] + [i];
      NodeBelow(Kids(t)[path[0]], path[1..], i);
    }
  }

  /** A call to a precompiled contract that moves no value. */
  predicate ToPrecompiled(t: GethTrace) {
    && t.value == "" && |t.to| >= 38 && t.to[0] == '0' && t.to[1] == 'x'
    && forall i | 2 <= i < 38 :: t.to[i] == '0'
  }

  lemma PrecompiledIff(t: GethTrace)
    ensures Precompiled(t) <==> ToPrecompiled(t)
  {
    var p := PRECOMPILED_PREFIX;
    assert |p| == 38 && p[0] == '0' && p[1] == 'x' && forall i | 2 <= i < 38 :: p[i] == '0';
    assert p <= t.to <==> |p| <= |t.to| && forall i | 0 <= i < |p| :: p[i] == t.to[i];
  }

  /** How many of the first `n` calls are kept. */
  function KeptCalls(calls: seq<GethTrace>, n: nat): nat
    requires n <= |calls|
  {
    if n == 0 then 0 else KeptCalls(calls, n - 1) + if ToPrecompiled(calls[n - 1]) then 0 else 1
  }

  lemma {:induction false} SurvivorsCounted(calls: seq<GethTrace>, n: nat)
    requires n <= |calls|
    ensures |SurvivorsOf(calls, n)| == KeptCalls(calls, n)
  {
    if n > 0 {
      PrecompiledIff(calls[n - 1]);
      SurvivorsCounted(calls, n - 1);
    }
  }

  lemma {:induction false} SurvivorPlace(calls: seq<GethTrace>, n: nat, i: nat) returns (k: nat)
    requires n <= |calls| && i < |SurvivorsOf(calls, n)|
    ensures k < n && calls[k] == SurvivorsOf(calls, n)[i] && !ToPrecompiled(calls[k]) && KeptCalls(calls, k) == i
  {
    PrecompiledIff(calls[n - 1]);
    if Precompiled(calls[n - 1]) || i < |SurvivorsOf(calls, n - 1)| {
      k := SurvivorPlace(calls, n - 1, i);
    } else {
      k := n - 1;
      SurvivorsCounted(calls, k);
    }
  }

  /** The `i`-th node below another is its `i`-th call that is not to a precompiled contract; a
      delegate call carries the value of the node above. */
  lemma ChildIs(t: GethTrace, path: seq<nat>, i: nat) returns (k: nat)
    requires Leads(t, path + [i])
    ensures Leads(t, path)
    ensures var above, node := NodeAt(t, path), NodeAt(t, path + [i]);
            && k < |above.calls| && !ToPrecompiled(above.calls[k]) && KeptCalls(above.calls, k) == i
            && node == above.calls[k].(value := if above.calls[k].typ == "DELEGATECALL" then above.value
                                                else above.calls[k].value)
  {
    NodeBelow(t, path, i);
    var above := NodeAt(t, path);
    k := SurvivorPlace(above.calls, |above.calls|, i);
  }

  /** And a path leads on exactly to as many nodes as there are such calls. */
  lemma ChildrenCounted(t: GethTrace, path: seq<nat>, i: nat)
    requires Leads(t, path)
    ensures Leads(t, path + [i]) <==> i < KeptCalls(NodeAt(t, path).calls, |NodeAt(t, path).calls|)
  {
    LeadsOn(t, path, i);
    var calls := NodeAt(t, path).calls;
    SurvivorsCounted(calls, |calls|);
  }

  // ------------------------------------------------------------------------- rebuilt nodes

  /** The node built from an entry, field by field, without its calls. */
  predicate Reflects(c: Codec, p: ParityTrace, g: GethTrace) {
    if p.kind == "call" then
      var error := if p.error == "Out of gas" then "max code size exceeded"
                   else if p.error == "Reverted" then "Reverted" else "";
      var free := p.action.value == "0x0"
                  && (p.action.callType == "staticcall" || p.action.callType == "delegatecall");
      && g.typ == c.upper(p.action.callType) && g.from == p.action.from && g.to == p.action.to
      && g.value == (if free then "" else p.action.value)
      && g.gas == p.action.gas && g.input == p.action.input && g.error == error
      && (error == "" ==> p.result.Some? && g.gasUsed == p.result.value.gasUsed && g.output == p.result.value.output)
      && (error != "" ==> g.gasUsed == None && g.output == [])
    else if p.kind == "suicide" then
      && p.action.refundAddress.Some? && p.action.balance.Some?
      && g.typ == "SELFDESTRUCT" && g.from == p.action.address
      && g.to == c.lower(c.addressText(p.action.refundAddress.value))
      && g.value == c.bigText(p.action.balance.value)
      && g.gas == Some(0) && g.gasUsed == Some(0) && g.input == [] && g.output == [] && g.error == ""
    else
      && p.kind == "create" && p.result.Some? && p.result.value.address.Some?
      && g.typ == "CREATE" && g.from == p.action.from && g.gas == p.action.gas && g.input == p.action.init
      && g.value == p.action.value && g.to == c.lower(c.addressText(p.result.value.address.value))
      && g.gasUsed == p.result.value.gasUsed && g.output == [] && g.error == ""
  }

  /** An entry converts exactly when it has what its kind needs, and then to the node that reflects
      it. */
  lemma ConvertIff(c: Codec, p: ParityTrace)
    ensures Convert(c, p).Ok? <==>
              || (p.kind == "call" && (p.error == "Out of gas" || p.error == "Reverted" || p.result.Some?))
              || (p.kind == "suicide" && p.action.refundAddress.Some? && p.action.balance.Some?)
              || (p.kind == "create" && p.result.Some? && p.result.value.address.Some?)
    ensures Convert(c, p).Ok? ==> Reflects(c, p, Convert(c, p).value)
  {
  }

  function At(root: GethTrace, path: seq<nat>): GethTrace
    requires InTree(root, path)
    decreases |path|
  {
    if path == [] then root else At(root.calls[path[0]], path[1..])
  }

  /** The same node but for what its calls hold. */
  predicate SameHead(a: GethTrace, b: GethTrace) { a.(calls := []) == b.(calls := []) && |a.calls| == |b.calls| }

  lemma {:induction false} PlacedAt(root: GethTrace, path: seq<nat>, node: GethTrace, r: GethTrace)
    requires Place(root, path, node) == Some(r)
    ensures InTree(r, path) && At(r, path) == node
    decreases |path|
  {
    if path != [] {
      PlacedAt(root.calls[path[0]], path[1..], node, Place(root.calls[path[0]], path[1..], node).value);
    }
  }

  /** Placing a node changes no other node's own fields, except of those below it. */
  lemma {:induction false} PlacedElsewhere(root: GethTrace, q: seq<nat>, node: GethTrace, r: GethTrace, p: seq<nat>)
    requires Place(root, q, node) == Some(r) && InTree(root, p) && !(q <= p)
    ensures InTree(r, p) && SameHead(At(r, p), At(root, p))
    decreases |q|
  {
    var sub := Place(root.calls[q[0]], q[1..], node).value;
    assert r == root.(calls := root.calls[q[0] := sub]);
    if p != [] && p[0] == q[0] {
      assert q[1..] <= p[1..] ==> q <= p;
      PlacedElsewhere(root.calls[q[0]], q[1..], node, sub, p[1..]);
    }
  }

  /** Entries that stand for no node at or above `p` leave the node at `p` as it is. */
  lemma {:induction false} RebuildLeaves(c: Codec, root: GethTrace, ps: seq<ParityTrace>, r: GethTrace, p: seq<nat>)
    requires Rebuild(c, root, ps) == Ok(r) && InTree(root, p)
    requires forall j | 0 <= j < |ps| :: !(ps[j].traceAddress <= p)
    ensures InTree(r, p) && SameHead(At(r, p), At(root, p))
    decreases |ps|
  {
    if ps != [] {
      var next := RebuildOne(c, root, ps[0]).value;
      var node := Convert(c, ps[0]).value.(calls := Blanks(ps[0].subtraces));
      PlacedElsewhere(root, ps[0].traceAddress, node, next, p);
      RebuildLeaves(c, next, ps[1..], r, p);
    }
  }

  /** In whatever is rebuilt from any list of entries: the node at an entry's address reflects that
      entry and has as many calls as it counts, unless a later entry stands for it or for a node
      above it. */
  lemma {:induction false} RebuiltReflects(c: Codec, root: GethTrace, ps: seq<ParityTrace>, r: GethTrace, k: nat)
    requires Rebuild(c, root, ps) == Ok(r) && k < |ps|
    requires forall j | k < j < |ps| :: !(ps[j].traceAddress <= ps[k].traceAddress)
    ensures InTree(r, ps[k].traceAddress)
    ensures var g := At(r, ps[k].traceAddress); Reflects(c, ps[k], g) && |g.calls| == ps[k].subtraces
    decreases k
  {
    var next := RebuildOne(c, root, ps[0]).value;
    var rest := ps[1..];
    assert forall j | 0 <= j < |rest| :: rest[j] == ps[j + 1];
    if k > 0 {
      RebuiltReflects(c, next, rest, r, k - 1);
    } else {
      var node := Convert(c, ps[0]).value.(calls := Blanks(ps[0].subtraces));
      ConvertIff(c, ps[0]);
      PlacedAt(root, ps[0].traceAddress, node, next);
      RebuildLeaves(c, next, rest, r, ps[0].traceAddress);
    }
  }
}
