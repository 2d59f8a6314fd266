/** Flattening a call tree and rebuilding it. */
module TraceRoundTrip {
  import opened Options
  import opened Traces

  // ----------------------------------------------------- the rebuilt tree, defined on the tree

  function Rebuilt(c: Codec, t: GethTrace): (e: GethTrace)
    requires HexOk(c, t)
    ensures |e.calls| == |Kids(t)|
    decreases Size(t)
  {
    HeadConverts(c, t, []);
    Convert(c, Head(c, t, [])).value.(
      calls := seq(|Kids(t)|, i requires 0 <= i < |Kids(t)| => KidIsSmaller(t, i); Rebuilt(c, Kids(t)[i])))
  }

  /** What becomes of one node through both conversions: a self-destruct, a node that ran out of gas,
      a creation, or any other call, reverted or not. */
  predicate NodeKept(c: Codec, t: GethTrace, e: GethTrace) {
    var destroyed := t.typ == "SELFDESTRUCT";
    var spent := !destroyed && t.error == "max code size exceeded";
    var created := !destroyed && !spent && (t.typ == "CREATE" || t.typ == "CREATE2");
    var called := !destroyed && !spent && !created;
    var reverted := called && t.error == "execution reverted";
    var value := if t.value == "" then "0x0" else t.value;
    var free := called && value == "0x0" && (c.lower(t.typ) == "staticcall" || c.lower(t.typ) == "delegatecall");
    && e.from == t.from
    && e.gas == (if destroyed then Some(0) else t.gas)
    && e.typ == (if destroyed then "SELFDESTRUCT" else if created then "CREATE"
                 else if spent then c.upper("") else c.upper(c.lower(t.typ)))
    && (destroyed ==> c.decodeBig(value).Some? && e.value == c.bigText(c.decodeBig(value).value))
    && (!destroyed ==> e.value == if free then "" else value)
    && e.error == (if spent then "max code size exceeded" else if reverted then "Reverted" else "")
    && e.to == (if called then t.to else if spent then "" else c.lower(c.addressText(c.hexToAddress(t.to))))
    && e.input == (if created || called then t.input else [])
    && e.gasUsed == (if destroyed then Some(0) else if created || (called && !reverted) then t.gasUsed else None)
    && e.output == (if called && !reverted then t.output else [])
  }

  /** The entry of a node always converts back, and keeps what a node keeps. */
  lemma HeadConverts(c: Codec, t: GethTrace, address: seq<nat>)
    requires HeadHexOk(c, t)
    ensures Convert(c, Head(c, t, address)).Ok?
    ensures Convert(c, Head(c, t, address)) == Convert(c, Head(c, t, []))
    ensures NodeKept(c, t, Convert(c, Head(c, t, address)).value)
    ensures Head(c, t, address).subtraces == |Kids(t)| && Head(c, t, address).traceAddress == address
  {
  }

  /** The same shape, and every node kept. */
  predicate TreeKept(c: Codec, t: GethTrace, e: GethTrace) {
    && NodeKept(c, t, e)
    && |t.calls| == |e.calls|
    && forall i | 0 <= i < |t.calls| :: TreeKept(c, t.calls[i], e.calls[i])
  }

  lemma {:induction false} RebuiltIsKept(c: Codec, t: GethTrace)
    requires HexOk(c, t)
    ensures TreeKept(c, Pruned(t), Rebuilt(c, t))
    decreases Size(t)
  {
    HeadConverts(c, t, []);
    forall i | 0 <= i < |Kids(t)| ensures TreeKept(c, Pruned(t).calls[i], Rebuilt(c, t).calls[i]) {
      KidIsSmaller(t, i);
      RebuiltIsKept(c, Kids(t)[i]);
    }
  }

  // --------------------------------------------------------------------- placing nodes

  /** The path stays in the tree. */
  predicate InTree(root: GethTrace, path: seq<nat>)
    decreases |path|
  {
    path == [] || (path[0] < |root.calls| && InTree(root.calls[path[0]], path[1..]))
  }

  lemma {:induction false} PlaceIff(root: GethTrace, path: seq<nat>, node: GethTrace)
    ensures Place(root, path, node).Some? <==> InTree(root, path)
    decreases |path|
  {
    if path != [] && path[0] < |root.calls| {
      PlaceIff(root.calls[path[0]], path[1..], node);
    }
  }

  /** Placing below a node just placed changes that one child. */
  lemma {:induction false} PlaceBelow(root: GethTrace, path: seq<nat>, node: GethTrace, i: nat, child: GethTrace)
    requires InTree(root, path) && i < |node.calls|
    ensures Place(root, path, node).Some?
    ensures Place(Place(root, path, node).value, path + [i], child)
         == Place(root, path, node.(calls := node.calls[i := child]))
    decreases |path|
  {
    PlaceIff(root, path, node);
    if path == [] {
      assert path + [i] == [i] && [i][1..] == [];
    } else {
      var sub := root.calls[path[0]];
      PlaceBelow(sub, path[1..], node, i, child);
      assert (path + [i])[1..] == path[1..] + [i];
      var full := node.(calls := node.calls[i := child]);
      PlaceIff(sub, path[1..], full);
      var s, u := Place(sub, path[1..], node).value, Place(sub, path[1..], full).value;
      assert root.calls[path[0] := s][path[0] := u] == root.calls[path[0] := u];
    }
  }

  // ------------------------------------------------------------------------- rebuilding

  lemma RebuildStep(c: Codec, root: GethTrace, p: ParityTrace, rest: seq<ParityTrace>)
    requires RebuildOne(c, root, p).Ok?
    ensures Rebuild(c, root, [p] + rest) == Rebuild(c, RebuildOne(c, root, p).value, rest)
  {
    assert ([p] + rest)[0] == p && ([p] + rest)[1..] == rest;
  }

  /** `t` converted, with its first `i` children rebuilt and the others still blank. */
  function Partial(c: Codec, t: GethTrace, i: nat): GethTrace
    requires HexOk(c, t) && i <= |Kids(t)|
  {
    var e := Rebuilt(c, t);
    e.(calls := e.calls[..i] + Blanks(|Kids(t)| - i))
  }

  lemma PartialNext(c: Codec, t: GethTrace, i: nat)
    requires HexOk(c, t) && i < |Kids(t)|
    ensures i < |Partial(c, t, i).calls|
    ensures var p := Partial(c, t, i);
            p.(calls := p.calls[i := Rebuilt(c, t).calls[i]]) == Partial(c, t, i + 1)
  {
    var p := Partial(c, t, i);
    assert p.calls[i := Rebuilt(c, t).calls[i]] == Partial(c, t, i + 1).calls;
  }

  /** The entries of a subtree rebuild that subtree in its place, whatever follows. */
  lemma {:induction false} RebuildSubtree(c: Codec, root: GethTrace, t: GethTrace, at: seq<nat>, rest: seq<ParityTrace>)
    requires HexOk(c, t) && InTree(root, at)
    ensures Place(root, at, Rebuilt(c, t)).Some?
    ensures Rebuild(c, root, Flatten(c, t, at) + rest) == Rebuild(c, Place(root, at, Rebuilt(c, t)).value, rest)
    decreases Size(t), 1, 0
  {
    PlaceIff(root, at, Rebuilt(c, t));
    HeadPlaced(c, root, t, at);
    var tail := FlattenKids(c, t, at, 0);
    Regroup([Head(c, t, at)], tail, rest);
    RebuildStep(c, root, Head(c, t, at), tail + rest);
    RebuildKids(c, root, t, at, 0, rest);
  }

  lemma PartialEnds(c: Codec, t: GethTrace)
    requires HexOk(c, t)
    ensures Partial(c, t, 0) == Convert(c, Head(c, t, [])).value.(calls := Blanks(|Kids(t)|))
    ensures Partial(c, t, |Kids(t)|) == Rebuilt(c, t)
  {
    HeadConverts(c, t, []);
    var e := Rebuilt(c, t);
    assert e.calls[..0] + Blanks(|Kids(t)|) == Blanks(|Kids(t)|);
    assert e.calls[..|Kids(t)|] + Blanks(0) == e.calls;
  }

  lemma HeadPlaced(c: Codec, root: GethTrace, t: GethTrace, at: seq<nat>)
    requires HexOk(c, t) && InTree(root, at)
    ensures Place(root, at, Partial(c, t, 0)).Some?
    ensures RebuildOne(c, root, Head(c, t, at)) == Ok(Place(root, at, Partial(c, t, 0)).value)
  {
    HeadConverts(c, t, at);
    PartialEnds(c, t);
    PlaceIff(root, at, Partial(c, t, 0));
  }

  lemma KidPlaced(c: Codec, root: GethTrace, t: GethTrace, at: seq<nat>, i: nat)
    requires HexOk(c, t) && InTree(root, at) && i < |Kids(t)|
    requires Place(root, at, Partial(c, t, i)).Some?
    ensures InTree(Place(root, at, Partial(c, t, i)).value, at + [i])
    ensures Place(Place(root, at, Partial(c, t, i)).value, at + [i], Rebuilt(c, t).calls[i])
         == Place(root, at, Partial(c, t, i + 1))
    ensures Place(root, at, Partial(c, t, i + 1)).Some?
  {
    var kid := Rebuilt(c, t).calls[i];
    PartialNext(c, t, i);
    PlaceBelow(root, at, Partial(c, t, i), i, kid);
    PlaceIff(root, at, Partial(c, t, i + 1));
    PlaceIff(Place(root, at, Partial(c, t, i)).value, at + [i], kid);
  }

  lemma {:induction false} RebuildKids(c: Codec, root: GethTrace, t: GethTrace, at: seq<nat>, i: nat,
                                       rest: seq<ParityTrace>)
    requires HexOk(c, t) && InTree(root, at) && i <= |Kids(t)|
    requires Place(root, at, Partial(c, t, i)).Some?
    ensures Place(root, at, Rebuilt(c, t)).Some?
    ensures Rebuild(c, Place(root, at, Partial(c, t, i)).value, FlattenKids(c, t, at, i) + rest)
         == Rebuild(c, Place(root, at, Rebuilt(c, t)).value, rest)
    decreases Size(t), 0, |Kids(t)| - i
  {
    PlaceIff(root, at, Rebuilt(c, t));
    if i == |Kids(t)| {
      PartialEnds(c, t);
      assert FlattenKids(c, t, at, i) + rest == rest;
    } else {
      KidIsSmaller(t, i);
      var kid := Kids(t)[i];
      var more := FlattenKids(c, t, at, i + 1);
      KidPlaced(c, root, t, at, i);
      Regroup(Flatten(c, kid, at + [i]), more, rest);
      RebuildSubtree(c, Place(root, at, Partial(c, t, i)).value, kid, at + [i], more + rest);
      RebuildKids(c, root, t, at, i + 1, rest);
    }
  }

  /** Rebuilding a flattened tree never fails, and gives the pruned tree's shape with every node as
      the two conversions keep it. */
  lemma RebuildFlattened(c: Codec, t: GethTrace)
    requires HexOk(c, t)
    ensures Rebuild(c, BLANK, Flatten(c, t, [])) == Ok(Rebuilt(c, t))
    ensures TreeKept(c, Pruned(t), Rebuilt(c, t))
  {
    assert Flatten(c, t, []) + [] == Flatten(c, t, []);
    RebuildSubtree(c, BLANK, t, [], []);
    RebuiltIsKept(c, t);
  }
}
