/** The addresses of a flattened call tree: one entry per kept node, in preorder. */
module TraceAddresses {
  import opened Traces
  import opened TraceRoundTrip

  /** The path leads to a kept node. */
  predicate Leads(t: GethTrace, path: seq<nat>)
    decreases |path|
  {
    path == [] || (path[0] < |Kids(t)| && Leads(Kids(t)[path[0]], path[1..]))
  }

  /** The kept node a path leads to. */
  function NodeAt(t: GethTrace, path: seq<nat>): GethTrace
    requires Leads(t, path)
    decreases |path|
  {
    if path == [] then t else NodeAt(Kids(t)[path[0]], path[1..])
  }

  /** Before in preorder: a node comes before what is below it and before what is right of it. */
  predicate Before(p: seq<nat>, q: seq<nat>)
    decreases |p|
  {
    q != [] && (p == [] || p[0] < q[0] || (p[0] == q[0] && Before(p[1..], q[1..])))
  }

  lemma {:induction false} BeforeIsStrict(p: seq<nat>)
    ensures !Before(p, p)
  {
    if p != [] { BeforeIsStrict(p[1..]); }
  }

  lemma {:induction false} BeforeBelow(at: seq<nat>, p: seq<nat>, q: seq<nat>)
    requires Before(p, q)
    ensures Before(at + p, at + q)
  {
    if at == [] {
      assert at + p == p && at + q == q;
    } else {
      assert (at + p)[1..] == at[1..] + p && (at + q)[1..] == at[1..] + q;
      BeforeBelow(at[1..], p, q);
    }
  }

  /** The entry stands for the node its address leads to from `at`. */
  ghost predicate StandsFor(c: Codec, t: GethTrace, at: seq<nat>, e: ParityTrace) {
    && at <= e.traceAddress
    && Leads(t, e.traceAddress[|at|..])
    && var node := NodeAt(t, e.traceAddress[|at|..]);
       HeadHexOk(c, node) && e == Head(c, node, e.traceAddress)
  }

  /** ... and the address goes through one of the children from the `i`-th on. */
  ghost predicate FromKid(c: Codec, t: GethTrace, at: seq<nat>, i: nat, e: ParityTrace) {
    StandsFor(c, t, at, e) && |e.traceAddress| > |at| && e.traceAddress[|at|] >= i
  }

  lemma StandsForKid(c: Codec, t: GethTrace, at: seq<nat>, i: nat, e: ParityTrace)
    requires i < |Kids(t)| && StandsFor(c, Kids(t)[i], at + [i], e)
    ensures FromKid(c, t, at, i, e) && e.traceAddress[|at|] == i
  {
    var path := e.traceAddress[|at|..];
    assert (at + [i])[|at|] == i && e.traceAddress[|at|] == i;
    assert forall k | 0 <= k < |at| :: e.traceAddress[k] == (at + [i])[k];
    assert path[0] == i && path[1..] == e.traceAddress[|at + [i]|..];
  }

  /** Every entry stands for a node. */
  lemma {:induction false} EntriesStand(c: Codec, t: GethTrace, at: seq<nat>)
    requires HexOk(c, t)
    ensures forall e | e in Flatten(c, t, at) :: StandsFor(c, t, at, e)
    decreases Size(t), 1, 0
  {
    HeadConverts(c, t, at);
    assert at[|at|..] == [];
    KidEntriesStand(c, t, at, 0);
  }

  lemma {:induction false} KidEntriesStand(c: Codec, t: GethTrace, at: seq<nat>, i: nat)
    requires HexOk(c, t) && i <= |Kids(t)|
    ensures forall e | e in FlattenKids(c, t, at, i) :: FromKid(c, t, at, i, e)
    decreases Size(t), 0, |Kids(t)| - i
  {
    if i < |Kids(t)| {
      KidIsSmaller(t, i);
      EntriesStand(c, Kids(t)[i], at + [i]);
      forall e | e in Flatten(c, Kids(t)[i], at + [i]) ensures FromKid(c, t, at, i, e) {
        StandsForKid(c, t, at, i, e);
      }
      KidEntriesStand(c, t, at, i + 1);
    }
  }

  /** Every kept node has its entry. */
  lemma {:induction false} NodesHaveEntries(c: Codec, t: GethTrace, at: seq<nat>, path: seq<nat>)
    requires HexOk(c, t) && Leads(t, path)
    ensures exists e :: e in Flatten(c, t, at) && e.traceAddress == at + path
    decreases |path|
  {
    if path == [] {
      HeadConverts(c, t, at);
      assert Head(c, t, at) in Flatten(c, t, at);
      assert at + path == at;
    } else {
      var i := path[0];
      NodesHaveEntries(c, Kids(t)[i], at + [i], path[1..]);
      var e :| e in Flatten(c, Kids(t)[i], at + [i]) && e.traceAddress == at + [i] + path[1..];
      assert at + [i] + path[1..] == at + path;
      KidEntryIncluded(c, t, at, 0, i, e);
    }
  }

  lemma {:induction false} KidEntryIncluded(c: Codec, t: GethTrace, at: seq<nat>, i: nat, k: nat, e: ParityTrace)
    requires HexOk(c, t) && i <= k < |Kids(t)|
    requires e in Flatten(c, Kids(t)[k], at + [k])
    ensures e in FlattenKids(c, t, at, i)
    decreases k - i
  {
    var first, more := Flatten(c, Kids(t)[i], at + [i]), FlattenKids(c, t, at, i + 1);
    assert FlattenKids(c, t, at, i) == first + more;
    if i < k {
      KidEntryIncluded(c, t, at, i + 1, k, e);
      assert e in more;
    } else {
      assert e in first;
    }
  }

  ghost predicate InOrder(ps: seq<ParityTrace>) {
    forall j, k | 0 <= j < k < |ps| :: Before(ps[j].traceAddress, ps[k].traceAddress)
  }

  lemma InOrderBoth(a: seq<ParityTrace>, b: seq<ParityTrace>)
    requires InOrder(a) && InOrder(b)
    requires forall x, y | x in a && y in b :: Before(x.traceAddress, y.traceAddress)
    ensures InOrder(a + b)
  {
    var s := a + b;
    forall j, k | 0 <= j < k < |s| ensures Before(s[j].traceAddress, s[k].traceAddress) {
      assert j < |a| ==> s[j] in a;
      assert k >= |a| ==> s[k] in b;
    }
  }

  /** The entries come in preorder. */
  lemma {:induction false} EntriesInOrder(c: Codec, t: GethTrace, at: seq<nat>)
    requires HexOk(c, t)
    ensures InOrder(Flatten(c, t, at))
    decreases Size(t), 1, 0
  {
    var head, kids := Head(c, t, at), FlattenKids(c, t, at, 0);
    HeadConverts(c, t, at);
    KidEntriesStand(c, t, at, 0);
    KidEntriesInOrder(c, t, at, 0);
    forall y | y in kids ensures Before(at, y.traceAddress) {
      AboveComesFirst(at, y.traceAddress);
    }
    HeadFirst(head, kids);
  }

  lemma AboveComesFirst(at: seq<nat>, p: seq<nat>)
    requires at <= p && |at| < |p|
    ensures Before(at, p)
  {
    BeforeBelow(at, [], p[|at|..]);
    assert at + [] == at && at + p[|at|..] == p;
  }

  lemma HeadFirst(head: ParityTrace, rest: seq<ParityTrace>)
    requires InOrder(rest) && forall y | y in rest :: Before(head.traceAddress, y.traceAddress)
    ensures InOrder([head] + rest)
  {
    InOrderBoth([head], rest);
  }

  lemma {:induction false} KidEntriesInOrder(c: Codec, t: GethTrace, at: seq<nat>, i: nat)
    requires HexOk(c, t) && i <= |Kids(t)|
    ensures InOrder(FlattenKids(c, t, at, i))
    decreases Size(t), 0, |Kids(t)| - i
  {
    if i < |Kids(t)| {
      KidIsSmaller(t, i);
      var first, more := Flatten(c, Kids(t)[i], at + [i]), FlattenKids(c, t, at, i + 1);
      EntriesInOrder(c, Kids(t)[i], at + [i]);
      EntriesStand(c, Kids(t)[i], at + [i]);
      KidEntriesInOrder(c, t, at, i + 1);
      KidEntriesStand(c, t, at, i + 1);
      forall x, y | x in first && y in more ensures Before(x.traceAddress, y.traceAddress) {
        StandsForKid(c, t, at, i, x);
        LeftOf(at, x.traceAddress, y.traceAddress);
      }
      InOrderBoth(first, more);
    }
  }

  lemma LeftOf(at: seq<nat>, p: seq<nat>, q: seq<nat>)
    requires at <= p && at <= q && |at| < |p| && |at| < |q| && p[|at|] < q[|at|]
    ensures Before(p, q)
  {
    BeforeBelow(at, p[|at|..], q[|at|..]);
    assert at + p[|at|..] == p && at + q[|at|..] == q;
  }

  // --------------------------------------------------------------------------- main result

  ghost predicate HasAddress(ps: seq<ParityTrace>, address: seq<nat>) {
    exists e :: e in ps && e.traceAddress == address
  }

  /** An address occurs exactly when it leads to a kept node. */
  lemma AddressesLead(c: Codec, t: GethTrace, address: seq<nat>)
    requires HexOk(c, t)
    ensures HasAddress(Flatten(c, t, []), address) <==> Leads(t, address)
  {
    EntriesStand(c, t, []);
    if HasAddress(Flatten(c, t, []), address) {
      var e :| e in Flatten(c, t, []) && e.traceAddress == address;
      assert StandsFor(c, t, [], e);
      assert address[0..] == address;
    }
    if Leads(t, address) {
      NodesHaveEntries(c, t, [], address);
      assert [] + address == address;
    }
  }

  lemma {:induction false} LeadsOn(t: GethTrace, path: seq<nat>, i: nat)
    ensures Leads(t, path + [i]) <==> Leads(t, path) && i < |Kids(NodeAt(t, path))|
    decreases |path|
  {
    if path == [] {
      assert path + [i] == [i] && [i][1..] == [];
    } else {
      assert (path + [i])[0] == path[0] && (path + [i])[1..] == path[1..] + [i];
      if path[0] < |Kids(t)| { LeadsOn(Kids(t)[path[0]], path[1..], i); }
    }
  }

  /** The addresses of a flattened tree are distinct and in preorder; with an address occurs the
      one above it; and an entry counts exactly its direct children. */
  lemma FlattenedAddresses(c: Codec, t: GethTrace)
    requires HexOk(c, t)
    ensures InOrder(Flatten(c, t, []))
    ensures forall j, k | 0 <= j < k < |Flatten(c, t, [])| ::
              Flatten(c, t, [])[j].traceAddress != Flatten(c, t, [])[k].traceAddress
    ensures forall p, i | HasAddress(Flatten(c, t, []), p + [i]) :: HasAddress(Flatten(c, t, []), p)
    ensures forall e, i: nat | e in Flatten(c, t, []) ::
              HasAddress(Flatten(c, t, []), e.traceAddress + [i]) <==> i < e.subtraces
  {
    var ps := Flatten(c, t, []);
    EntriesInOrder(c, t, []);
    forall j, k | 0 <= j < k < |ps| ensures ps[j].traceAddress != ps[k].traceAddress {
      BeforeIsStrict(ps[j].traceAddress);
    }
    forall p, i | HasAddress(ps, p + [i]) ensures HasAddress(ps, p) {
      AddressesLead(c, t, p + [i]);
      LeadsOn(t, p, i);
      AddressesLead(c, t, p);
    }
    forall e, i: nat | e in ps ensures HasAddress(ps, e.traceAddress + [i]) <==> i < e.subtraces {
      CountsChildren(c, t, e, i);
    }
  }

  lemma CountsChildren(c: Codec, t: GethTrace, e: ParityTrace, i: nat)
    requires HexOk(c, t) && e in Flatten(c, t, [])
    ensures HasAddress(Flatten(c, t, []), e.traceAddress + [i]) <==> i < e.subtraces
  {
    EntriesStand(c, t, []);
    assert e.traceAddress[0..] == e.traceAddress;
    HeadConverts(c, NodeAt(t, e.traceAddress), e.traceAddress);
    AddressesLead(c, t, e.traceAddress + [i]);
    LeadsOn(t, e.traceAddress, i);
  }
}
