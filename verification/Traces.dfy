/** Call traces as a tree and as a flat list with addresses, and the conversions between the
    two (chain/evm/trace_types.go). */
module Traces {
  import opened Options

  type Address = nat
  type Bytes = seq<bv8>

  datatype GethTrace = GethTrace(
    typ: string, from: Option<Address>, to: string, value: string, gas: Option<nat>, gasUsed: Option<nat>,
    input: Bytes, output: Bytes, error: string, calls: seq<GethTrace>)

  datatype Action = Action(
    callType: string, from: Option<Address>, gas: Option<nat>, input: Bytes, to: string, value: string,
    init: Bytes, address: Option<Address>, refundAddress: Option<Address>, balance: Option<nat>)

  datatype ActionResult = ActionResult(address: Option<Address>, gasUsed: Option<nat>, output: Bytes)

  datatype ParityTrace = ParityTrace(
    action: Action, error: string, result: Option<ActionResult>, subtraces: nat, traceAddress: seq<nat>, kind: string)

  /** The library's text conversions; `decodeBig` is absent where the library panics. */
  datatype Codec = Codec(
    lower: string -> string, upper: string -> string,
    hexToAddress: string -> Address, addressText: Address -> string,
    decodeBig: string -> Option<nat>, bigText: nat -> string)

  const BLANK := GethTrace("", None, "", "", None, None, [], [], "", [])
  const NO_ACTION := Action("", None, None, [], "", "", [], None, None, None)

  const PRECOMPILED_PREFIX := "0x000000000000000000000000000000000000"
  const PARITY_OUT_OF_GAS := "Out of gas"
  const GETH_OUT_OF_GAS := "max code size exceeded"
  const PARITY_REVERTED := "Reverted"
  const GETH_REVERTED := "execution reverted"
  const SELF_DESTRUCT := "SELFDESTRUCT"

  function Size(t: GethTrace): nat
    decreases t, 1, 0
  {
    1 + Sizes(t, 0)
  }

  /** The sizes of the calls of `t` from index `i` on. */
  function Sizes(t: GethTrace, i: nat): nat
    requires i <= |t.calls|
    decreases t, 0, |t.calls| - i
  {
    if i == |t.calls| then 0 else Size(t.calls[i]) + Sizes(t, i + 1)
  }

  lemma {:induction false} CallIsSmaller(t: GethTrace, i: nat, k: nat)
    requires i <= k < |t.calls|
    ensures Size(t.calls[k]) <= Sizes(t, i)
    decreases k - i
  {
    if i < k { CallIsSmaller(t, i + 1, k); }
  }

  // ------------------------------------------------------------------ the calls that count

  predicate Precompiled(t: GethTrace) { PRECOMPILED_PREFIX <= t.to && t.value == "" }

  /** The calls among the first `n` that are kept, in order. */
  function SurvivorsOf(calls: seq<GethTrace>, n: nat): (r: seq<GethTrace>)
    requires n <= |calls|
  {
    if n == 0 then []
    else if Precompiled(calls[n - 1]) then SurvivorsOf(calls, n - 1)
    else SurvivorsOf(calls, n - 1) + [calls[n - 1]]
  }

  function Survivors(calls: seq<GethTrace>): seq<GethTrace> { SurvivorsOf(calls, |calls|) }

  /** Every kept call is one of the calls, and is not precompiled. */
  lemma {:induction false} SurvivorIsCall(calls: seq<GethTrace>, n: nat, i: nat) returns (k: nat)
    requires n <= |calls| && i < |SurvivorsOf(calls, n)|
    ensures k < n && calls[k] == SurvivorsOf(calls, n)[i] && !Precompiled(calls[k])
  {
    if Precompiled(calls[n - 1]) || i < |SurvivorsOf(calls, n - 1)| {
      k := SurvivorIsCall(calls, n - 1, i);
    } else {
      k := n - 1;
    }
  }

  /** Every call that is not precompiled is kept, behind all that are kept of those before it. */
  lemma {:induction false} CallSurvives(calls: seq<GethTrace>, n: nat, k: nat)
    requires k < n <= |calls| && !Precompiled(calls[k])
    ensures |SurvivorsOf(calls, k)| < |SurvivorsOf(calls, n)|
    ensures SurvivorsOf(calls, n)[|SurvivorsOf(calls, k)|] == calls[k]
  {
    if k < n - 1 { CallSurvives(calls, n - 1, k); }
  }

  method FilterPrecompileCalls(calls: seq<GethTrace>) returns (result: seq<GethTrace>)
    ensures result == Survivors(calls)
  {
    result := [];
    for i := 0 to |calls|
      invariant result == SurvivorsOf(calls, i)
    {
      if !(PRECOMPILED_PREFIX <= calls[i].to) || calls[i].value != "" {
        result := result + [calls[i]];
      }
    }
  }

  /** A delegate call carries the value of its caller. */
  function Adopt(parent: GethTrace, call: GethTrace): GethTrace {
    if call.typ == "DELEGATECALL" then call.(value := parent.value) else call
  }

  /** The direct children that the flat form keeps, as it sees them. */
  function Kids(t: GethTrace): seq<GethTrace> {
    var s := Survivors(t.calls);
    seq(|s|, i requires 0 <= i < |s| => Adopt(t, s[i]))
  }

  lemma KidIsSmaller(t: GethTrace, i: nat)
    requires i < |Kids(t)|
    ensures Size(Kids(t)[i]) < Size(t)
  {
    var k := SurvivorIsCall(t.calls, |t.calls|, i);
    CallIsSmaller(t, 0, k);
    SizeIsOfCalls(t.calls[k], Kids(t)[i]);
  }

  lemma {:induction false} SizeIsOfCalls(t: GethTrace, u: GethTrace)
    requires t.calls == u.calls
    ensures Size(t) == Size(u)
  {
    SizesAreOfCalls(t, u, 0);
  }

  lemma {:induction false} SizesAreOfCalls(t: GethTrace, u: GethTrace, i: nat)
    requires t.calls == u.calls && i <= |t.calls|
    ensures Sizes(t, i) == Sizes(u, i)
    decreases |t.calls| - i
  {
    if i < |t.calls| { SizesAreOfCalls(t, u, i + 1); }
  }

  /** The tree without its precompiled calls, at every level. */
  function Pruned(t: GethTrace): (p: GethTrace)
    ensures |p.calls| == |Kids(t)|
    decreases Size(t)
  {
    t.(calls := seq(|Kids(t)|, i requires 0 <= i < |Kids(t)| => KidIsSmaller(t, i); Pruned(Kids(t)[i])))
  }

  // ------------------------------------------------------------------------------ flattening

  function ValueText(t: GethTrace): string { if t.value == "" then "0x0" else t.value }

  /** The kind of entry a node becomes; later conditions win. */
  function Unique(t: GethTrace): nat {
    if t.typ == SELF_DESTRUCT then 4
    else if t.error == GETH_OUT_OF_GAS then 3
    else if t.typ == "CREATE" || t.typ == "CREATE2" then 2
    else if t.error == GETH_REVERTED then 1
    else 0
  }

  predicate HeadHexOk(c: Codec, t: GethTrace) { Unique(t) == 4 ==> c.decodeBig(ValueText(t)).Some? }

  /** Every self-destruct that is kept has a decodable value. */
  predicate HexOk(c: Codec, t: GethTrace)
    decreases Size(t)
  {
    HeadHexOk(c, t) && forall i | 0 <= i < |Kids(t)| :: (KidIsSmaller(t, i); HexOk(c, Kids(t)[i]))
  }

  function Head(c: Codec, t: GethTrace, address: seq<nat>): ParityTrace
    requires HeadHexOk(c, t)
  {
    var n := |Kids(t)|;
    match Unique(t)
    case 0 =>
      ParityTrace(NO_ACTION.(callType := c.lower(t.typ), from := t.from, gas := t.gas, input := t.input,
                             to := t.to, value := ValueText(t)),
                  "", Some(ActionResult(None, t.gasUsed, t.output)), n, address, "call")
    case 1 =>
      ParityTrace(NO_ACTION.(callType := c.lower(t.typ), from := t.from, gas := t.gas, input := t.input,
                             to := t.to, value := ValueText(t)),
                  PARITY_REVERTED, None, n, address, "call")
    case 2 =>
      ParityTrace(NO_ACTION.(from := t.from, gas := t.gas, init := t.input, value := ValueText(t)),
                  "", Some(ActionResult(Some(c.hexToAddress(t.to)), t.gasUsed, [])), n, address, "create")
    case 3 =>
      ParityTrace(NO_ACTION.(from := t.from, gas := t.gas, init := t.input, value := ValueText(t)),
                  PARITY_OUT_OF_GAS, None, n, address, "call")
    case _ =>
      ParityTrace(NO_ACTION.(address := t.from, balance := c.decodeBig(ValueText(t)),
                             refundAddress := Some(c.hexToAddress(t.to))),
                  "", None, n, address, "suicide")
  }

  function Flatten(c: Codec, t: GethTrace, address: seq<nat>): seq<ParityTrace>
    requires HexOk(c, t)
    decreases Size(t), 1, 0
  {
    [Head(c, t, address)] + FlattenKids(c, t, address, 0)
  }

  /** The entries of the children of `t` from the `i`-th on. */
  function FlattenKids(c: Codec, t: GethTrace, address: seq<nat>, i: nat): seq<ParityTrace>
    requires HexOk(c, t) && i <= |Kids(t)|
    decreases Size(t), 0, |Kids(t)| - i
  {
    if i == |Kids(t)| then []
    else
      KidIsSmaller(t, i);
      Flatten(c, Kids(t)[i], address + [i]) + FlattenKids(c, t, address, i + 1)
  }

  lemma Regroup<T>(a: seq<T>, b: seq<T>, c: seq<T>)
    ensures a + (b + c) == a + b + c
  {
  }

  method GethToParityTrace(c: Codec, t: GethTrace, address: seq<nat>) returns (result: seq<ParityTrace>)
    requires HexOk(c, t)
    ensures result == Flatten(c, t, address)
    decreases Size(t)
  {
    var calls := FilterPrecompileCalls(t.calls);
    result := [Head(c, t, address)];
    var i := 0;
    while i < |calls|
      invariant 0 <= i <= |calls| == |Kids(t)|
      invariant result + FlattenKids(c, t, address, i) == Flatten(c, t, address)
    {
      var call := calls[i];
      if call.typ == "DELEGATECALL" {
        call := call.(value := t.value);
      }
      assert call == Kids(t)[i];
      KidIsSmaller(t, i);
      var more := GethToParityTrace(c, call, address + [i]);
      ghost var rest := FlattenKids(c, t, address, i + 1);
      Regroup(result, more, rest);
      result := result + more;
      i := i + 1;
    }
    assert result + [] == result;
  }

  // ------------------------------------------------------------------------------ rebuilding

  datatype TraceError = NoRefundAddress | NoBalance | NoAddress | UnknownKind | InvalidAddress | NilResult

  function Convert(c: Codec, p: ParityTrace): Result<GethTrace, TraceError> {
    if p.kind == "call" then
      var error := if p.error == PARITY_OUT_OF_GAS then GETH_OUT_OF_GAS
                   else if p.error == PARITY_REVERTED then PARITY_REVERTED else "";
      var free := p.action.callType == "staticcall" || p.action.callType == "delegatecall";
      var value := if p.action.value == "0x0" && free then "" else p.action.value;
      var g := BLANK.(typ := c.upper(p.action.callType), from := p.action.from, to := p.action.to, value := value,
                      gas := p.action.gas, input := p.action.input, error := error);
      if error != "" then Ok(g)
      else if p.result.None? then Err(NilResult)
      else Ok(g.(gasUsed := p.result.value.gasUsed, output := p.result.value.output))
    else if p.kind == "suicide" then
      if p.action.refundAddress.None? then Err(NoRefundAddress)
      else if p.action.balance.None? then Err(NoBalance)
      else
        Ok(BLANK.(typ := SELF_DESTRUCT, from := p.action.address,
                  to := c.lower(c.addressText(p.action.refundAddress.value)),
                  value := c.bigText(p.action.balance.value), gas := Some(0), gasUsed := Some(0)))
    else if p.kind == "create" then
      if p.result.None? then Err(NilResult)
      else if p.result.value.address.None? then Err(NoAddress)
      else
        Ok(BLANK.(typ := "CREATE", from := p.action.from, gas := p.action.gas, input := p.action.init,
                  value := p.action.value, to := c.lower(c.addressText(p.result.value.address.value)),
                  gasUsed := p.result.value.gasUsed))
    else Err(UnknownKind)
  }

  /** The tree with the node at `path` replaced; absent when the path leaves the tree. */
  function Place(root: GethTrace, path: seq<nat>, node: GethTrace): Option<GethTrace>
    decreases |path|
  {
    if path == [] then Some(node)
    else if |root.calls| <= path[0] then None
    else
      match Place(root.calls[path[0]], path[1..], node)
      case None => None
      case Some(sub) => Some(root.(calls := root.calls[path[0] := sub]))
  }

  function Blanks(n: nat): seq<GethTrace> { seq(n, _ => BLANK) }

  function Rebuild(c: Codec, root: GethTrace, ps: seq<ParityTrace>): Result<GethTrace, TraceError>
    decreases |ps|
  {
    if ps == [] then Ok(root)
    else
      match RebuildOne(c, root, ps[0])
      case Err(e) => Err(e)
      case Ok(next) => Rebuild(c, next, ps[1..])
  }

  function RebuildOne(c: Codec, root: GethTrace, p: ParityTrace): Result<GethTrace, TraceError> {
    match Convert(c, p)
    case Err(e) => Err(e)
    case Ok(g) =>
      match Place(root, p.traceAddress, g.(calls := Blanks(p.subtraces)))
      case None => Err(InvalidAddress)
      case Some(next) => Ok(next)
  }

  method ParityToGethTrace(c: Codec, ps: seq<ParityTrace>) returns (r: Result<GethTrace, TraceError>)
    ensures r == Rebuild(c, BLANK, ps)
  {
    var root := BLANK;
    for k := 0 to |ps|
      invariant Rebuild(c, BLANK, ps) == Rebuild(c, root, ps[k..])
    {
      assert ps[k..][0] == ps[k] && ps[k..][1..] == ps[k + 1..];
      match RebuildOne(c, root, ps[k]) {
        case Err(e) => return Err(e);
        case Ok(next) => root := next;
      }
    }
    return Ok(root);
  }
}
