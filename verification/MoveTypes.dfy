/** Move types, their printed form and the parser of that form (chain/move/types.go). */
module MoveTypes {
  import opened MoveStrings
  import opened Options

  datatype ParseError = NotWrapped | MissingOpen | MissingClose

  type Parsed<+T> = Result<T, ParseError>

  /** An empty segment means the wildcard. */
  datatype FullyName = FullyName(address: string, moduleName: string, name: string)

  /** The main part of a type: a wildcard, a plain word, or a fully qualified name. */
  datatype Main = AnyMain | Simple(word: string) | Qualified(fqn: FullyName)

  datatype Type = Type(main: Main, args: seq<Type>)

  // ---------------------------------------------------------------- printing

  function Show(segment: string): string { if segment == "" then "*" else segment }

  function MainText(m: Main): string {
    match m
    case AnyMain => "*"
    case Simple(word) => word
    case Qualified(f) => Sep(Show(f.address), Sep(Show(f.moduleName), Show(f.name)))
  }

  function Text(t: Type): string
    decreases t, 1, 0
  {
    MainText(t.main) + (if t.args == [] then "" else "<" + Joined(t, 0) + ">")
  }

  /** The printed arguments of `t` from index `i` on, separated by commas. */
  function Joined(t: Type, i: nat): string
    requires i < |t.args|
    decreases t, 0, |t.args| - i
  {
    if i + 1 == |t.args| then Text(t.args[i])
    else Text(t.args[i]) + "," + Joined(t, i + 1)
  }

  // ----------------------------------------------------------------- parsing

  function Unstar(segment: string): string { if segment == "*" then "" else segment }

  /** The main part read from a trimmed text. */
  function ParseMain(s: string): Main {
    if HasSep(s) then
      var (address, ex) := Cut(s);
      var (moduleName, name) := Cut(ex);
      Qualified(FullyName(
                  Unstar(ToShortAddress(TrimSpace(address))),
                  Unstar(TrimSpace(moduleName)),
                  Unstar(TrimSpace(name))))
    else if s != "any" && s != "*" && s != "" then Simple(s)
    else AnyMain
  }

  /** The index of the first '<' from `i` on, or the length of the text. */
  function OpenFrom(s: string, i: nat): (p: nat)
    requires i <= |s|
    ensures i <= p <= |s| && (forall k | i <= k < p :: s[k] != '<') && (p < |s| ==> s[p] == '<')
    decreases |s| - i
  {
    if i == |s| || s[i] == '<' then i else OpenFrom(s, i + 1)
  }

  predicate NoLonger(parts: seq<string>, bound: nat) { forall i | 0 <= i < |parts| :: |parts[i]| <= bound }

  /** Splits `txt` at its commas outside brackets, from index `i` on; the current piece starts at
      `start` and `level` is the bracket depth reached. */
  function Split(txt: string, i: nat, level: nat, start: nat): (r: Parsed<seq<string>>)
    requires start <= i <= |txt|
    ensures r.Ok? ==> |r.value| > 0 && NoLonger(r.value, |txt|)
    decreases |txt| - i
  {
    if i == |txt| then
      if level > 0 then Err(MissingClose) else Ok([txt[start..]])
    else if txt[i] == '<' then Split(txt, i + 1, level + 1, start)
    else if txt[i] == '>' then
      if level == 0 then Err(MissingOpen) else Split(txt, i + 1, level - 1, start)
    else if txt[i] == ',' && level == 0 then Prepend([txt[start..i]], Split(txt, i + 1, 0, i + 1))
    else Split(txt, i + 1, level, start)
  }

  function Prepend(parts: seq<string>, r: Parsed<seq<string>>): Parsed<seq<string>> {
    match r
    case Ok(rest) => Ok(parts + rest)
    case Err(e) => Err(e)
  }

  function BuildType(s: string): Parsed<Type>
    decreases |s|, 1, 0
  {
    var p := OpenFrom(s, 0);
    var main := ParseMain(TrimSpace(s[..p]));
    if p == |s| then Ok(Type(main, []))
    else
      match ParseArgs(s[p..])
      case Ok(args) => Ok(Type(main, args))
      case Err(e) => Err(e)
  }

  /** The texts of the arguments in a bracketed list. */
  function ArgTexts(txt: string): (r: Parsed<seq<string>>)
    ensures r.Ok? && r.value != [] ==> |txt| >= 2 && NoLonger(r.value, |txt| - 2)
  {
    TrimIsTrimmed(txt);
    var s := TrimSpace(txt);
    if |s| == 0 then Ok([])
    else if |s| == 1 || s[0] != '<' || s[|s| - 1] != '>' then Err(NotWrapped)
    else Split(s[1..|s| - 1], 0, 0, 0)
  }

  function ParseArgs(txt: string): Parsed<seq<Type>>
    decreases |txt|, 0, 0
  {
    match ArgTexts(txt)
    case Err(e) => Err(e)
    case Ok(parts) => if parts == [] then Ok([]) else BuildAll(parts, 0, |txt| - 2)
  }

  /** The types read from the texts from the `i`-th on. */
  function BuildAll(parts: seq<string>, i: nat, bound: nat): (r: Parsed<seq<Type>>)
    requires i <= |parts| && NoLonger(parts, bound)
    decreases bound, 2, |parts| - i
  {
    if i == |parts| then Ok([])
    else
      match BuildType(parts[i])
      case Err(e) => Err(e)
      case Ok(first) =>
        match BuildAll(parts, i + 1, bound)
        case Err(e) => Err(e)
        case Ok(rest) => Ok([first] + rest)
  }

  // ------------------------------------------------------------------ what splitting means

  /** How many brackets are open after the first `i` characters. */
  function Depth(txt: string, i: nat): int
    requires i <= |txt|
  {
    if i == 0 then 0
    else Depth(txt, i - 1) + (if txt[i - 1] == '<' then 1 else if txt[i - 1] == '>' then -1 else 0)
  }

  /** No bracket is closed that was not opened, from index `i` on. */
  ghost predicate NeverBelow(txt: string, i: nat) {
    forall k | i <= k <= |txt| :: Depth(txt, k) >= 0
  }

  ghost predicate Balanced(txt: string) { NeverBelow(txt, 0) && Depth(txt, |txt|) == 0 }

  /** No comma in `txt[i..j]` stands outside brackets. */
  ghost predicate NoOuterComma(txt: string, i: nat, j: nat)
    requires j <= |txt|
  {
    forall k | i <= k < j && txt[k] == ',' :: Depth(txt, k) != 0
  }

  /** One argument: balanced, and without a comma outside brackets. */
  ghost predicate IsArgument(s: string) { Balanced(s) && NoOuterComma(s, 0, |s|) }

  ghost predicate AreArguments(parts: seq<string>) { forall i | 0 <= i < |parts| :: IsArgument(parts[i]) }

  function JoinCommas(parts: seq<string>): string
    requires parts != []
  {
    if |parts| == 1 then parts[0] else parts[0] + "," + JoinCommas(parts[1..])
  }

  lemma {:induction false} DepthOfPart(txt: string, i: nat, j: nat, k: nat)
    requires i <= j <= |txt| && k <= j - i
    ensures Depth(txt[i..j], k) == Depth(txt, i + k) - Depth(txt, i)
  {
    if k > 0 {
      DepthOfPart(txt, i, j, k - 1);
      assert txt[i..j][k - 1] == txt[i + (k - 1)];
    }
  }

  lemma PartIsArgument(txt: string, i: nat, j: nat)
    requires i <= j <= |txt| && Depth(txt, i) == 0 && Depth(txt, j) == 0 && NoOuterComma(txt, i, j)
    requires forall k | i <= k <= j :: Depth(txt, k) >= 0
    ensures IsArgument(txt[i..j])
  {
    var s := txt[i..j];
    forall k | 0 <= k <= |s| ensures Depth(s, k) == Depth(txt, i + k) && Depth(s, k) >= 0 {
      DepthOfPart(txt, i, j, k);
      assert Depth(txt, i + k) >= 0;
    }
    forall k | 0 <= k < |s| && s[k] == ',' ensures Depth(s, k) != 0 {
      assert txt[i + k] == ',';
    }
  }

  lemma JoinPrepended(part: string, rest: seq<string>)
    requires rest != []
    ensures JoinCommas([part] + rest) == part + "," + JoinCommas(rest)
  {
    assert ([part] + rest)[1..] == rest;
  }

  lemma ArgumentsPrepended(part: string, rest: seq<string>)
    requires IsArgument(part) && AreArguments(rest)
    ensures AreArguments([part] + rest)
  {
  }

  /** What reading from index `i` on with a piece begun at `start` comes to. */
  ghost predicate SplitsWell(txt: string, i: nat, start: nat, r: Parsed<seq<string>>)
    requires start <= |txt|
  {
    && (r.Ok? <==> NeverBelow(txt, i) && Depth(txt, |txt|) == 0)
    && (r == Err(MissingOpen) <==> !NeverBelow(txt, i))
    && (r.Ok? ==> r.value != [] && AreArguments(r.value) && JoinCommas(r.value) == txt[start..])
  }

  lemma NeverBelowStep(txt: string, i: nat)
    requires i < |txt|
    ensures NeverBelow(txt, i) <==> Depth(txt, i) >= 0 && NeverBelow(txt, i + 1)
  {
  }

  lemma SplitAtComma(txt: string, i: nat, start: nat, r: Parsed<seq<string>>)
    requires start <= i < |txt| && txt[i] == ',' && Depth(txt, start) == 0 && Depth(txt, i) == 0
    requires (forall k | start <= k <= i :: Depth(txt, k) >= 0) && NoOuterComma(txt, start, i)
    requires SplitsWell(txt, i + 1, i + 1, r)
    ensures SplitsWell(txt, i, start, Prepend([txt[start..i]], r))
  {
    NeverBelowStep(txt, i);
    if r.Ok? {
      PartIsArgument(txt, start, i);
      JoinPrepended(txt[start..i], r.value);
      ArgumentsPrepended(txt[start..i], r.value);
      AroundComma(txt, i, start);
    }
  }

  lemma AroundComma(txt: string, i: nat, start: nat)
    requires start <= i < |txt| && txt[i] == ','
    ensures txt[start..] == txt[start..i] + "," + txt[i + 1..]
  {
  }

  lemma SplitAtEnd(txt: string, start: nat)
    requires start <= |txt| && Depth(txt, start) == 0 && Depth(txt, |txt|) == 0
    requires (forall k | start <= k <= |txt| :: Depth(txt, k) >= 0) && NoOuterComma(txt, start, |txt|)
    ensures SplitsWell(txt, |txt|, start, Ok([txt[start..]]))
  {
    PartIsArgument(txt, start, |txt|);
    assert txt[start..|txt|] == txt[start..];
  }

  /** From a point up to which all is read well, splitting succeeds exactly when the rest closes
      every bracket; it then yields arguments that the commas join to the text. */
  lemma {:induction false} SplitMeans(txt: string, i: nat, level: nat, start: nat)
    requires start <= i <= |txt| && level == Depth(txt, i) && Depth(txt, start) == 0
    requires (forall k | start <= k <= i :: Depth(txt, k) >= 0) && NoOuterComma(txt, start, i)
    ensures SplitsWell(txt, i, start, Split(txt, i, level, start))
    decreases |txt| - i
  {
    if i == |txt| {
      if level == 0 { SplitAtEnd(txt, start); }
    } else {
      NeverBelowStep(txt, i);
      if txt[i] == '>' && level == 0 {
        assert Depth(txt, i + 1) < 0;
      } else if txt[i] == ',' && level == 0 {
        SplitMeans(txt, i + 1, 0, i + 1);
        SplitAtComma(txt, i, start, Split(txt, i + 1, 0, i + 1));
      } else {
        SplitMeans(txt, i + 1, Depth(txt, i + 1), start);
      }
    }
  }

  /** The splitting loop of parseArgs: it cuts at exactly the commas outside brackets, and fails
      exactly for unbalanced texts. */
  method SplitArgs(txt: string) returns (r: Parsed<seq<string>>)
    ensures r.Ok? <==> Balanced(txt)
    ensures r == Err(MissingOpen) <==> !NeverBelow(txt, 0)
    ensures r.Ok? ==> r.value != [] && JoinCommas(r.value) == txt && AreArguments(r.value)
    ensures r == Split(txt, 0, 0, 0)
  {
    SplitMeans(txt, 0, 0, 0);
    assert txt[0..] == txt;
    var level, start, i := 0, 0, 0;
    var parts: seq<string> := [];
    PrependNone(Split(txt, 0, 0, 0));
    while i < |txt|
      invariant 0 <= start <= i <= |txt| && level >= 0
      invariant Split(txt, 0, 0, 0) == Prepend(parts, Split(txt, i, level, start))
    {
      if txt[i] == '<' {
        level := level + 1;
      } else if txt[i] == '>' {
        if level == 0 { return Err(MissingOpen); }
        level := level - 1;
      } else if txt[i] == ',' && level == 0 {
        PrependOne(parts, txt[start..i], Split(txt, i + 1, 0, i + 1));
        parts := parts + [txt[start..i]];
        start := i + 1;
      }
      i := i + 1;
    }
    if level > 0 { return Err(MissingClose); }
    return Ok(parts + [txt[start..]]);
  }

  lemma PrependNone(r: Parsed<seq<string>>)
    ensures Prepend([], r) == r
  {
    if r.Ok? { assert [] + r.value == r.value; }
  }

  lemma PrependOne(parts: seq<string>, part: string, r: Parsed<seq<string>>)
    ensures Prepend(parts, Prepend([part], r)) == Prepend(parts + [part], r)
  {
    if r.Ok? {
      assert parts + ([part] + r.value) == parts + [part] + r.value;
    }
  }
}
