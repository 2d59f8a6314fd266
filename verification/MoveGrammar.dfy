/** The texts that the parser of Move types accepts. */
module MoveGrammar {
  import opened MoveStrings
  import opened MoveTypes
  import opened MoveRoundTrip
  import opened MoveCanonical
  import opened Options

  /** Some well-shaped text in parts spells `s` and the type. */
  ghost predicate Spelled(s: string, t: Type) {
    exists x :: WellShaped(x) && Spell(x) == s && TypeOf(x) == t
  }

  /** Trimming takes spaces off both ends. */
  lemma TrimmedParts(txt: string) returns (lead: string, pad: string)
    ensures AllSpaces(lead) && AllSpaces(pad) && txt == lead + TrimSpace(txt) + pad
    ensures txt != "" && !IsSpace(txt[0]) ==> lead == ""
  {
    var a := LeftEdge(txt, 0);
    var b := RightEdge(txt, a, |txt|);
    lead, pad := txt[..a], txt[b..];
    assert TrimSpace(txt) == txt[a..b];
    CutTwice(txt, a, b);
  }

  lemma CutTwice(txt: string, a: nat, b: nat)
    requires a <= b <= |txt|
    ensures txt == txt[..a] + txt[a..b] + txt[b..]
  {
  }

  /** Between them are the brackets with the pieces. */
  lemma TrimmedPieces(txt: string, parts: seq<string>)
    requires ArgTexts(txt) == Ok(parts) && TrimSpace(txt) != ""
    ensures parts != [] && TrimSpace(txt) == "<" + JoinCommas(parts) + ">"
  {
    var s := TrimSpace(txt);
    var inner := s[1..|s| - 1];
    SplitMeans(inner, 0, 0, 0);
    assert inner[0..] == inner;
    assert s == "<" + inner + ">";
  }

  /** A list that has pieces is spaces, `<`, the pieces joined by commas, `>` and spaces. */
  lemma WrappedPieces(txt: string, parts: seq<string>) returns (lead: string, pad: string)
    requires ArgTexts(txt) == Ok(parts) && parts != []
    ensures AllSpaces(lead) && AllSpaces(pad) && txt == lead + ("<" + JoinCommas(parts) + ">") + pad
  {
    lead, pad := TrimmedParts(txt);
    TrimmedPieces(txt, parts);
  }

  lemma WrappedTail(txt: string, parts: seq<string>) returns (pad: string)
    requires txt != "" && txt[0] == '<' && ArgTexts(txt) == Ok(parts)
    ensures AllSpaces(pad) && parts != [] && txt == "<" + JoinCommas(parts) + ">" + pad
  {
    var lead;
    lead, pad := TrimmedParts(txt);
    TrimmedPieces(txt, parts);
    assert lead + TrimSpace(txt) == TrimSpace(txt);
  }

  lemma {:induction false} JoinedIsSpelled(x: Shape, k: nat, parts: seq<string>)
    requires k < |x.args| == |parts| && forall i | 0 <= i < |parts| :: Spell(x.args[i]) == parts[i]
    ensures SpellFrom(x, k) == JoinCommas(parts[k..])
    decreases |parts| - k
  {
    if k + 1 < |parts| {
      JoinedIsSpelled(x, k + 1, parts);
      assert parts[k..][1..] == parts[k + 1..];
    }
  }

  /** A text that is read has a shape. */
  lemma {:induction false} ReadIsSpelled(s: string, t: Type) returns (x: Shape)
    requires BuildType(s) == Ok(t)
    ensures WellShaped(x) && Spell(x) == s && TypeOf(x) == t && (PlainHead(s) ==> WellNested(x))
    decreases |s|
  {
    var p := OpenFrom(s, 0);
    if p == |s| {
      NoArgsRead(s, t);
      x := Shape(s, [], "");
      MainRead(s, t);
      assert s[..p] == s;
      assert TypeOf(x).args == t.args;
    } else {
      var txt := s[p..];
      ArgsRead(s, t, txt);
      var parts := PiecesRead(txt, t.args);
      var args := ShapesOf(s, parts, t.args, |txt|);
      var pad := WrappedTail(txt, parts);
      x := Shape(s[..p], args, pad);
      MainRead(s, t);
      ShapeIs(s, p, x, parts);
      TypesAgree(x, t);
    }
  }

  lemma MainRead(s: string, t: Type)
    requires BuildType(s) == Ok(t)
    ensures t.main == ParseMain(TrimSpace(s[..OpenFrom(s, 0)]))
  {
  }

  lemma TypesAgree(x: Shape, t: Type)
    requires |x.args| == |t.args| && forall i | 0 <= i < |t.args| :: TypeOf(x.args[i]) == t.args[i]
    ensures TypeOf(x).args == t.args
  {
  }

  lemma ShapeIs(s: string, p: nat, x: Shape, parts: seq<string>)
    requires p <= |s| && x.head == s[..p] && |x.args| == |parts| > 0
    requires forall i | 0 <= i < |parts| :: Spell(x.args[i]) == parts[i]
    requires s[p..] == "<" + JoinCommas(parts) + ">" + x.pad
    ensures Spell(x) == s
  {
    JoinedIsSpelled(x, 0, parts);
    assert parts[0..] == parts;
    assert s == s[..p] + s[p..];
  }

  /** The shapes spell the texts and the types, and are fit to be arguments. */
  ghost predicate ShapesSpell(xs: seq<Shape>, parts: seq<string>, args: seq<Type>) {
    && |xs| == |parts| == |args| && AllWellNested(xs)
    && forall i | 0 <= i < |xs| :: Spell(xs[i]) == parts[i] && TypeOf(xs[i]) == args[i]
  }

  lemma OneMoreShape(x: Shape, rest: seq<Shape>, parts: seq<string>, args: seq<Type>)
    requires parts != [] && args != [] && ShapesSpell(rest, parts[1..], args[1..])
    requires WellNested(x) && Spell(x) == parts[0] && TypeOf(x) == args[0]
    ensures ShapesSpell([x] + rest, parts, args)
  {
    var xs := [x] + rest;
    forall i | 0 <= i < |xs| ensures Spell(xs[i]) == parts[i] && TypeOf(xs[i]) == args[i] {
      if i > 0 {
        assert xs[i] == rest[i - 1] && parts[i] == parts[1..][i - 1] && args[i] == args[1..][i - 1];
      }
    }
  }

  /** The shapes of texts that are read. */
  lemma {:induction false} ShapesOf(s: string, parts: seq<string>, args: seq<Type>, n: nat) returns (xs: seq<Shape>)
    requires ReadEach(parts, args, n) && n <= |s|
    ensures ShapesSpell(xs, parts, args)
    decreases |s|, 0, |parts|
  {
    if parts == [] {
      xs := [];
    } else {
      assert ReadsAs(parts[0], args[0], n);
      var x := ReadIsSpelled(parts[0], args[0]);
      ReadRest(parts, args, n);
      var rest := ShapesOf(s, parts[1..], args[1..], n);
      xs := [x] + rest;
      OneMoreShape(x, rest, parts, args);
    }
  }

  lemma ReadRest(parts: seq<string>, args: seq<Type>, n: nat)
    requires ReadEach(parts, args, n) && parts != []
    ensures ReadEach(parts[1..], args[1..], n)
  {
    forall i | 0 <= i < |args| - 1 ensures ReadsAs(parts[1..][i], args[1..][i], n) {
      assert ReadsAs(parts[i + 1], args[i + 1], n);
    }
  }

  /** A text is read as a type exactly when it spells it: main parts, and arguments in brackets
      behind which there are only spaces. */
  lemma BuildTypeIff(s: string, t: Type)
    ensures BuildType(s) == Ok(t) <==> Spelled(s, t)
  {
    if BuildType(s) == Ok(t) {
      var x := ReadIsSpelled(s, t);
    }
    if Spelled(s, t) {
      var x :| WellShaped(x) && Spell(x) == s && TypeOf(x) == t;
      SpelledIsRead(x);
    }
  }
}
