/** Texts that spell Move types, what the parser makes of them, and what printing a type and
    reading it back does to the type. */
module MoveRoundTrip {
  import opened MoveStrings
  import opened MoveTypes
  import opened Options

  predicate PlainChar(c: char) { c != '<' && c != '>' && c != ',' }

  predicate PlainIn(s: string, i: nat, j: nat)
    requires j <= |s|
  {
    forall k | i <= k < j :: PlainChar(s[k])
  }

  predicate PlainText(s: string) { PlainIn(s, 0, |s|) }

  // ------------------------------------------------------------------------------- spelling

  /** A text in its parts: what stands before the brackets, the arguments in them, and what stands
      behind them. */
  datatype Shape = Shape(head: string, args: seq<Shape>, pad: string)

  function Spell(x: Shape): string
    decreases x, 1, 0
  {
    if x.args == [] then x.head else x.head + ("<" + SpellFrom(x, 0) + ">" + x.pad)
  }

  /** The arguments of `x` from index `i` on, separated by commas. */
  function SpellFrom(x: Shape, i: nat): string
    requires i < |x.args|
    decreases x, 0, |x.args| - i
  {
    if i + 1 == |x.args| then Spell(x.args[i])
    else Spell(x.args[i]) + "," + SpellFrom(x, i + 1)
  }

  predicate AllSpaces(s: string) { forall i | 0 <= i < |s| :: IsSpace(s[i]) }

  /** Only spaces stand behind brackets, and the texts between them are plain. */
  predicate WellNested(x: Shape) { PlainText(x.head) && AllSpaces(x.pad) && AllWellNested(x.args) }

  predicate AllWellNested(xs: seq<Shape>) { forall a | a in xs :: WellNested(a) }

  /** Outside all brackets, a closing one and a comma are part of the text. */
  predicate WellShaped(x: Shape) { '<' !in x.head && AllSpaces(x.pad) && AllWellNested(x.args) }

  /** The type a shape spells: each part before brackets is trimmed and read as a main part. */
  function TypeOf(x: Shape): Type {
    Type(ParseMain(TrimSpace(x.head)), seq(|x.args|, i requires 0 <= i < |x.args| => TypeOf(x.args[i])))
  }

  // ---------------------------------------------------- splitting passes over a spelled argument

  /** `w` stands in `txt` at index `i`. */
  ghost predicate At(txt: string, i: nat, w: string) {
    i + |w| <= |txt| && forall k | 0 <= k < |w| :: txt[i + k] == w[k]
  }

  lemma AtParts(txt: string, i: nat, a: string, b: string)
    requires At(txt, i, a + b)
    ensures At(txt, i, a) && At(txt, i + |a|, b)
  {
    var w := a + b;
    forall k | 0 <= k < |a| ensures txt[i + k] == a[k] {
      assert w[k] == a[k];
    }
    forall k | 0 <= k < |b| ensures txt[i + |a| + k] == b[k] {
      assert w[|a| + k] == b[k];
    }
  }

  lemma AtSlice(txt: string, i: nat, w: string)
    requires At(txt, i, w)
    ensures txt[i..i + |w|] == w
  {
  }

  lemma {:induction false} SplitPassesPlain(txt: string, i: nat, j: nat, level: nat, start: nat)
    requires start <= i <= j <= |txt| && PlainIn(txt, i, j)
    ensures Split(txt, i, level, start) == Split(txt, j, level, start)
    decreases j - i
  {
    if i < j { SplitPassesPlain(txt, i + 1, j, level, start); }
  }

  lemma SplitPassesText(txt: string, i: nat, m: string, level: nat, start: nat)
    requires start <= i && At(txt, i, m) && PlainText(m)
    ensures Split(txt, i, level, start) == Split(txt, i + |m|, level, start)
  {
    forall k | i <= k < i + |m| ensures PlainChar(txt[k]) {
      assert txt[i + (k - i)] == m[k - i];
    }
    SplitPassesPlain(txt, i, i + |m|, level, start);
  }

  lemma SpacesArePlain(s: string)
    requires AllSpaces(s)
    ensures PlainText(s)
  {
  }

  /** A spelled argument is passed over whole, at any depth. */
  lemma {:induction false} SplitPassesShape(x: Shape, txt: string, i: nat, level: nat, start: nat)
    requires start <= i && WellNested(x) && At(txt, i, Spell(x))
    ensures Split(txt, i, level, start) == Split(txt, i + |Spell(x)|, level, start)
    decreases x, 1, 0
  {
    if x.args == [] {
      SplitPassesText(txt, i, x.head, level, start);
    } else {
      var h, n := |x.head|, |SpellFrom(x, 0)|;
      ShapeParts(x, txt, i);
      SplitPassesText(txt, i, x.head, level, start);
      SplitPassesArgs(x, 0, txt, i + h + 1, level + 1, start);
      SpacesArePlain(x.pad);
      SplitPassesText(txt, i + h + 1 + n + 1, x.pad, level, start);
    }
  }

  /** Where the parts of a spelled shape with arguments stand. */
  lemma ShapeParts(x: Shape, txt: string, i: nat)
    requires x.args != [] && At(txt, i, Spell(x))
    ensures
      var h, inner := |x.head|, SpellFrom(x, 0);
      && |Spell(x)| == h + |inner| + 2 + |x.pad|
      && At(txt, i, x.head) && At(txt, i + h + 1, inner) && At(txt, i + h + |inner| + 2, x.pad)
      && txt[i + h] == '<' && txt[i + h + 1 + |inner|] == '>'
  {
    var h, inner := |x.head|, SpellFrom(x, 0);
    AtParts(txt, i, x.head, "<" + inner + ">" + x.pad);
    AtParts(txt, i + h, "<" + inner + ">", x.pad);
    AtParts(txt, i + h, "<" + inner, ">");
    AtParts(txt, i + h, "<", inner);
    assert txt[i + h + 0] == "<"[0] && txt[i + h + 1 + |inner| + 0] == ">"[0];
  }

  /** Where the first spelled argument and the others stand. */
  lemma ArgParts(x: Shape, k: nat, txt: string, i: nat)
    requires k + 1 < |x.args| && At(txt, i, SpellFrom(x, k))
    ensures
      var a, more := Spell(x.args[k]), SpellFrom(x, k + 1);
      && |SpellFrom(x, k)| == |a| + 1 + |more|
      && At(txt, i, a) && txt[i + |a|] == ',' && At(txt, i + |a| + 1, more)
  {
    var a, more := Spell(x.args[k]), SpellFrom(x, k + 1);
    AtParts(txt, i, a + ",", more);
    AtParts(txt, i, a, ",");
    assert txt[i + |a| + 0] == ","[0];
  }

  /** Inside brackets the commas between arguments are passed over too. */
  lemma {:induction false} SplitPassesArgs(x: Shape, k: nat, txt: string, i: nat, level: nat, start: nat)
    requires start <= i && k < |x.args| && level > 0 && AllWellNested(x.args) && At(txt, i, SpellFrom(x, k))
    ensures Split(txt, i, level, start) == Split(txt, i + |SpellFrom(x, k)|, level, start)
    decreases x, 0, |x.args| - k
  {
    if k + 1 == |x.args| {
      SplitPassesShape(x.args[k], txt, i, level, start);
    } else {
      ArgParts(x, k, txt, i);
      SplitPassesShape(x.args[k], txt, i, level, start);
      SplitPassesArgs(x, k + 1, txt, i + |Spell(x.args[k])| + 1, level, start);
    }
  }

  /** The spelled arguments from index `k` on, one by one. */
  ghost function Spells(x: Shape, k: nat): (r: seq<string>)
    requires k <= |x.args|
    decreases |x.args| - k
  {
    if k == |x.args| then [] else [Spell(x.args[k])] + Spells(x, k + 1)
  }

  lemma {:induction false} SpellsAt(x: Shape, k: nat, j: nat)
    requires k <= |x.args|
    ensures |Spells(x, k)| == |x.args| - k
    ensures j < |x.args| - k ==> Spells(x, k)[j] == Spell(x.args[k + j])
    decreases |x.args| - k
  {
    if k < |x.args| { SpellsAt(x, k + 1, if j == 0 then 0 else j - 1); }
  }

  /** Outside brackets they separate: splitting the spelled arguments gives the arguments back. */
  lemma {:induction false} SplitSpelled(x: Shape, k: nat, txt: string, i: nat)
    requires k < |x.args| && AllWellNested(x.args) && At(txt, i, SpellFrom(x, k)) && i + |SpellFrom(x, k)| == |txt|
    ensures Split(txt, i, 0, i) == Ok(Spells(x, k))
    decreases |x.args| - k
  {
    if k + 1 == |x.args| {
      SplitLast(x.args[k], txt, i);
      assert Spells(x, k + 1) == [];
      assert [Spell(x.args[k])] + [] == [Spell(x.args[k])];
    } else {
      ArgParts(x, k, txt, i);
      SplitFirst(x.args[k], txt, i);
      SplitSpelled(x, k + 1, txt, i + |Spell(x.args[k])| + 1);
    }
  }

  lemma SplitLast(x: Shape, txt: string, i: nat)
    requires WellNested(x) && At(txt, i, Spell(x)) && i + |Spell(x)| == |txt|
    ensures Split(txt, i, 0, i) == Ok([Spell(x)])
  {
    SplitPassesShape(x, txt, i, 0, i);
    AtSlice(txt, i, Spell(x));
    assert txt[i..] == txt[i..|txt|];
  }

  lemma SplitFirst(x: Shape, txt: string, i: nat)
    requires WellNested(x) && At(txt, i, Spell(x)) && i + |Spell(x)| < |txt| && txt[i + |Spell(x)|] == ','
    ensures var j := i + |Spell(x)| + 1; Split(txt, i, 0, i) == Prepend([Spell(x)], Split(txt, j, 0, j))
  {
    SplitPassesShape(x, txt, i, 0, i);
    AtSlice(txt, i, Spell(x));
  }

  // ----------------------------------------------------------------- reading a spelled text

  ghost predicate EachReads(parts: seq<string>, types: seq<Type>) {
    |types| == |parts| && forall i | 0 <= i < |parts| :: BuildType(parts[i]) == Ok(types[i])
  }

  /** Reading a list of texts gives the list of the readings. */
  lemma {:induction false} BuildAllEach(parts: seq<string>, k: nat, bound: nat, types: seq<Type>)
    requires k <= |parts| && NoLonger(parts, bound) && EachReads(parts, types)
    ensures BuildAll(parts, k, bound) == Ok(types[k..])
    decreases |parts| - k
  {
    if k < |parts| {
      BuildAllEach(parts, k + 1, bound, types);
      assert [types[k]] + types[k + 1..] == types[k..];
    } else {
      assert types[k..] == [];
    }
  }

  lemma OpenAfter(s: string, m: string, rest: string)
    requires s == m + rest && '<' !in m && (rest == "" || rest[0] == '<')
    ensures OpenFrom(s, 0) == |m|
  {
    var p := OpenFrom(s, 0);
    assert forall i | 0 <= i < |m| :: s[i] == m[i];
    assert rest != "" ==> s[|m|] == '<';
  }

  /** A well-shaped text is read as the type it spells. */
  lemma {:induction false} SpelledIsRead(x: Shape)
    requires WellShaped(x)
    ensures BuildType(Spell(x)) == Ok(TypeOf(x))
    decreases x
  {
    var h := x.head;
    if x.args == [] {
      assert Spell(x) == h + "" == h;
      OpenAfter(h, h, "");
      assert h[..|h|] == h;
      assert TypeOf(x).args == [];
    } else {
      var tail := "<" + SpellFrom(x, 0) + ">" + x.pad;
      OpenAfter(Spell(x), h, tail);
      assert Spell(x)[..|h|] == h && Spell(x)[|h|..] == tail;
      ArgsAreSplit(x);
      SpellsAt(x, 0, 0);
      ArgsAreRead(x, tail, Spells(x, 0));
    }
  }

  lemma ArgsAreSplit(x: Shape)
    requires x.args != [] && AllSpaces(x.pad) && AllWellNested(x.args)
    ensures ArgTexts("<" + SpellFrom(x, 0) + ">" + x.pad) == Ok(Spells(x, 0))
  {
    SplitSpelled(x, 0, SpellFrom(x, 0), 0);
    ArgTextsWrapped(SpellFrom(x, 0), x.pad);
  }

  lemma {:induction false} ArgsAreRead(x: Shape, txt: string, parts: seq<string>)
    requires AllWellNested(x.args) && ArgTexts(txt) == Ok(parts) && parts == Spells(x, 0) && parts != []
    ensures ParseArgs(txt) == Ok(TypeOf(x).args)
    decreases x, 0
  {
    var bound := |txt| - 2;
    ParseArgsBuilds(txt, parts);
    ArgsAreBuilt(x, parts, bound);
  }

  lemma {:induction false} ArgsAreBuilt(x: Shape, parts: seq<string>, bound: nat)
    requires AllWellNested(x.args) && parts == Spells(x, 0) && NoLonger(parts, bound)
    ensures BuildAll(parts, 0, bound) == Ok(TypeOf(x).args)
    decreases x, 0, 0
  {
    EachIsRead(x, parts);
    AllAreRead(parts, bound, TypeOf(x).args);
  }

  lemma {:induction false} EachIsRead(x: Shape, parts: seq<string>)
    requires AllWellNested(x.args) && parts == Spells(x, 0)
    ensures EachReads(parts, TypeOf(x).args)
    decreases x, 0, 0, 0
  {
    SpellsAt(x, 0, 0);
    forall i | 0 <= i < |parts| ensures BuildType(parts[i]) == Ok(TypeOf(x).args[i]) {
      SpellsAt(x, 0, i);
      ArgIsRead(x, i);
    }
  }

  lemma {:induction false} ArgIsRead(x: Shape, i: nat)
    requires AllWellNested(x.args) && i < |x.args|
    ensures BuildType(Spell(x.args[i])) == Ok(TypeOf(x).args[i])
    decreases x, 0, 0, 0, 0
  {
    assert WellNested(x.args[i]) by { assert x.args[i] in x.args; }
    SpelledIsRead(x.args[i]);
  }

  lemma AllAreRead(parts: seq<string>, bound: nat, types: seq<Type>)
    requires NoLonger(parts, bound) && EachReads(parts, types)
    ensures BuildAll(parts, 0, bound) == Ok(types)
  {
    BuildAllEach(parts, 0, bound, types);
    assert types[0..] == types;
  }

  lemma ParseArgsBuilds(txt: string, parts: seq<string>)
    requires ArgTexts(txt) == Ok(parts)
    ensures ParseArgs(txt) == if parts == [] then Ok([]) else BuildAll(parts, 0, |txt| - 2)
  {
  }

  lemma ArgTextsWrapped(inner: string, pad: string)
    requires AllSpaces(pad)
    ensures ArgTexts("<" + inner + ">" + pad) == Split(inner, 0, 0, 0)
  {
    var txt := "<" + inner + ">" + pad;
    var n := |inner| + 2;
    assert txt[0] == '<' && txt[n - 1] == '>';
    assert forall i | n <= i < |txt| :: txt[i] == pad[i - n];
    TrimAt(txt, 0, n);
    assert txt[0..n] == "<" + inner + ">";
    assert ("<" + inner + ">")[1..n - 1] == inner;
  }

  // ------------------------------------------------------------ printing and reading back

  /** The main parts can be told from the brackets and commas around them. */
  predicate Nestable(t: Type) { PlainText(MainText(t.main)) && AllNestable(t.args) }

  predicate AllNestable(ts: seq<Type>) { forall a | a in ts :: Nestable(a) }

  /** No bracket or comma of a main part can be mistaken for one of the type's own. */
  predicate Printable(t: Type) { '<' !in MainText(t.main) && AllNestable(t.args) }

  /** The type with every main part printed, trimmed and read again. */
  function Reread(t: Type): Type {
    Type(ParseMain(TrimSpace(MainText(t.main))), seq(|t.args|, i requires 0 <= i < |t.args| => Reread(t.args[i])))
  }

  /** How the printed form of a type is spelled. */
  function ShapeOf(t: Type): Shape {
    Shape(MainText(t.main), seq(|t.args|, i requires 0 <= i < |t.args| => ShapeOf(t.args[i])), "")
  }

  lemma {:induction false} ShapeSpells(t: Type)
    ensures Spell(ShapeOf(t)) == Text(t)
    decreases t, 1, 0
  {
    if t.args != [] {
      ShapeSpellsFrom(t, 0);
      var w := "<" + Joined(t, 0) + ">";
      assert w + "" == w;
    }
  }

  lemma {:induction false} ShapeSpellsFrom(t: Type, i: nat)
    requires i < |t.args|
    ensures SpellFrom(ShapeOf(t), i) == Joined(t, i)
    decreases t, 0, |t.args| - i
  {
    ShapeSpells(t.args[i]);
    if i + 1 < |t.args| { ShapeSpellsFrom(t, i + 1); }
  }

  lemma {:induction false} ShapeNests(t: Type)
    requires Nestable(t)
    ensures WellNested(ShapeOf(t))
  {
    ShapesNest(t);
  }

  lemma {:induction false} ShapesNest(t: Type)
    requires AllNestable(t.args)
    ensures AllWellNested(ShapeOf(t).args)
    decreases t, 0
  {
    forall a | a in ShapeOf(t).args ensures WellNested(a) {
      var i :| 0 <= i < |t.args| && ShapeOf(t.args[i]) == a;
      assert t.args[i] in t.args;
      ShapeNests(t.args[i]);
    }
  }

  lemma {:induction false} ShapeIsReread(t: Type)
    ensures TypeOf(ShapeOf(t)) == Reread(t)
  {
    forall i | 0 <= i < |t.args| ensures TypeOf(ShapeOf(t)).args[i] == Reread(t).args[i] {
      ShapeIsReread(t.args[i]);
    }
    assert TypeOf(ShapeOf(t)).args == Reread(t).args;
  }

  /** Printing and reading a type rereads each of its main parts and changes nothing else. */
  lemma BuildRereads(t: Type)
    requires Printable(t)
    ensures BuildType(Text(t)) == Ok(Reread(t))
  {
    ShapesNest(t);
    SpelledIsRead(ShapeOf(t));
    ShapeSpells(t);
    ShapeIsReread(t);
  }

  /** The printed arguments, one by one. */
  ghost function Texts(t: Type): seq<string> { seq(|t.args|, i requires 0 <= i < |t.args| => Text(t.args[i])) }

  lemma TextsAt(t: Type, i: nat)
    requires i < |t.args|
    ensures Texts(t)[i] == Text(t.args[i])
  {
  }

  /** Splitting the joined arguments gives them back. */
  lemma SplitJoined(t: Type)
    requires t.args != [] && AllNestable(t.args)
    ensures Split(Joined(t, 0), 0, 0, 0) == Ok(Texts(t))
  {
    var x := ShapeOf(t);
    ShapesNest(t);
    ShapeSpellsFrom(t, 0);
    SplitSpelled(x, 0, Joined(t, 0), 0);
    SpellsAt(x, 0, 0);
    forall i | 0 <= i < |t.args| ensures Spells(x, 0)[i] == Texts(t)[i] {
      SpellsAt(x, 0, i);
      ShapeSpells(t.args[i]);
    }
    assert Spells(x, 0) == Texts(t);
  }
}
