/** Move types as patterns: which types a pattern includes, and merging sets of patterns. */
module MoveInclude {
  import opened MoveTypes
  import opened Options

  predicate NameIncludes(f: FullyName, a: FullyName) {
    && (f.address == "" || f.address == a.address)
    && (f.moduleName == "" || f.moduleName == a.moduleName)
    && (f.name == "" || f.name == a.name)
  }

  predicate MainIncludes(m: Main, a: Main) {
    match m
    case AnyMain => true
    case Simple(word) => a.Simple? && word == a.word
    case Qualified(f) => a.Qualified? && NameIncludes(f, a.fqn)
  }

  predicate Include(t: Type, a: Type) {
    && MainIncludes(t.main, a.main)
    && (t.args == []
        || (|t.args| == |a.args| && forall i | 0 <= i < |t.args| :: Include(t.args[i], a.args[i])))
  }

  predicate IsAny(t: Type) { t.main.AnyMain? && t.args == [] }

  /** Whether a pattern matches the text of a type; an absent or malformed text is matched by
      the full wildcard only. */
  predicate IncludeText(t: Type, s: Option<string>) {
    IsAny(t) || (s.Some? && BuildType(s.value).Ok? && Include(t, BuildType(s.value).value))
  }

  // -------------------------------------------------------------- inclusion is a preorder

  lemma {:induction false} IncludeReflexive(t: Type)
    ensures Include(t, t)
  {
    forall i | 0 <= i < |t.args| ensures Include(t.args[i], t.args[i]) {
      IncludeReflexive(t.args[i]);
    }
  }

  lemma {:induction false} IncludeTransitive(t: Type, u: Type, v: Type)
    requires Include(t, u) && Include(u, v)
    ensures Include(t, v)
  {
    if t.args != [] {
      forall i | 0 <= i < |t.args| ensures Include(t.args[i], v.args[i]) {
        IncludeTransitive(t.args[i], u.args[i], v.args[i]);
      }
    }
  }

  /** A wider pattern matches every text a narrower one matches, the absent one included. */
  lemma IncludeTextUpward(t: Type, u: Type, s: Option<string>)
    requires Include(t, u) && IncludeText(u, s)
    ensures IncludeText(t, s)
  {
    if !IsAny(u) {
      IncludeTransitive(t, u, BuildType(s.value).value);
    }
  }

  // ------------------------------------------------------------------ what inclusion means

  /** What the wildcards of a pattern are replaced by: segments of its name, its main part, its
      arguments if it has none, and so on in its arguments. */
  datatype Filling = Filling(
    address: string, moduleName: string, name: string, main: Main, args: seq<Type>, parts: seq<Filling>)

  function FillSegment(segment: string, x: string): string { if segment == "" then x else segment }

  function FillMain(m: Main, x: Filling): Main {
    match m
    case AnyMain => x.main
    case Simple(word) => Simple(word)
    case Qualified(f) =>
      Qualified(FullyName(FillSegment(f.address, x.address), FillSegment(f.moduleName, x.moduleName),
                          FillSegment(f.name, x.name)))
  }

  /** The pattern with its wildcards replaced; an argument without a filling stays. */
  function Fill(p: Type, x: Filling): Type {
    Type(FillMain(p.main, x),
         if p.args == [] then x.args
         else seq(|p.args|, i requires 0 <= i < |p.args| =>
                if i < |x.parts| then Fill(p.args[i], x.parts[i]) else p.args[i]))
  }

  lemma {:induction false} FilledIsIncluded(p: Type, x: Filling)
    ensures Include(p, Fill(p, x))
  {
    if p.args != [] {
      forall i | 0 <= i < |p.args| ensures Include(p.args[i], Fill(p, x).args[i]) {
        if i < |x.parts| { FilledIsIncluded(p.args[i], x.parts[i]); } else { IncludeReflexive(p.args[i]); }
      }
    }
  }

  /** The filling that makes a type of a pattern that includes it. */
  ghost function FillingFor(p: Type, t: Type): Filling
    requires Include(p, t)
  {
    var f := if t.main.Qualified? then t.main.fqn else FullyName("", "", "");
    Filling(f.address, f.moduleName, f.name, t.main, t.args,
            seq(|p.args|, i requires 0 <= i < |p.args| => FillingFor(p.args[i], t.args[i])))
  }

  lemma {:induction false} IncludedIsFilled(p: Type, t: Type)
    requires Include(p, t)
    ensures Fill(p, FillingFor(p, t)) == t
  {
    var u := Fill(p, FillingFor(p, t));
    assert u.main == t.main;
    if p.args != [] {
      forall i | 0 <= i < |p.args| ensures u.args[i] == t.args[i] {
        IncludedIsFilled(p.args[i], t.args[i]);
      }
    }
    assert u.args == t.args;
  }

  /** A pattern includes exactly the types made of it by replacing its wildcards. */
  lemma IncludeIff(p: Type, t: Type)
    ensures Include(p, t) <==> exists x :: Fill(p, x) == t
  {
    if Include(p, t) { IncludedIsFilled(p, t); }
    if x :| Fill(p, x) == t { FilledIsIncluded(p, x); }
  }

  /** It matches the text of exactly those; a text that is absent or malformed is matched by the full
      wildcard alone. */
  lemma IncludeTextIff(p: Type, s: Option<string>)
    ensures IncludeText(p, s) <==>
              || p == Type(AnyMain, [])
              || (s.Some? && exists x :: BuildType(s.value) == Ok(Fill(p, x)))
  {
    if s.Some? && BuildType(s.value).Ok? { IncludeIff(p, BuildType(s.value).value); }
  }

  /** One wildcard put into a type: for a segment of its name, its main part, its arguments, or
      within an argument. */
  datatype Widening = NoAddress | NoModule | NoName | NoMain | NoArgs | InArg(index: nat, inner: Widening)

  function Widen(t: Type, w: Widening): Type {
    match w
    case NoMain => t.(main := AnyMain)
    case NoArgs => t.(args := [])
    case InArg(i, inner) => if i < |t.args| then t.(args := t.args[i := Widen(t.args[i], inner)]) else t
    case _ =>
      if !t.main.Qualified? then t
      else
        var f := t.main.fqn;
        t.(main := Qualified(if w.NoAddress? then f.(address := "")
                             else if w.NoModule? then f.(moduleName := "") else f.(name := "")))
  }

  lemma {:induction false} WidenedIncludes(t: Type, w: Widening)
    ensures Include(Widen(t, w), t)
  {
    forall i | 0 <= i < |t.args| ensures Include(t.args[i], t.args[i]) {
      IncludeReflexive(t.args[i]);
    }
    if w.InArg? && w.index < |t.args| { WidenedIncludes(t.args[w.index], w.inner); }
  }

  // ---------------------------------------------------------------------------- type sets

  /** A set of patterns, in the order they were given. */
  type TypeSet = seq<Type>

  predicate SetIncludes(s: TypeSet, t: Type) { exists i :: 0 <= i < |s| && Include(s[i], t) }

  predicate SetIncludesText(s: TypeSet, x: Option<string>) { exists i :: 0 <= i < |s| && IncludeText(s[i], x) }

  /** The members of `s`, in order, that no pattern of `a` includes. */
  function Without(s: TypeSet, a: TypeSet): (r: TypeSet)
    ensures forall t :: t in r <==> t in s && !SetIncludes(a, t)
  {
    if s == [] then [] else (if SetIncludes(a, s[0]) then [] else [s[0]]) + Without(s[1..], a)
  }

  function Merge(s: TypeSet, a: TypeSet): TypeSet {
    var ra := Without(a, s);
    var rs := Without(s, ra);
    rs + ra
  }

  /** The merged set holds the patterns of `a` that none of `s` includes, and those of `s` that none
      of these includes. */
  lemma MergeHolds(s: TypeSet, a: TypeSet, t: Type)
    ensures t in Merge(s, a) <==>
              || (t in a && forall u | u in s :: !Include(u, t))
              || (t in s && forall u | u in a && (forall v | v in s :: !Include(v, u)) :: !Include(u, t))
  {
    var ra := Without(a, s);
    forall u ensures SetIncludes(s, u) <==> exists v :: v in s && Include(v, u) {
      Membership(s, (v: Type) => Include(v, u));
    }
    Membership(ra, (v: Type) => Include(v, t));
  }

  /** Merging keeps some pattern with property `p`, whenever wider patterns inherit `p`. */
  lemma MergeKeeps(s: TypeSet, a: TypeSet, p: Type -> bool)
    requires forall t, u | Include(t, u) && p(u) :: p(t)
    ensures (exists t :: t in Merge(s, a) && p(t)) <==> (exists t :: t in s + a && p(t))
  {
    var ra := Without(a, s);
    var r := Merge(s, a);
    forall t | t in s && p(t) ensures exists u :: u in r && p(u) {
      if t !in Without(s, ra) {
        var i :| 0 <= i < |ra| && Include(ra[i], t);
        assert ra[i] in r && p(ra[i]);
      } else {
        assert t in r;
      }
    }
    forall t | t in a && p(t) ensures exists u :: u in r && p(u) {
      if t !in ra {
        var i :| 0 <= i < |s| && Include(s[i], t);
        assert s[i] in s && p(s[i]);
      } else {
        assert t in r;
      }
    }
  }

  /** The merged set includes a type exactly when one of the two sets does. */
  lemma MergeIncludes(s: TypeSet, a: TypeSet, t: Type)
    ensures SetIncludes(Merge(s, a), t) <==> SetIncludes(s, t) || SetIncludes(a, t)
  {
    forall u, v | Include(u, v) && Include(v, t) ensures Include(u, t) {
      IncludeTransitive(u, v, t);
    }
    MergeKeeps(s, a, (u: Type) => Include(u, t));
    Membership(Merge(s, a), (u: Type) => Include(u, t));
    Membership(s, (u: Type) => Include(u, t));
    Membership(a, (u: Type) => Include(u, t));
  }

  /** It matches the text of a type, or its absence, exactly when one of the two sets does. */
  lemma MergeIncludesText(s: TypeSet, a: TypeSet, x: Option<string>)
    ensures SetIncludesText(Merge(s, a), x) <==> SetIncludesText(s, x) || SetIncludesText(a, x)
  {
    forall u, v | Include(u, v) && IncludeText(v, x) ensures IncludeText(u, x) {
      IncludeTextUpward(u, v, x);
    }
    MergeKeeps(s, a, (u: Type) => IncludeText(u, x));
    Membership(Merge(s, a), (u: Type) => IncludeText(u, x));
    Membership(s, (u: Type) => IncludeText(u, x));
    Membership(a, (u: Type) => IncludeText(u, x));
  }

  lemma Membership(s: TypeSet, p: Type -> bool)
    ensures (exists t :: t in s && p(t)) <==> exists i :: 0 <= i < |s| && p(s[i])
  {
    forall i | 0 <= i < |s| && p(s[i]) ensures exists t :: t in s && p(t) {
      assert s[i] in s;
    }
  }
}
