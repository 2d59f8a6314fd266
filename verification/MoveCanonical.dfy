/** Which Move types survive printing and reading back, and which types the parser yields. */
module MoveCanonical {
  import opened MoveStrings
  import opened MoveTypes
  import opened MoveRoundTrip
  import opened Options

  // ------------------------------------------------------------------ one main part

  predicate CleanAddress(a: string) { a != "*" && Trimmed(a) && !HasSep(a) && ToShortAddress(a) == a }

  predicate CleanModule(m: string) { m != "*" && Trimmed(m) && !HasSep(m) }

  predicate CleanName(f: FullyName) {
    CleanAddress(f.address) && CleanModule(f.moduleName) && f.name != "*" && Trimmed(f.name)
  }

  /** A segment before a separator that ends in a colon would be cut one colon too early. */
  predicate ColonFree(m: Main) {
    m.Qualified? ==> !ColonTail(m.fqn.address) && !ColonTail(m.fqn.moduleName)
  }

  /** Trimmed segments, a short address, no stray separator and no spelled-out wildcard. */
  predicate CleanMain(m: Main) {
    match m
    case AnyMain => true
    case Simple(word) => Trimmed(word) && !HasSep(word) && word != "any" && word != "*" && word != ""
    case Qualified(f) => CleanName(f)
  }

  /** A trimmed segment other than "*" is shown as a text that is read as it. */
  lemma SegmentRereads(x: string)
    requires x != "*" && Trimmed(x)
    ensures Show(x) != "" && Trimmed(Show(x)) && TrimSpace(Show(x)) == Show(x) && Unstar(Show(x)) == x
  {
    TrimFixes(Show(x));
  }

  lemma ShownNoSep(x: string)
    ensures !HasSep(x) && !ColonTail(x) <==> NoSep(Show(x)) && !ColonTail(Show(x))
  {
    HasSepIff(x);
  }

  /** A clean, colon-free name is read back as it was. */
  lemma CleanNameRereads(f: FullyName)
    requires CleanName(f) && ColonFree(Qualified(f))
    ensures ParseMain(TrimSpace(MainText(Qualified(f)))) == Qualified(f)
  {
    var a, m, n := Show(f.address), Show(f.moduleName), Show(f.name);
    SegmentRereads(f.address);
    SegmentRereads(f.moduleName);
    SegmentRereads(f.name);
    ShownNoSep(f.address);
    ShownNoSep(f.moduleName);
    JoinTrimmed(m, n);
    JoinTrimmed(a, Sep(m, n));
    NameReads(a, m, n);
    assert ToShortAddress(a) == a;
  }

  lemma NameReads(a: string, m: string, n: string)
    requires NoSep(a) && !ColonTail(a) && NoSep(m) && !ColonTail(m)
    ensures ParseMain(Sep(a, Sep(m, n)))
         == Qualified(FullyName(Unstar(ToShortAddress(TrimSpace(a))), Unstar(TrimSpace(m)), Unstar(TrimSpace(n))))
  {
    CutExact(a, Sep(m, n));
    CutExact(m, n);
  }

  /** What a segment read as `x` prints as. */
  lemma ShownSegment(x: string)
    requires Trimmed(x)
    ensures var y := Show(Unstar(x)); y != "" && Trimmed(y) && (y == "*" || y == x)
    ensures Unstar(x) != "*" && Trimmed(Unstar(x))
  {
  }

  /** The address read from `s`. */
  function AddressOf(s: string): string { Unstar(ToShortAddress(TrimSpace(Cut(s).0))) }

  lemma AddressIsClean(s: string)
    ensures CleanAddress(AddressOf(s)) && Show(AddressOf(s)) != "" && Trimmed(Show(AddressOf(s)))
  {
    var cut := Cut(s).0;
    CutHasNoSep(s);
    TrimHasNoSep(cut);
    TrimIsTrimmed(cut);
    ShortAddressClean(TrimSpace(cut));
    ShortAddressTwice(TrimSpace(cut));
    ShownSegment(ToShortAddress(TrimSpace(cut)));
    HasSepIff(ToShortAddress(TrimSpace(cut)));
  }

  /** A name read back as it was has an address that the first separator ends. */
  lemma RereadAddress(address: string, rest: string, s: string)
    requires s == TrimSpace(Sep(Show(address), rest)) && address == AddressOf(s)
    ensures CleanAddress(address) && !ColonTail(address)
    ensures Cut(s) == (Show(address), TrimRight(rest))
  {
    var a := Show(address);
    AddressIsClean(s);
    TrimAfterHead(a, rest);
    RereadCut(a, TrimRight(rest), s);
    ShownNoSep(address);
  }

  lemma RereadCut(a: string, rest: string, s: string)
    requires s == Sep(a, rest) && a == Show(AddressOf(s))
    ensures NoSep(a) && !ColonTail(a) && Cut(s) == (a, rest)
  {
    CutExact(a, rest);
    if !NoSep(a) || ColonTail(a) {
      ShortCut(a, Cut(s).0);
    }
  }

  /** No prefix of an address that stops at a colon is read as that address. */
  lemma ShortCut(a: string, cut: string)
    requires |cut| < |a| && cut == a[..|cut|] && a[|cut|] == ':'
    ensures a != Show(Unstar(ToShortAddress(TrimSpace(cut))))
  {
    TrimIsTrimmed(cut);
    ShortAddressLength(TrimSpace(cut));
  }

  /** ... and a module and a name that the second one parts. */
  lemma RereadTail(f: FullyName, ex: string)
    requires ex == TrimRight(Sep(Show(f.moduleName), Show(f.name)))
    requires Unstar(TrimSpace(Cut(ex).0)) == f.moduleName && Unstar(TrimSpace(Cut(ex).1)) == f.name
    ensures CleanModule(f.moduleName) && !ColonTail(f.moduleName)
    ensures f.name != "*" && Trimmed(f.name)
  {
    TrimRightAfterSep(Show(f.moduleName), Show(f.name));
    RereadModule(f.moduleName, TrimRight(Show(f.name)), ex);
    TrimIsTrimmed(Cut(ex).1);
    ShownSegment(TrimSpace(Cut(ex).1));
  }

  lemma RereadModule(moduleName: string, rest: string, ex: string)
    requires ex == Sep(Show(moduleName), rest) && Unstar(TrimSpace(Cut(ex).0)) == moduleName
    ensures CleanModule(moduleName) && !ColonTail(moduleName)
  {
    var cut := Cut(ex).0;
    TrimIsTrimmed(cut);
    ShownSegment(TrimSpace(cut));
    CutExact(Show(moduleName), rest);
    ShownNoSep(moduleName);
    assert Show(moduleName) == "*" ==> ':' !in Show(moduleName);
  }

  /** A main part is read back as it was exactly when it is clean and colon-free. */
  lemma MainRereadsIff(m: Main)
    ensures ParseMain(TrimSpace(MainText(m))) == m <==> CleanMain(m) && ColonFree(m)
  {
    match m
    case AnyMain =>
      TrimFixes("*");
    case Simple(word) =>
      TrimIsTrimmed(word);
      if Trimmed(word) { TrimFixes(word); }
    case Qualified(f) =>
      if CleanName(f) && ColonFree(m) {
        CleanNameRereads(f);
      }
      if ParseMain(TrimSpace(MainText(m))) == m {
        RereadIsCleanName(f);
      }
  }

  lemma RereadIsCleanName(f: FullyName)
    requires ParseMain(TrimSpace(MainText(Qualified(f)))) == Qualified(f)
    ensures CleanName(f) && ColonFree(Qualified(f))
  {
    var rest := Sep(Show(f.moduleName), Show(f.name));
    RereadAddress(f.address, rest, TrimSpace(MainText(Qualified(f))));
    RereadTail(f, TrimRight(rest));
  }

  // ---------------------------------------------------------------------- whole types

  predicate Clean(t: Type) { CleanMain(t.main) && forall a | a in t.args :: Clean(a) }

  predicate ColonFreeType(t: Type) { ColonFree(t.main) && forall a | a in t.args :: ColonFreeType(a) }

  lemma {:induction false} CleanRereads(t: Type)
    requires Clean(t) && ColonFreeType(t)
    ensures Reread(t) == t
  {
    MainRereadsIff(t.main);
    forall i | 0 <= i < |t.args| ensures Reread(t).args[i] == t.args[i] {
      CleanRereads(t.args[i]);
    }
    SameParts(Reread(t), t);
  }

  lemma SameParts(t: Type, u: Type)
    requires t.main == u.main && |t.args| == |u.args| && forall i | 0 <= i < |t.args| :: t.args[i] == u.args[i]
    ensures t == u
  {
    assert t.args == u.args;
  }

  lemma {:induction false} RereadIsClean(t: Type)
    requires Reread(t) == t
    ensures Clean(t) && ColonFreeType(t)
  {
    MainRereadsIff(t.main);
    forall a | a in t.args ensures Clean(a) && ColonFreeType(a) {
      var i :| 0 <= i < |t.args| && t.args[i] == a;
      assert Reread(t).args[i] == Reread(a);
      RereadIsClean(a);
    }
  }

  /** Reading the printed form gives the type back exactly when all its parts are clean and
      none ends in a colon before a separator. */
  lemma RoundTripIff(t: Type)
    requires Printable(t)
    ensures BuildType(Text(t)) == Ok(t) <==> Clean(t) && ColonFreeType(t)
  {
    BuildRereads(t);
    if Clean(t) && ColonFreeType(t) { CleanRereads(t); }
    if Reread(t) == t { RereadIsClean(t); }
  }

  // ------------------------------------------------------------- what the parser yields

  lemma ParsedMainIsClean(s: string)
    requires Trimmed(s)
    ensures CleanMain(ParseMain(s))
  {
    if HasSep(s) {
      AddressIsClean(s);
      ParsedTailIsClean(Cut(s).1);
    }
  }

  lemma ParsedTailIsClean(ex: string)
    ensures CleanModule(Unstar(TrimSpace(Cut(ex).0)))
    ensures Unstar(TrimSpace(Cut(ex).1)) != "*" && Trimmed(Unstar(TrimSpace(Cut(ex).1)))
  {
    var m, n := TrimSpace(Cut(ex).0), TrimSpace(Cut(ex).1);
    CutHasNoSep(ex);
    TrimHasNoSep(Cut(ex).0);
    HasSepIff(m);
    TrimIsTrimmed(Cut(ex).0);
    TrimIsTrimmed(Cut(ex).1);
    ShownSegment(m);
    ShownSegment(n);
  }

  /** Reading brings in no character but those of "0x", "*" and "::". */
  lemma ParsedMainChars(s: string, c: char)
    requires c !in s && c != '0' && c != 'x' && c != '*' && c != ':'
    ensures c !in MainText(ParseMain(s))
  {
    if HasSep(s) {
      CutChars(s, c);
      var (address, ex) := Cut(s);
      CutChars(ex, c);
      TrimChars(address, c);
      ShortAddressChars(TrimSpace(address), c);
      TrimChars(Cut(ex).0, c);
      TrimChars(Cut(ex).1, c);
      NameChars(ParseMain(s).fqn, c);
    }
  }

  lemma NameChars(f: FullyName, c: char)
    requires c !in f.address && c !in f.moduleName && c !in f.name && c != '*' && c != ':'
    ensures c !in MainText(Qualified(f))
  {
    assert c !in Show(f.address) && c !in Show(f.moduleName) && c !in Show(f.name);
    assert c !in Sep(Show(f.moduleName), Show(f.name));
  }

  /** Before its first bracket the text is plain. */
  predicate PlainHead(s: string) { PlainIn(s, 0, OpenFrom(s, 0)) }

  /** So is every text from the `i`-th on. */
  predicate PlainHeads(parts: seq<string>, i: nat)
    requires i <= |parts|
    decreases |parts| - i
  {
    i == |parts| || (PlainHead(parts[i]) && PlainHeads(parts, i + 1))
  }

  lemma {:induction false} PlainHeadsPrepended(part: string, rest: seq<string>, i: nat)
    requires i <= |rest| && PlainHeads(rest, i)
    ensures PlainHeads([part] + rest, i + 1)
    decreases |rest| - i
  {
    if i < |rest| { PlainHeadsPrepended(part, rest, i + 1); }
  }

  lemma PieceHead(txt: string, start: nat, p: nat, i: nat)
    requires start <= p <= i <= |txt| && PlainIn(txt, start, p) && (p < i ==> txt[p] == '<')
    ensures PlainHead(txt[start..i])
  {
    var s := txt[start..i];
    assert forall k | 0 <= k < i - start :: s[k] == txt[start + k];
    var q := OpenFrom(s, 0);
    assert q <= p - start;
    forall k | 0 <= k < q ensures PlainChar(s[k]) {
      assert s[k] == txt[start + k];
    }
  }

  /** Every piece the splitter yields is plain before its first bracket, which stands at `p` in
      the current piece if it was read. */
  lemma {:induction false} SplitHeads(txt: string, i: nat, level: nat, start: nat, p: nat)
    requires start <= p <= i <= |txt| && PlainIn(txt, start, p) && (p < i ==> txt[p] == '<')
    requires (level > 0 ==> p < i) && Split(txt, i, level, start).Ok?
    ensures PlainHeads(Split(txt, i, level, start).value, 0)
    decreases |txt| - i
  {
    PieceHead(txt, start, p, i);
    if i == |txt| {
      assert txt[start..] == txt[start..i];
    } else {
      var c := txt[i];
      if c == ',' && level == 0 {
        SplitHeads(txt, i + 1, 0, i + 1, i + 1);
        PlainHeadsPrepended(txt[start..i], Split(txt, i + 1, 0, i + 1).value, 0);
      } else {
        SplitHeads(txt, i + 1, if c == '<' then level + 1 else if c == '>' then level - 1 else level, start,
                   if p < i || c == '<' then p else i + 1);
      }
    }
  }

  /** An argument read from a text shorter than `n`, plain before its first bracket. */
  ghost predicate ReadsAs(x: string, a: Type, n: nat) { |x| < n && PlainHead(x) && Reader()(x) == Ok(a) }

  ghost function Reader(): string -> Parsed<Type> { s => BuildType(s) }

  ghost predicate ReadEach(parts: seq<string>, args: seq<Type>, n: nat) {
    |parts| == |args| && forall i | 0 <= i < |args| :: ReadsAs(parts[i], args[i], n)
  }

  /** A type read from a text is printable and clean, and fit to be an argument when the text
      is plain before its first bracket. */
  lemma {:induction false} ParsedIsClean(s: string, t: Type)
    requires BuildType(s) == Ok(t)
    ensures Printable(t) && Clean(t) && (PlainHead(s) ==> Nestable(t))
    decreases |s|
  {
    ParsedHead(s, t);
    var parts := ParsedParts(s, t);
    forall a | a in t.args ensures Nestable(a) && Clean(a) {
      var i :| 0 <= i < |t.args| && t.args[i] == a;
      assert ReadsAs(parts[i], a, |s|);
      ParsedIsClean(parts[i], a);
    }
    PartsMakeClean(t);
  }

  lemma PartsMakeClean(t: Type)
    requires CleanMain(t.main) && '<' !in MainText(t.main) && AllNestable(t.args) && AllClean(t.args)
    ensures Printable(t) && Clean(t) && (PlainText(MainText(t.main)) ==> Nestable(t))
  {
  }

  /** The main part of a type that is read is clean. */
  lemma ParsedHead(s: string, t: Type)
    requires BuildType(s) == Ok(t)
    ensures CleanMain(t.main) && '<' !in MainText(t.main) && (PlainHead(s) ==> PlainText(MainText(t.main)))
  {
    var head := s[..OpenFrom(s, 0)];
    ParsedHeadIsClean(head);
    if PlainHead(s) { ParsedHeadIsPlain(head); }
  }

  /** Its arguments are read from shorter texts that are plain before their brackets. */
  lemma ParsedParts(s: string, t: Type) returns (parts: seq<string>)
    requires BuildType(s) == Ok(t)
    ensures ReadEach(parts, t.args, |s|)
  {
    if OpenFrom(s, 0) == |s| {
      NoArgsRead(s, t);
      parts := [];
    } else {
      var txt := s[OpenFrom(s, 0)..];
      ArgsRead(s, t, txt);
      parts := PiecesRead(txt, t.args);
      ReadLonger(parts, t.args, |txt|, |s|);
    }
  }

  lemma ReadLonger(parts: seq<string>, args: seq<Type>, n: nat, m: nat)
    requires ReadEach(parts, args, n) && n <= m
    ensures ReadEach(parts, args, m)
  {
    forall i | 0 <= i < |args| ensures ReadsAs(parts[i], args[i], m) {
      assert ReadsAs(parts[i], args[i], n);
    }
  }

  lemma NoArgsRead(s: string, t: Type)
    requires BuildType(s) == Ok(t) && OpenFrom(s, 0) == |s|
    ensures t.args == []
  {
  }

  lemma ArgsRead(s: string, t: Type, txt: string)
    requires BuildType(s) == Ok(t) && OpenFrom(s, 0) < |s| && txt == s[OpenFrom(s, 0)..]
    ensures ParseArgs(txt) == Ok(t.args)
  {
  }

  /** The plain texts are built into the types. */
  ghost predicate Builds(parts: seq<string>, bound: nat, types: seq<Type>) {
    NoLonger(parts, bound) && PlainHeads(parts, 0) && BuildAll(parts, 0, bound) == Ok(types)
  }

  lemma PiecesRead(txt: string, args: seq<Type>) returns (parts: seq<string>)
    requires ParseArgs(txt) == Ok(args)
    ensures ArgTexts(txt) == Ok(parts) && ReadEach(parts, args, |txt|)
  {
    parts := ArgTexts(txt).value;
    if parts == [] {
      NoPieces(txt, args, parts);
    } else {
      var bound := |txt| - 2;
      PiecesBuild(txt, args, parts, bound);
      BuiltEach(parts, args, bound);
      ReadLonger(parts, args, bound + 1, |txt|);
    }
  }

  lemma NoPieces(txt: string, args: seq<Type>, parts: seq<string>)
    requires ParseArgs(txt) == Ok(args) && ArgTexts(txt) == Ok(parts) && parts == []
    ensures args == []
  {
  }

  lemma PiecesBuild(txt: string, args: seq<Type>, parts: seq<string>, bound: nat)
    requires ParseArgs(txt) == Ok(args) && ArgTexts(txt) == Ok(parts) && parts != [] && bound == |txt| - 2
    ensures Builds(parts, bound, args)
  {
    ArgTextsHeads(txt);
    ParseArgsBuilds(txt, parts);
  }

  lemma BuiltEach(parts: seq<string>, args: seq<Type>, bound: nat)
    requires Builds(parts, bound, args)
    ensures ReadEach(parts, args, bound + 1)
  {
    BuildAllIsAllOf(parts, 0, bound, Ok(args));
    PiecesFit(parts, args, bound);
  }

  lemma PiecesFit(parts: seq<string>, args: seq<Type>, bound: nat)
    requires NoLonger(parts, bound) && PlainHeads(parts, 0) && AllOf(Reader(), parts, 0) == Ok(args)
    ensures ReadEach(parts, args, bound + 1)
  {
    AllOfAt(Reader(), parts, 0, args, 0);
    forall i | 0 <= i < |args| ensures ReadsAs(parts[i], args[i], bound + 1) {
      AllOfAt(Reader(), parts, 0, args, i);
      PlainHeadAt(parts, 0, i);
    }
  }

  lemma {:induction false} PlainHeadAt(parts: seq<string>, k: nat, i: nat)
    requires k <= i < |parts| && PlainHeads(parts, k)
    ensures PlainHead(parts[i])
    decreases i - k
  {
    if k < i { PlainHeadAt(parts, k + 1, i); }
  }

  // A list of texts read one by one, whatever reads them.

  ghost function AllOf(read: string -> Parsed<Type>, parts: seq<string>, k: nat): Parsed<seq<Type>>
    requires k <= |parts|
    decreases |parts| - k
  {
    if k == |parts| then Ok([])
    else
      match read(parts[k])
      case Err(e) => Err(e)
      case Ok(first) =>
        match AllOf(read, parts, k + 1)
        case Err(e) => Err(e)
        case Ok(rest) => Ok([first] + rest)
  }

  lemma {:induction false} BuildAllIsAllOf(parts: seq<string>, k: nat, bound: nat, r: Parsed<seq<Type>>)
    requires k <= |parts| && NoLonger(parts, bound) && r == BuildAll(parts, k, bound)
    ensures r == AllOf(Reader(), parts, k)
    decreases |parts| - k
  {
    if k < |parts| {
      var first, rest := BuildType(parts[k]), BuildAll(parts, k + 1, bound);
      BuildAllIsAllOf(parts, k + 1, bound, rest);
      assert Reader()(parts[k]) == first;
    }
  }

  lemma {:induction false} AllOfAt(read: string -> Parsed<Type>, parts: seq<string>, k: nat, types: seq<Type>, i: nat)
    requires k <= |parts| && AllOf(read, parts, k) == Ok(types)
    ensures |parts| == k + |types|
    ensures i < |types| ==> read(parts[k + i]) == Ok(types[i])
    decreases |parts| - k
  {
    if k < |parts| { AllOfAt(read, parts, k + 1, types[1..], if i == 0 then 0 else i - 1); }
  }

  lemma ParsedHeadIsClean(head: string)
    requires '<' !in head
    ensures CleanMain(ParseMain(TrimSpace(head))) && '<' !in MainText(ParseMain(TrimSpace(head)))
  {
    TrimIsTrimmed(head);
    ParsedMainIsClean(TrimSpace(head));
    TrimChars(head, '<');
    ParsedMainChars(TrimSpace(head), '<');
  }

  lemma ParsedHeadIsPlain(head: string)
    requires PlainText(head)
    ensures PlainText(MainText(ParseMain(TrimSpace(head))))
  {
    TrimChars(head, '<');
    TrimChars(head, '>');
    TrimChars(head, ',');
    ParsedMainChars(TrimSpace(head), '<');
    ParsedMainChars(TrimSpace(head), '>');
    ParsedMainChars(TrimSpace(head), ',');
  }

  predicate AllClean(ts: seq<Type>) { forall a | a in ts :: Clean(a) }

  lemma ArgTextsHeads(txt: string)
    requires ArgTexts(txt).Ok?
    ensures PlainHeads(ArgTexts(txt).value, 0)
  {
    var s := TrimSpace(txt);
    if |s| > 0 {
      SplitHeads(s[1..|s| - 1], 0, 0, 0, 0);
    }
  }

  /** Printing a parsed type and reading it again gives that type exactly when no address or
      module in it ends in a colon. */
  lemma ParsedRoundTripIff(s: string)
    requires BuildType(s).Ok?
    ensures var t := BuildType(s).value; BuildType(Text(t)) == Ok(t) <==> ColonFreeType(t)
  {
    ParsedIsClean(s, BuildType(s).value);
    RoundTripIff(BuildType(s).value);
  }
}
