/** Normalising the text of a Move type (chain/move/utils.go): reading it and printing what was
    read. */
module MoveNormal {
  import opened MoveStrings
  import opened MoveTypes
  import opened MoveRoundTrip
  import opened MoveCanonical
  import opened Options

  /** A text that does not parse is kept as it is. */
  function TrimTypeString(s: string): string { if BuildType(s).Ok? then Text(BuildType(s).value) else s }

  // ------------------------------------------------------------------ one main part

  /** A colon that ends the address or the module is cut off with what follows. The text stays the
      same if what is left of the segment is not empty, ends in no space and is no bare "0x", and if
      the cut is not followed by another colon. */
  predicate SettledName(f: FullyName) {
    var a, m := f.address, Show(f.moduleName);
    && (ColonTail(a) ==> |a| > 1 && !IsSpace(a[|a| - 2]) && a != "0x:" && m[0] != ':')
    && (ColonTail(m) ==> |m| > 1 && !IsSpace(m[|m| - 2]))
  }

  predicate SettledMain(m: Main) { m.Qualified? ==> SettledName(m.fqn) }

  predicate SegmentStays(c: string) { c != "" && Trimmed(c) }

  predicate AddressStays(c: string) { SegmentStays(c) && ToShortAddress(c) == c }

  lemma SegmentStaysIff(c: string)
    ensures Show(Unstar(TrimSpace(c))) == c <==> SegmentStays(c)
    ensures |Show(Unstar(TrimSpace(c)))| <= |c| || Show(Unstar(TrimSpace(c))) == "*"
  {
    TrimIsTrimmed(c);
    ShownSegment(TrimSpace(c));
    if Trimmed(c) { TrimFixes(c); }
  }

  lemma AddressStaysIff(c: string)
    requires NoSep(c)
    ensures var x := Show(Unstar(ToShortAddress(TrimSpace(c))));
            (x == c <==> AddressStays(c)) && (|x| <= |c| || x == "*" || x == "0x0")
  {
    var y := ToShortAddress(TrimSpace(c));
    TrimIsTrimmed(c);
    TrimHasNoSep(c);
    ShortAddressClean(TrimSpace(c));
    ShortAddressLength(TrimSpace(c));
    ShownSegment(y);
    if Trimmed(c) { TrimFixes(c); }
  }

  /** A head is only replaced by one that cannot have taken over its separator's colon. */
  lemma HeadDecides(x: string, r: string, c: string, q: string)
    requires NoSep(x) && NoSep(c) && !ColonTail(c) && (|x| <= |c| || x == "*" || x == "0x0")
    ensures Sep(x, r) == Sep(c, q) <==> x == c && r == q
  {
    SepAlikeIff(x, r, c, q);
    assert ColonTail(x + ":") && ColonTail(c + ":");
  }

  /** A text with two separators is printed as it was read exactly when each of its three segments
      is. */
  lemma ReprintIff(s: string)
    requires HasSep(s) && HasSep(Cut(s).1)
    ensures MainText(ParseMain(s)) == s <==>
              AddressStays(Cut(s).0) && SegmentStays(Cut(Cut(s).1).0) && SegmentStays(Cut(Cut(s).1).1)
  {
    var (c0, ex) := Cut(s);
    var (c1, c2) := Cut(ex);
    CutJoins(s);
    CutJoins(ex);
    var f := ParseMain(s).fqn;
    var x0, x1, x2 := Show(f.address), Show(f.moduleName), Show(f.name);
    AddressStaysIff(c0);
    SegmentStaysIff(c1);
    SegmentStaysIff(c2);
    AddressIsClean(s);
    ParsedTailIsClean(ex);
    ShownNoSepOf(f.address);
    ShownNoSepOf(f.moduleName);
    HeadDecides(x0, Sep(x1, x2), c0, ex);
    HeadDecides(x1, x2, c1, c2);
  }

  lemma ShownNoSepOf(x: string)
    requires !HasSep(x)
    ensures NoSep(Show(x))
  {
    HasSepIff(x);
  }

  /** The segments that the printed form of a clean name is cut into. */
  lemma NameCuts(f: FullyName, s: string)
    requires CleanName(f) && s == MainText(Qualified(f))
    ensures HasSep(s) && HasSep(Cut(s).1)
    ensures Cut(s).0 == Stripped(Show(f.address))
    ensures var m := Show(f.moduleName);
            var mid := if ColonTail(Show(f.address)) then ":" + m else m;
            if mid[0] == ':' && |mid| > 1 && mid[1] == ':' then Cut(Cut(s).1).0 == ""
            else Cut(Cut(s).1) == (Stripped(mid), if ColonTail(mid) then ":" + Show(f.name) else Show(f.name))
  {
    var a, m, n := Show(f.address), Show(f.moduleName), Show(f.name);
    ShownNoSepOf(f.address);
    ShownNoSepOf(f.moduleName);
    CutHead(a, Sep(m, n));
    if ColonTail(a) {
      assert ":" + Sep(m, n) == Sep(":" + m, n);
      if m[0] == ':' {
        assert IsSep(Cut(s).1, 0);
      } else {
        ColonAheadHasNoSep(m);
        CutHead(":" + m, n);
      }
    } else {
      assert |m| > 1 && m[0] == ':' && m[1] == ':' ==> IsSep(m, 0);
      CutHead(m, n);
    }
  }

  function Stripped(s: string): string { if ColonTail(s) then s[..|s| - 1] else s }

  lemma StrippedStaysIff(s: string)
    requires s != "" && Trimmed(s)
    ensures SegmentStays(Stripped(s)) <==> (ColonTail(s) ==> |s| > 1 && !IsSpace(s[|s| - 2]))
  {
  }

  /** Of a short address that ends in a colon what is left is short too, unless it is "0x". */
  lemma StrippedIsShort(a: string)
    requires a != "" && ToShortAddress(a) == a
    ensures ToShortAddress(Stripped(a)) == Stripped(a) <==> a != "0x:"
  {
    var b := Stripped(a);
    if HasHexPrefix(a) {
      ShortStart(a);
      if |a| > 3 {
        assert b != a ==> HasHexPrefix(b) && b[2] == a[2];
        assert b != a ==> ZeroEdge(b, 2) == 2 && "0x" + b[2..] == b;
      } else if |a| == 3 {
        assert b != a ==> b == "0x" && ZeroEdge(b, 2) == 2;
      }
    }
  }

  /** A short address with the prefix is "0x0" or has a digit other than 0 behind the prefix. */
  lemma ShortStart(a: string)
    requires HasHexPrefix(a) && ToShortAddress(a) == a
    ensures |a| >= 3 && (a == "0x0" || a[2] != '0')
  {
    var k := ZeroEdge(a, 2);
    assert k < |a| ==> ("0x" + a[k..])[2] == a[k];
  }

  lemma NameSettlesIff(f: FullyName)
    requires CleanName(f)
    ensures MainText(ParseMain(TrimSpace(MainText(Qualified(f))))) == MainText(Qualified(f)) <==> SettledName(f)
  {
    var a, m, n := Show(f.address), Show(f.moduleName), Show(f.name);
    var s := MainText(Qualified(f));
    SegmentRereads(f.address);
    SegmentRereads(f.moduleName);
    SegmentRereads(f.name);
    JoinTrimmed(m, n);
    JoinTrimmed(a, Sep(m, n));
    NameCuts(f, s);
    ReprintIff(s);
    CutsStayIff(f, Cut(s).0, Cut(Cut(s).1).0, Cut(Cut(s).1).1);
  }

  /** When the segments that a clean name is cut into all stay. */
  lemma CutsStayIff(f: FullyName, c0: string, c1: string, c2: string)
    requires CleanName(f) && c0 == Stripped(Show(f.address))
    requires var m := Show(f.moduleName);
             var mid := if ColonTail(Show(f.address)) then ":" + m else m;
             if mid[0] == ':' && |mid| > 1 && mid[1] == ':' then c1 == ""
             else c1 == Stripped(mid) && c2 == if ColonTail(mid) then ":" + Show(f.name) else Show(f.name)
    ensures AddressStays(c0) && SegmentStays(c1) && SegmentStays(c2) <==> SettledName(f)
  {
    var a, m, n := Show(f.address), Show(f.moduleName), Show(f.name);
    SegmentRereads(f.address);
    SegmentRereads(f.moduleName);
    SegmentRereads(f.name);
    ShownNoSepOf(f.moduleName);
    MiddleStaysIff(a, m, n);
    HeadStaysIff(f.address);
  }

  lemma HeadStaysIff(address: string)
    requires CleanAddress(address)
    ensures AddressStays(Stripped(Show(address))) <==>
              (ColonTail(address) ==> |address| > 1 && !IsSpace(address[|address| - 2]) && address != "0x:")
    ensures ColonTail(Show(address)) == ColonTail(address)
  {
    var a := Show(address);
    SegmentRereads(address);
    assert ToShortAddress(a) == a;
    StrippedStaysIff(a);
    StrippedIsShort(a);
  }

  /** When the middle segment and the last one stay. */
  lemma MiddleStaysIff(a: string, m: string, n: string)
    requires m != "" && Trimmed(m) && n != "" && Trimmed(n) && NoSep(m)
    ensures var mid := if ColonTail(a) then ":" + m else m;
            && Trimmed(mid) && ColonTail(mid) == ColonTail(m)
            && SegmentStays(if ColonTail(mid) then ":" + n else n)
            && (mid[0] == ':' && |mid| > 1 && mid[1] == ':' <==> ColonTail(a) && m[0] == ':')
            && (!(ColonTail(a) && m[0] == ':') ==>
                  (SegmentStays(Stripped(mid)) <==> (ColonTail(m) ==> |m| > 1 && !IsSpace(m[|m| - 2]))))
  {
    var mid := if ColonTail(a) then ":" + m else m;
    assert mid[|mid| - 1] == m[|m| - 1];
    assert |m| > 1 && m[0] == ':' ==> !IsSep(m, 0);
    StrippedStaysIff(mid);
    assert |m| > 1 ==> mid[|mid| - 2] == m[|m| - 2];
    assert (":" + n)[|n|] == n[|n| - 1];
  }

  lemma MainSettlesIff(m: Main)
    requires CleanMain(m)
    ensures MainText(ParseMain(TrimSpace(MainText(m)))) == MainText(m) <==> SettledMain(m)
  {
    if m.Qualified? {
      NameSettlesIff(m.fqn);
    } else {
      MainRereadsIff(m);
    }
  }

  // -------------------------------------------------------------------- whole types

  predicate SettledType(t: Type) { SettledMain(t.main) && forall a | a in t.args :: SettledType(a) }

  /** Printable types of the same shape print alike exactly when they do part by part. */
  predicate AlikeParts(t: Type, u: Type) {
    && MainText(t.main) == MainText(u.main) && |t.args| == |u.args|
    && forall i | 0 <= i < |t.args| :: AlikeParts(t.args[i], u.args[i])
  }

  lemma MainsAlike(t: Type, u: Type)
    requires '<' !in MainText(t.main) && '<' !in MainText(u.main) && Text(t) == Text(u)
    ensures MainText(t.main) == MainText(u.main) && (t.args == [] <==> u.args == [])
    ensures t.args != [] ==> Joined(t, 0) == Joined(u, 0)
  {
    var m, n := MainText(t.main), MainText(u.main);
    var x := if t.args == [] then "" else "<" + Joined(t, 0) + ">";
    var y := if u.args == [] then "" else "<" + Joined(u, 0) + ">";
    OpenAfter(Text(t), m, x);
    OpenAfter(Text(u), n, y);
    assert m == Text(t)[..|m|] == n;
    assert x == Text(t)[|m|..] == y;
    if t.args != [] {
      assert Joined(t, 0) == x[1..|x| - 1] == Joined(u, 0);
    }
  }

  lemma ArgsAlike(t: Type, u: Type)
    requires t.args != [] && u.args != [] && AllNestable(t.args) && AllNestable(u.args) && Joined(t, 0) == Joined(u, 0)
    ensures Texts(t) == Texts(u)
  {
    SplitJoined(t);
    SplitJoined(u);
  }

  lemma ArgPrintable(t: Type, i: nat)
    requires AllNestable(t.args) && i < |t.args|
    ensures Printable(t.args[i])
  {
    assert Nestable(t.args[i]) by { assert t.args[i] in t.args; }
  }

  lemma {:induction false} AlikeTexts(t: Type, u: Type)
    requires Printable(t) && Printable(u) && Text(t) == Text(u)
    ensures AlikeParts(t, u)
    decreases t
  {
    MainsAlike(t, u);
    if t.args != [] {
      ArgsAlike(t, u);
      assert |Texts(t)| == |Texts(u)|;
      forall i | 0 <= i < |t.args| ensures AlikeParts(t.args[i], u.args[i]) {
        TextsAt(t, i);
        TextsAt(u, i);
        ArgPrintable(t, i);
        ArgPrintable(u, i);
        AlikeTexts(t.args[i], u.args[i]);
      }
    }
  }

  lemma {:induction false} AlikePrint(t: Type, u: Type)
    requires AlikeParts(t, u)
    ensures Text(t) == Text(u)
    decreases t, 1, 0
  {
    if t.args != [] { AlikeJoin(t, u, 0); }
  }

  lemma {:induction false} AlikeJoin(t: Type, u: Type, i: nat)
    requires AlikeParts(t, u) && i < |t.args|
    ensures Joined(t, i) == Joined(u, i)
    decreases t, 0, |t.args| - i
  {
    AlikePrint(t.args[i], u.args[i]);
    if i + 1 < |t.args| { AlikeJoin(t, u, i + 1); }
  }

  lemma {:induction false} RereadAlikeIff(t: Type)
    requires Clean(t)
    ensures AlikeParts(Reread(t), t) <==> SettledType(t)
  {
    MainSettlesIff(t.main);
    forall i | 0 <= i < |t.args| ensures AlikeParts(Reread(t).args[i], t.args[i]) <==> SettledType(t.args[i]) {
      RereadAlikeIff(t.args[i]);
    }
    assert (forall a | a in t.args :: SettledType(a)) <==> forall i | 0 <= i < |t.args| :: SettledType(t.args[i]);
  }

  /** The text of a parsed type is its own normal form exactly when the type is settled. */
  lemma ReprintedIff(s: string, t: Type)
    requires BuildType(s) == Ok(t)
    ensures BuildType(Text(t)) == Ok(Reread(t)) && (Text(Reread(t)) == Text(t) <==> SettledType(t))
  {
    ParsedIsClean(s, t);
    BuildRereads(t);
    ParsedIsClean(Text(t), Reread(t));
    RereadAlikeIff(t);
    if Text(Reread(t)) == Text(t) { AlikeTexts(Reread(t), t); }
    if AlikeParts(Reread(t), t) { AlikePrint(Reread(t), t); }
  }

  /** Normalising twice is normalising once exactly for texts that do not parse and for settled
      types; and it keeps the type that is read exactly when no address or module in it ends in a
      colon. */
  lemma TrimTypeStringTwiceIff(s: string)
    ensures TrimTypeString(TrimTypeString(s)) == TrimTypeString(s) <==>
              (BuildType(s).Ok? ==> SettledType(BuildType(s).value))
    ensures BuildType(TrimTypeString(s)) == BuildType(s) <==>
              (BuildType(s).Ok? ==> ColonFreeType(BuildType(s).value))
  {
    if BuildType(s).Ok? {
      ReprintedIff(s, BuildType(s).value);
      ParsedRoundTripIff(s);
    }
  }
}
