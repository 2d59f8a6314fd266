/** The string operations behind Move type parsing (chain/move/types.go, chain/move/utils.go):
    trimming, cutting at the first "::", and short addresses. */
module MoveStrings {

  /** The Unicode property White_Space. */
  predicate IsSpace(c: char) {
    if c < '\U{0080}' then '\t' <= c <= '\r' || c == ' '
    else
      || c == '\U{0085}' || c == '\U{00A0}' || c == '\U{1680}' || '\U{2000}' <= c <= '\U{200A}'
      || c == '\U{2028}' || c == '\U{2029}' || c == '\U{202F}' || c == '\U{205F}' || c == '\U{3000}'
  }

  /** The same by code points. */
  lemma SpaceIff(c: char)
    ensures var n := c as int;
            IsSpace(c) <==>
              || 9 <= n <= 13 || n == 32 || n == 0x85 || n == 0xA0 || n == 0x1680 || 0x2000 <= n <= 0x200A
              || n == 0x2028 || n == 0x2029 || n == 0x202F || n == 0x205F || n == 0x3000
  {
  }

  ghost predicate SpacesIn(s: string, i: nat, j: nat)
    requires j <= |s|
  {
    forall k | i <= k < j :: IsSpace(s[k])
  }

  /** The first index from `i` on that holds no space. */
  function LeftEdge(s: string, i: nat): (r: nat)
    requires i <= |s|
    ensures i <= r <= |s| && SpacesIn(s, i, r) && (r < |s| ==> !IsSpace(s[r]))
    decreases |s| - i
  {
    if i < |s| && IsSpace(s[i]) then LeftEdge(s, i + 1) else i
  }

  /** The end of `s[lo..j]` without its trailing spaces. */
  function RightEdge(s: string, lo: nat, j: nat): (r: nat)
    requires lo <= j <= |s|
    ensures lo <= r <= j && SpacesIn(s, r, j) && (r > lo ==> !IsSpace(s[r - 1]))
    decreases j
  {
    if lo < j && IsSpace(s[j - 1]) then RightEdge(s, lo, j - 1) else j
  }

  function TrimSpace(s: string): string {
    var a := LeftEdge(s, 0);
    s[a..RightEdge(s, a, |s|)]
  }

  predicate Trimmed(s: string) {
    s == [] || (!IsSpace(s[0]) && !IsSpace(s[|s| - 1]))
  }

  /** What is left after trimming is fixed by where its ends stand. */
  lemma TrimAt(s: string, a: nat, b: nat)
    requires a < b <= |s| && SpacesIn(s, 0, a) && SpacesIn(s, b, |s|) && !IsSpace(s[a]) && !IsSpace(s[b - 1])
    ensures TrimSpace(s) == s[a..b]
  {
    var l := LeftEdge(s, 0);
    assert l == a;
    assert RightEdge(s, a, |s|) == b;
  }

  lemma TrimFixes(s: string)
    requires Trimmed(s)
    ensures TrimSpace(s) == s
  {
    if s != [] {
      TrimAt(s, 0, |s|);
      assert s[0..|s|] == s;
    }
  }

  lemma TrimIsTrimmed(s: string)
    ensures Trimmed(TrimSpace(s)) && |TrimSpace(s)| <= |s|
  {
    var a := LeftEdge(s, 0);
    var b := RightEdge(s, a, |s|);
    if a < b {
      assert TrimSpace(s)[0] == s[a] && TrimSpace(s)[b - a - 1] == s[b - 1];
    }
  }

  lemma TrimChars(s: string, c: char)
    requires c !in s
    ensures c !in TrimSpace(s)
  {
  }

  // ------------------------------------------------------------------------- separators

  predicate IsSep(s: string, i: nat) {
    i + 1 < |s| && s[i] == ':' && s[i + 1] == ':'
  }

  ghost predicate NoSepIn(s: string, i: nat, j: nat) {
    forall k: nat | i <= k < j :: !IsSep(s, k)
  }

  ghost predicate NoSep(s: string) { NoSepIn(s, 0, |s|) }

  /** The index of the first "::" from `i` on, or the length of the text. */
  function SepFrom(s: string, i: nat): (r: nat)
    requires i <= |s|
    ensures i <= r <= |s| && NoSepIn(s, i, r) && (r < |s| ==> IsSep(s, r))
    decreases |s| - i
  {
    if i == |s| || IsSep(s, i) then i else SepFrom(s, i + 1)
  }

  predicate HasSep(s: string) { SepFrom(s, 0) < |s| }

  lemma HasSepIff(s: string)
    ensures HasSep(s) <==> !NoSep(s)
  {
  }

  /** The text around the first "::"; without one, the whole text and nothing. */
  function Cut(s: string): (string, string) {
    var p := SepFrom(s, 0);
    if p < |s| then (s[..p], s[p + 2..]) else (s, "")
  }

  lemma PartHasNoSep(s: string, i: nat, j: nat)
    requires i <= j <= |s| && NoSepIn(s, i, j)
    ensures NoSep(s[i..j])
  {
    forall k: nat | 0 <= k < j - i ensures !IsSep(s[i..j], k) {
      assert !IsSep(s, i + k);
    }
  }

  lemma CutHasNoSep(s: string)
    ensures NoSep(Cut(s).0)
  {
    var p := SepFrom(s, 0);
    PartHasNoSep(s, 0, p);
    assert s[0..p] == Cut(s).0;
  }

  lemma TrimHasNoSep(s: string)
    requires NoSep(s)
    ensures NoSep(TrimSpace(s))
  {
    var a := LeftEdge(s, 0);
    PartHasNoSep(s, a, RightEdge(s, a, |s|));
  }

  lemma CutChars(s: string, c: char)
    requires c !in s
    ensures c !in Cut(s).0 && c !in Cut(s).1
  {
  }

  predicate ColonTail(s: string) { s != [] && s[|s| - 1] == ':' }

  /** `a::rest`. */
  function Sep(a: string, rest: string): string { a + "::" + rest }

  lemma SepChars(a: string, rest: string)
    ensures |Sep(a, rest)| == |a| + 2 + |rest|
    ensures Sep(a, rest)[|a|] == ':' && Sep(a, rest)[|a| + 1] == ':'
    ensures forall i | 0 <= i < |a| :: Sep(a, rest)[i] == a[i]
    ensures forall i | 0 <= i < |rest| :: Sep(a, rest)[|a| + 2 + i] == rest[i]
    ensures Sep(a, rest)[..|a|] == a && Sep(a, rest)[|a| + 2..] == rest
  {
  }

  /** Where the first separator of `a::rest` stands. */
  lemma FirstSep(a: string, rest: string)
    ensures SepFrom(Sep(a, rest), 0) <= |a|
    ensures SepFrom(Sep(a, rest), 0) == |a| <==> NoSep(a) && !ColonTail(a)
  {
    var s := Sep(a, rest);
    SepChars(a, rest);
    assert IsSep(s, |a|);
    if ColonTail(a) {
      assert IsSep(s, |a| - 1);
    } else {
      forall i: nat | i < |a| ensures IsSep(s, i) <==> IsSep(a, i) {
      }
    }
    if !NoSep(a) {
      var i: nat :| i < |a| && IsSep(a, i);
      assert IsSep(s, i);
    }
  }

  /** Cutting `a::rest` gives `a` back when `a` holds no separator and does not end in a colon;
      otherwise it gives a shorter prefix of `a`, up to a colon. */
  lemma CutExact(a: string, rest: string)
    ensures HasSep(Sep(a, rest))
    ensures NoSep(a) && !ColonTail(a) ==> Cut(Sep(a, rest)) == (a, rest)
    ensures !NoSep(a) || ColonTail(a) ==>
              var n := |Cut(Sep(a, rest)).0|; n < |a| && Cut(Sep(a, rest)).0 == a[..n] && a[n] == ':'
  {
    FirstSep(a, rest);
    SepChars(a, rest);
    var p := SepFrom(Sep(a, rest), 0);
    assert p < |a| ==> Sep(a, rest)[..p] == a[..p];
  }

  /** Heads without a separator print alike before a separator exactly when they are the same,
      or one colon moved across it. */
  lemma SepAlikeIff(a: string, r: string, b: string, q: string)
    requires NoSep(a) && NoSep(b)
    ensures Sep(a, r) == Sep(b, q) <==>
              (a == b && r == q) || (b == a + ":" && r == ":" + q) || (a == b + ":" && q == ":" + r)
  {
    SepChars(a, r);
    SepChars(b, q);
    if Sep(a, r) == Sep(b, q) {
      HeadLength(a, r);
      HeadLength(b, q);
      if |a| < |b| {
        OneColonMoved(a, r, b, q);
      } else if |b| < |a| {
        OneColonMoved(b, q, a, r);
      }
    }
    if b == a + ":" && r == ":" + q { ColonMoves(a, q); }
    if a == b + ":" && q == ":" + r { ColonMoves(b, r); }
  }

  lemma HeadLength(a: string, r: string)
    requires NoSep(a)
    ensures SepFrom(Sep(a, r), 0) <= |a| <= SepFrom(Sep(a, r), 0) + 1
  {
    FirstSep(a, r);
    SepChars(a, r);
    var p := SepFrom(Sep(a, r), 0);
    assert p + 1 < |a| ==> IsSep(a, p);
  }

  lemma OneColonMoved(a: string, r: string, b: string, q: string)
    requires Sep(a, r) == Sep(b, q) && |b| == |a| + 1
    ensures b == a + ":" && r == ":" + q
  {
    var s := Sep(a, r);
    SepChars(a, r);
    SepChars(b, q);
    assert b == s[..|b|] == a + ":";
    assert r == s[|a| + 2..] == [s[|a| + 2]] + s[|a| + 3..];
  }

  lemma ColonMoves(a: string, rest: string)
    ensures Sep(a + ":", rest) == Sep(a, ":" + rest)
  {
    var s, u := Sep(a + ":", rest), Sep(a, ":" + rest);
    assert forall i | 0 <= i < |s| :: s[i] == u[i];
  }

  lemma ColonAheadHasNoSep(o: string)
    requires NoSep(o) && o != "" && o[0] != ':'
    ensures NoSep(":" + o)
  {
    var x := ":" + o;
    forall i: nat | i < |x| ensures !IsSep(x, i) {
      if i > 0 { assert IsSep(x, i) <==> IsSep(o, i - 1); }
    }
  }

  lemma WithoutColonTail(a: string)
    requires NoSep(a) && ColonTail(a)
    ensures var b := a[..|a| - 1]; a == b + ":" && NoSep(b) && !ColonTail(b)
  {
    var b := a[..|a| - 1];
    PartHasNoSep(a, 0, |a| - 1);
    assert b == a[0..|a| - 1];
    assert ColonTail(b) ==> IsSep(a, |a| - 2);
  }

  /** Where `a::rest` is cut: after `a`, but before a colon that ends it. */
  lemma CutHead(a: string, rest: string)
    requires NoSep(a)
    ensures HasSep(Sep(a, rest))
    ensures Cut(Sep(a, rest)) == if ColonTail(a) then (a[..|a| - 1], ":" + rest) else (a, rest)
  {
    CutExact(a, rest);
    if ColonTail(a) {
      var b := a[..|a| - 1];
      WithoutColonTail(a);
      ColonMoves(b, rest);
      CutExact(b, ":" + rest);
    }
  }

  /** A text with a separator is what it is cut into, joined again. */
  lemma CutJoins(s: string)
    requires HasSep(s)
    ensures s == Sep(Cut(s).0, Cut(s).1) && NoSep(Cut(s).0) && !ColonTail(Cut(s).0)
  {
    var p := SepFrom(s, 0);
    CutHasNoSep(s);
    assert s == s[..p] + (s[p..p + 2] + s[p + 2..]);
    assert s[p..p + 2] == "::";
    assert p > 0 ==> !IsSep(s, p - 1);
  }

  lemma JoinTrimmed(a: string, rest: string)
    requires a != "" && rest != "" && Trimmed(a) && Trimmed(rest)
    ensures Trimmed(Sep(a, rest)) && TrimSpace(Sep(a, rest)) == Sep(a, rest)
  {
    SepChars(a, rest);
    TrimFixes(Sep(a, rest));
  }

  /** The text without its trailing spaces. */
  function TrimRight(s: string): string { s[..RightEdge(s, 0, |s|)] }

  /** Where `a::rest` ends without its trailing spaces. */
  lemma SepEnd(a: string, rest: string, b: nat)
    requires b == |a| + 2 + RightEdge(rest, 0, |rest|)
    ensures b <= |Sep(a, rest)| && SpacesIn(Sep(a, rest), b, |Sep(a, rest)|) && !IsSpace(Sep(a, rest)[b - 1])
    ensures Sep(a, rest)[0..b] == Sep(a, TrimRight(rest))
  {
    var s := Sep(a, rest);
    SepChars(a, rest);
    forall i | b <= i < |s| ensures IsSpace(s[i]) {
      assert s[i] == rest[i - |a| - 2];
    }
    assert b > |a| + 2 ==> s[b - 1] == rest[b - 1 - |a| - 2];
  }

  /** After a head that starts with no space, trimming reaches only what follows the separator. */
  lemma TrimAfterHead(a: string, rest: string)
    requires a != "" && !IsSpace(a[0])
    ensures TrimSpace(Sep(a, rest)) == Sep(a, TrimRight(rest))
  {
    var b := |a| + 2 + RightEdge(rest, 0, |rest|);
    SepEnd(a, rest, b);
    assert Sep(a, rest)[0] == a[0];
    TrimAt(Sep(a, rest), 0, b);
  }

  lemma TrimRightAfterSep(a: string, rest: string)
    ensures TrimRight(Sep(a, rest)) == Sep(a, TrimRight(rest))
  {
    var s := Sep(a, rest);
    var b := |a| + 2 + RightEdge(rest, 0, |rest|);
    SepEnd(a, rest, b);
    assert RightEdge(s, 0, |s|) == b;
    assert s[..b] == s[0..b];
  }

  // --------------------------------------------------------------------- short addresses

  function ZeroEdge(s: string, i: nat): (r: nat)
    requires i <= |s|
    ensures i <= r <= |s| && (r < |s| ==> s[r] != '0') && forall k | i <= k < r :: s[k] == '0'
    decreases |s| - i
  {
    if i < |s| && s[i] == '0' then ZeroEdge(s, i + 1) else i
  }

  predicate HasHexPrefix(addr: string) { |addr| >= 2 && addr[0] == '0' && addr[1] == 'x' }

  function ToShortAddress(addr: string): string {
    if !HasHexPrefix(addr) then addr
    else
      var k := ZeroEdge(addr, 2);
      if k < |addr| then "0x" + addr[k..] else "0x0"
  }

  /** An address with the prefix "0x" loses the zeros behind it, up to the last one if there is
      nothing else; any other address stays. */
  lemma ShortAddressMeans(addr: string) returns (k: nat)
    ensures !HasHexPrefix(addr) ==> ToShortAddress(addr) == addr
    ensures HasHexPrefix(addr) ==>
              && 2 <= k <= |addr| && (forall i | 2 <= i < k :: addr[i] == '0') && (k < |addr| ==> addr[k] != '0')
              && ToShortAddress(addr) == "0x" + (if k == |addr| then "0" else addr[k..])
  {
    k := 0;
    if HasHexPrefix(addr) { k := ZeroEdge(addr, 2); }
  }

  lemma ShortAddressTwice(addr: string)
    ensures ToShortAddress(ToShortAddress(addr)) == ToShortAddress(addr)
  {
    if HasHexPrefix(addr) {
      var k := ZeroEdge(addr, 2);
      if k < |addr| {
        var r := "0x" + addr[k..];
        assert r[2] == addr[k];
        assert ZeroEdge(r, 2) == 2 && r[2..] == addr[k..];
      } else {
        assert ZeroEdge("0x0", 2) == ZeroEdge("0x0", 3) == 3;
      }
    }
  }

  /** Shortening never lengthens an address, except the bare "0x". */
  lemma ShortAddressLength(addr: string)
    ensures |ToShortAddress(addr)| <= |addr| || (addr == "0x" && ToShortAddress(addr) == "0x0")
  {
  }

  /** Shortening keeps a trimmed address trimmed and brings in no separator. */
  lemma ShortAddressClean(addr: string)
    requires Trimmed(addr) && NoSep(addr)
    ensures Trimmed(ToShortAddress(addr)) && NoSep(ToShortAddress(addr))
  {
    if HasHexPrefix(addr) && ZeroEdge(addr, 2) < |addr| {
      var k := ZeroEdge(addr, 2);
      var r := ToShortAddress(addr);
      assert r[|r| - 1] == addr[|addr| - 1];
      ShortTailHasNoSep(addr, k);
    }
  }

  lemma ShortTailHasNoSep(addr: string, k: nat)
    requires NoSep(addr) && k <= |addr|
    ensures NoSep("0x" + addr[k..])
  {
    var r := "0x" + addr[k..];
    forall i: nat | i < |r| ensures !IsSep(r, i) {
      if i >= 2 { assert IsSep(r, i) <==> IsSep(addr, i - 2 + k); }
    }
  }

  lemma ShortAddressChars(addr: string, c: char)
    requires c !in addr && c != '0' && c != 'x'
    ensures c !in ToShortAddress(addr)
  {
  }
}
