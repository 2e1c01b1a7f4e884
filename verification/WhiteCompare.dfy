/** sim_strwhitecasecmp of sim_fio.c: comparison of strings in which every run of whitespace
    counts as one blank, with or without regard to case. */
module WhiteCompare {
  import opened Bytes

  const BLANK := 32

  predicate IsSpace(c: byte) {
    c == BLANK || 9 <= c <= 13
  }

  function Upper(c: byte): byte {
    if 97 <= c <= 122 then c - 32 else c
  }

  /** One character as it is compared. */
  function Folded(c: byte, fold: bool): byte {
    if IsSpace(c) then BLANK else if fold then Upper(c) else c
  }

  /** The characters compared: after a blank, further whitespace is dropped. */
  function Collapsed(s: seq<byte>, fold: bool, afterBlank: bool): seq<byte> {
    if s == [] then []
    else
      var c := Folded(s[0], fold);
      if c == BLANK && afterBlank then Collapsed(s[1..], fold, true)
      else [c] + Collapsed(s[1..], fold, c == BLANK)
  }

  function Canonical(s: seq<byte>, fold: bool): seq<byte> {
    Collapsed(s, fold, false)
  }

  /** Lexicographic order of byte strings; a proper prefix comes first. */
  function Order(a: seq<byte>, b: seq<byte>): (r: int)
    ensures r == -1 || r == 0 || r == 1
  {
    if a == [] then (if b == [] then 0 else -1)
    else if b == [] || a[0] > b[0] then 1
    else if a[0] < b[0] then -1
    else Order(a[1..], b[1..])
  }

  /** A string as C has it: no zero before its end. */
  predicate CString(s: seq<byte>) {
    forall i :: 0 <= i < |s| ==> s[i] != 0
  }

  /** Reads the next compared character of s from position p on; zero at the end. */
  method NextChar(s: seq<byte>, p: nat, last: byte, fold: bool) returns (c: byte, q: nat)
    requires CString(s) && p <= |s|
    ensures c != 0 ==> p < q <= |s| && Collapsed(s[p..], fold, last == BLANK) == [c] + Collapsed(s[q..], fold, c == BLANK)
    ensures c == 0 ==> Collapsed(s[p..], fold, last == BLANK) == []
  {
    c, q := last, p;
    if c == BLANK {
      while c == BLANK && q <= |s|
        invariant p <= q <= |s| + 1
        invariant c == BLANK ==> q <= |s| && Collapsed(s[p..], fold, last == BLANK) == Collapsed(s[q..], fold, true)
        invariant c == 0 ==> Collapsed(s[p..], fold, true) == []
        invariant c != BLANK && c != 0 ==>
          p < q <= |s| && Collapsed(s[p..], fold, true) == [c] + Collapsed(s[q..], fold, false)
        decreases |s| + 1 - q
      {
        Advance(s, q, fold, true);
        c := Folded(At(s, q), fold);
        q := q + 1;
      }
    } else {
      Advance(s, q, fold, false);
      c := Folded(At(s, q), fold);
      q := q + 1;
    }
  }

  lemma Advance(s: seq<byte>, q: nat, fold: bool, afterBlank: bool)
    requires CString(s) && q <= |s|
    ensures var c := Folded(At(s, q), fold);
      && (c == 0 <==> q == |s|)
      && Collapsed(s[q..], fold, afterBlank) ==
           if c == 0 then []
           else if c == BLANK && afterBlank then Collapsed(s[q + 1..], fold, true)
           else [c] + Collapsed(s[q + 1..], fold, c == BLANK)
  {
    if q < |s| {
      assert s[q..][1..] == s[q + 1..];
    }
  }

  /** The result is the order of the canonical forms. */
  method Compare(string1: seq<byte>, string2: seq<byte>, casecmp: bool) returns (r: int)
    requires CString(string1) && CString(string2)
    ensures r == Order(Canonical(string1, casecmp), Canonical(string2, casecmp))
  {
    hide Collapsed;
    var s1: byte, s2: byte, p1: nat, p2: nat := 1, 1, 0, 0;
    assert string1[0..] == string1 && string2[0..] == string2;
    while s1 == s2 && s1 != 0
      invariant p1 <= |string1| && p2 <= |string2|
      invariant s1 == s2 && s1 != 0
      invariant Order(Canonical(string1, casecmp), Canonical(string2, casecmp)) ==
        Order(Collapsed(string1[p1..], casecmp, s1 == BLANK), Collapsed(string2[p2..], casecmp, s2 == BLANK))
      decreases |string1| - p1
    {
      ghost var a := Collapsed(string1[p1..], casecmp, s1 == BLANK);
      ghost var b := Collapsed(string2[p2..], casecmp, s2 == BLANK);
      var q1, q2;
      s1, q1 := NextChar(string1, p1, s1, casecmp);
      s2, q2 := NextChar(string2, p2, s2, casecmp);
      OrderStep(a, b);
      if s1 == s2 {
        if s1 == 0 {
          return 0;
        }
        p1, p2 := q1, q2;
        continue;
      }
      return if s1 < s2 then -1 else 1;
    }
    r := 0;
  }

  lemma OrderStep(a: seq<byte>, b: seq<byte>)
    ensures Order([], []) == 0
    ensures a != [] && b != [] && a[0] == b[0] ==> Order(a, b) == Order(a[1..], b[1..])
  {
  }

  // ------------------------------------------------------------------ what the order is

  lemma {:induction false} OrderEqual(a: seq<byte>, b: seq<byte>)
    ensures Order(a, b) == 0 <==> a == b
  {
    if a != [] && b != [] && a[0] == b[0] {
      OrderEqual(a[1..], b[1..]);
      assert a == [a[0]] + a[1..] && b == [b[0]] + b[1..];
    }
  }

  lemma {:induction false} OrderOpposite(a: seq<byte>, b: seq<byte>)
    ensures Order(b, a) == -Order(a, b)
  {
    if a != [] && b != [] {
      OrderOpposite(a[1..], b[1..]);
    }
  }

  lemma {:induction false} OrderTransitive(a: seq<byte>, b: seq<byte>, c: seq<byte>)
    requires Order(a, b) <= 0 && Order(b, c) <= 0
    ensures Order(a, c) <= 0
    ensures Order(a, c) == 0 ==> Order(a, b) == 0 && Order(b, c) == 0
  {
    if a != [] && b != [] && c != [] && a[0] == b[0] == c[0] {
      OrderTransitive(a[1..], b[1..], c[1..]);
    }
  }

  /** Strings that compare as equal: exactly those with one canonical form, which makes it
      an equivalence. */
  predicate SameText(a: seq<byte>, b: seq<byte>, fold: bool) {
    Order(Canonical(a, fold), Canonical(b, fold)) == 0
  }

  lemma SameTextIsEquivalence(a: seq<byte>, b: seq<byte>, c: seq<byte>, fold: bool)
    ensures SameText(a, a, fold)
    ensures SameText(a, b, fold) ==> SameText(b, a, fold)
    ensures SameText(a, b, fold) && SameText(b, c, fold) ==> SameText(a, c, fold)
  {
    hide Canonical;
    OrderEqual(Canonical(a, fold), Canonical(a, fold));
    OrderEqual(Canonical(a, fold), Canonical(b, fold));
    OrderEqual(Canonical(b, fold), Canonical(a, fold));
    OrderEqual(Canonical(b, fold), Canonical(c, fold));
    OrderEqual(Canonical(a, fold), Canonical(c, fold));
  }

  // ------------------------------------------------------------------ what the form is

  /** The characters that are not whitespace, in order. */
  function Solid(s: seq<byte>, fold: bool): seq<byte> {
    if s == [] then []
    else if IsSpace(s[0]) then Solid(s[1..], fold)
    else [Folded(s[0], fold)] + Solid(s[1..], fold)
  }

  /** The canonical form has the same solid characters and never two blanks together. */
  lemma {:induction false} CollapsedForm(s: seq<byte>, fold: bool, afterBlank: bool)
    ensures var t := Collapsed(s, fold, afterBlank);
      && Solid(t, fold) == Solid(s, fold)
      && (afterBlank && t != [] ==> t[0] != BLANK)
      && forall i :: 0 <= i < |t| ==> (t[i] != BLANK ==> !IsSpace(t[i])) && (i > 0 && t[i - 1] == BLANK ==> t[i] != BLANK)
  {
    if s != [] {
      var c := Folded(s[0], fold);
      if c == BLANK && afterBlank {
        CollapsedForm(s[1..], fold, true);
      } else {
        CollapsedForm(s[1..], fold, c == BLANK);
        var t := Collapsed(s, fold, afterBlank);
        assert t[1..] == Collapsed(s[1..], fold, c == BLANK);
        assert Folded(c, fold) == c && (IsSpace(c) <==> IsSpace(s[0]));
      }
    }
  }

  /** Lengthening a run of whitespace changes nothing. */
  lemma {:induction false} MoreSpace(a: seq<byte>, w: byte, x: byte, b: seq<byte>, fold: bool, afterBlank: bool)
    requires IsSpace(w) && IsSpace(x)
    ensures Collapsed(a + [w, x] + b, fold, afterBlank) == Collapsed(a + [w] + b, fold, afterBlank)
  {
    var s, t := a + [w, x] + b, a + [w] + b;
    if a == [] {
      assert s[1..] == [x] + b && s[1..][1..] == b && t[1..] == b;
    } else {
      var c := Folded(a[0], fold);
      assert s[1..] == a[1..] + [w, x] + b && t[1..] == a[1..] + [w] + b;
      MoreSpace(a[1..], w, x, b, fold, if c == BLANK && afterBlank then true else c == BLANK);
    }
  }

  // ------------------------------------------------------------------ character by character

  /** Blank, tab, newline, vertical tab, form feed and return. */
  predicate White(c: byte) {
    c in [' ' as int, '\t' as int, '\n' as int, 0x0B, 0x0C, '\r' as int]
  }

  function Capital(k: nat): byte
    requires k < 26
  {
    'A' as int + k
  }

  function Small(k: nat): byte
    requires k < 26
  {
    'a' as int + k
  }

  /** A capital and its small letter. */
  predicate Cases(a: byte, b: byte) {
    exists k :: 0 <= k < 26 && a == Capital(k) && b == Small(k)
  }

  /** Characters that make no difference to the comparison. */
  predicate Alike(a: byte, b: byte, fold: bool) {
    a == b || (White(a) && White(b)) || (fold && (Cases(a, b) || Cases(b, a)))
  }

  lemma AlikeIsFolded(a: byte, b: byte, fold: bool)
    ensures Alike(a, b, fold) <==> Folded(a, fold) == Folded(b, fold)
  {
    if 65 <= a <= 90 {
      assert a == Capital(a - 65) && a + 32 == Small(a - 65);
    }
    if 65 <= b <= 90 {
      assert b == Capital(b - 65) && b + 32 == Small(b - 65);
    }
  }

  lemma {:induction false} AlikeCollapses(a: seq<byte>, b: seq<byte>, fold: bool, afterBlank: bool)
    requires |a| == |b| && forall i :: 0 <= i < |a| ==> Alike(a[i], b[i], fold)
    ensures Collapsed(a, fold, afterBlank) == Collapsed(b, fold, afterBlank)
  {
    hide Alike, Folded;
    if a != [] {
      AlikeIsFolded(a[0], b[0], fold);
      var c := Folded(a[0], fold);
      AlikeCollapses(a[1..], b[1..], fold, c == BLANK);
    }
  }

  /** Exchanging characters for others that are alike does not change a comparison, and
      single characters compare as equal only if they are alike. */
  lemma AlikeCompares(a: seq<byte>, b: seq<byte>, other: seq<byte>, c: byte, d: byte, fold: bool)
    requires |a| == |b| && forall i :: 0 <= i < |a| ==> Alike(a[i], b[i], fold)
    ensures Order(Canonical(a, fold), other) == Order(Canonical(b, fold), other) && SameText(a, b, fold)
    ensures SameText([c], [d], fold) <==> Alike(c, d, fold)
  {
    hide Alike, Folded, Order;
    AlikeCollapses(a, b, fold, false);
    OrderEqual(Canonical(a, fold), Canonical(b, fold));
    AlikeIsFolded(c, d, fold);
    OrderEqual(Canonical([c], fold), Canonical([d], fold));
    OneCharacter(c, fold);
    OneCharacter(d, fold);
  }

  lemma OneCharacter(c: byte, fold: bool)
    ensures Canonical([c], fold) == [Folded(c, fold)]
  {
    var s := [c];
    assert s[1..] == [] && Collapsed([], fold, Folded(c, fold) == BLANK) == [];
  }
}
