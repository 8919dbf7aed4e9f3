/** The forms the decoder undoes: every byte as an escape in either case, every seven-bit character as an
    overlong pair, `+` for a space; and how many layers the pipeline undoes. */
module PercentForms {
  import opened Bits
  import opened Percent
  import opened Query

  // ---- escapes ----

  /** The hexadecimal digit of a value below sixteen. */
  function HexDigit(v: nat, upper: bool): byte
    requires v < 16
  {
    if v < 10 then 0x30 + v else if upper then 0x41 + (v - 10) else 0x61 + (v - 10)
  }

  /** A byte is a digit exactly when it is the digit of its value, in one case or the other. */
  lemma HexIff(b: byte)
    ensures IsHex(b) <==> b == HexDigit(HexVal(b), true) || b == HexDigit(HexVal(b), false)
    ensures forall v: nat, upper :: v < 16 ==> IsHex(HexDigit(v, upper)) && HexVal(HexDigit(v, upper)) == v
  {
  }

  /** How each digit of an escape is written. */
  datatype Cases = Cases(high: bool, low: bool)

  function EscapeOf(b: byte, c: Cases): seq<byte>
  {
    [PERCENT, HexDigit(b / 16, c.high), HexDigit(b % 16, c.low)]
  }

  /** Every byte escaped, its digits in the case that `cases` says. */
  function EscapeAll(s: seq<byte>, cases: nat -> Cases): seq<byte>
  {
    if s == [] then [] else EscapeAll(s[..|s| - 1], cases) + EscapeOf(s[|s| - 1], cases(|s| - 1))
  }

  lemma {:induction false} DecodeFirst(a: seq<byte>, e: seq<byte>, plusAsSpace: bool)
    requires |e| == 3 && EscapeAt(e, 0) && Whole(a)
    ensures PercentDecode(a + e, plusAsSpace) == PercentDecode(a, plusAsSpace) + [Unescape(e[1], e[2])]
    decreases |a|
  {
    if a == [] {
      assert a + e == e && e[3..] == [];
    } else {
      var n := if EscapeAt(a, 0) then 3 else 1;
      HeadIsSame(a, e, plusAsSpace);
      assert (a + e)[n..] == a[n..] + e;
      DecodeFirst(a[n..], e, plusAsSpace);
    }
  }

  /** Escapes, one after the other, and nothing else. */
  predicate Whole(a: seq<byte>)
    decreases |a|
  {
    a == [] || (EscapeAt(a, 0) && Whole(a[3..]))
  }

  lemma HeadIsSame(a: seq<byte>, e: seq<byte>, plusAsSpace: bool)
    requires EscapeAt(a, 0)
    ensures DecodeHead(a + e, plusAsSpace) == DecodeHead(a, plusAsSpace) == (Unescape(a[1], a[2]), 3)
  {
  }

  lemma {:induction false} WholeConcat(a: seq<byte>, e: seq<byte>)
    requires Whole(a) && |e| == 3 && EscapeAt(e, 0)
    ensures Whole(a + e)
    decreases |a|
  {
    if a == [] {
      assert a + e == e && e[3..] == [];
    } else {
      WholeConcat(a[3..], e);
      assert (a + e)[3..] == a[3..] + e;
    }
  }

  /** Any bytes come back from their escapes, in whichever case the digits are written, in one pass. */
  lemma {:induction false} EscapesComeBack(s: seq<byte>, cases: nat -> Cases, plusAsSpace: bool)
    ensures Whole(EscapeAll(s, cases)) && PercentDecode(EscapeAll(s, cases), plusAsSpace) == s
    decreases |s|
  {
    if s != [] {
      var before, e := s[..|s| - 1], EscapeOf(s[|s| - 1], cases(|s| - 1));
      EscapesComeBack(before, cases, plusAsSpace);
      HexIff(0);
      WholeConcat(EscapeAll(before, cases), e);
      DecodeFirst(EscapeAll(before, cases), e, plusAsSpace);
      assert s == before + [s[|s| - 1]];
    }
  }

  /** Bytes without a percent sign are decoded one by one: `+` is a space in a form, and everything else
      is what it is. */
  lemma {:induction false} PlusIsSpace(s: seq<byte>, plusAsSpace: bool)
    requires PERCENT !in s
    ensures |PercentDecode(s, plusAsSpace)| == |s|
    ensures forall i :: 0 <= i < |s| ==>
              PercentDecode(s, plusAsSpace)[i] == if plusAsSpace && s[i] == 0x2B then 0x20 else s[i]
    decreases |s|
  {
    if s != [] {
      PlusIsSpace(s[1..], plusAsSpace);
      assert forall i :: 1 <= i < |s| ==> s[i] == s[1..][i - 1];
    }
  }

  // ---- overlong pairs ----

  /** A seven-bit character written in two bytes instead of one. */
  function Widened(s: seq<byte>): seq<byte>
    requires forall i :: 0 <= i < |s| ==> s[i] < 0x80
  {
    if s == [] then [] else [0xC0 + s[0] / 0x40, 0x80 + s[0] % 0x40] + Widened(s[1..])
  }

  lemma {:induction false} WidenedComesBack(s: seq<byte>)
    requires forall i :: 0 <= i < |s| ==> s[i] < 0x80
    ensures CollapseOverlong(Widened(s)) == s
    decreases |s|
  {
    if s != [] {
      WidenedComesBack(s[1..]);
      var w := Widened(s);
      assert w[2..] == Widened(s[1..]);
      assert s == [s[0]] + s[1..];
    }
  }

  // ---- layers ----

  /** What the encoder escapes. */
  predicate Special(v: seq<byte>) { PERCENT in v || AMPERSAND in v || PLUS in v }

  lemma {:induction false} EncodedIsSpecial(v: seq<byte>)
    requires Special(v)
    ensures PERCENT in EncodeComponent(v)
    decreases |v|
  {
    if !(v[0] == PERCENT || v[0] == AMPERSAND || v[0] == PLUS) {
      assert v == [v[0]] + v[1..];
      EncodedIsSpecial(v[1..]);
    }
  }

  lemma {:induction false} LayersAreSpecial(v: seq<byte>, k: nat)
    requires Special(v)
    ensures Special(EncodeTimes(v, k)) && EncodeTimes(v, k + 1) != EncodeTimes(v, k)
    decreases k
  {
    if k > 0 {
      LayersAreSpecial(v, k - 1);
      EncodedIsSpecial(EncodeTimes(v, k - 1));
    }
    EncodeGrows(EncodeTimes(v, k));
  }

  /** Each layer that changes something takes one pass. */
  lemma {:induction false} LayersTakePasses(v: seq<byte>, k: nat, plusAsSpace: bool, budget: nat, left: nat,
                                            later: bool) returns (r: (seq<byte>, nat))
    requires Stable(v) && Special(v) && (plusAsSpace ==> k >= 1) && !later
    requires left == if k <= budget then budget - k else 0
    ensures r == Fixpoint(EncodeTimes(v, k), plusAsSpace, budget) && r.1 == left
    decreases budget
  {
    if budget == 0 || k == 0 {
      r := Fixpoint(EncodeTimes(v, k), plusAsSpace, budget);
      if budget == 0 { NoBudget(EncodeTimes(v, k), plusAsSpace, budget); } else { StableIsFixed(v, budget); }
    } else {
      LayersAreSpecial(v, k - 1);
      LayerTaken(v, k, plusAsSpace, budget, later);
      r := LayersTakePasses(v, k - 1, later, budget - 1, left, later);
    }
  }

  lemma {:induction false} LayersAddNothing(v: seq<byte>, k: nat)
    requires !Special(v)
    ensures EncodeTimes(v, k) == v
  {
    if k > 0 {
      LayersAddNothing(v, k - 1);
      EncodeGrows(v);
    }
  }

  lemma PlainTakesNone(v: seq<byte>, plusAsSpace: bool, budget: nat)
    requires Stable(v) && !Special(v)
    ensures Fixpoint(v, plusAsSpace, budget) == (v, budget)
  {
    PlusIsSpace(v, plusAsSpace);
    assert PercentDecode(v, plusAsSpace) == v;
    OverlongShrinks(v);
  }

  /** The pipeline undoes five layers over a fully decoded value, and takes a value for doubly encoded
      exactly when there are two layers or more and they escape something. */
  lemma LayersAreSeen(v: seq<byte>, k: nat, t: Texts)
    requires Stable(v) && k >= 1
    ensures Canonical(EncodeTimes(v, k), true, t).0 == t.text(EncodeTimes(v, if k <= 5 then 0 else k - 5))
    ensures Canonical(EncodeTimes(v, k), true, t).1 <==>
      k >= 2 && (PERCENT in v || AMPERSAND in v || PLUS in v)
  {
    BudgetUndoesLayers(v, k, true, 5);
    if Special(v) {
      var r := LayersTakePasses(v, k, true, 5, if k <= 5 then 5 - k else 0, false);
    } else {
      LayersAddNothing(v, k);
      PlainTakesNone(v, true, 5);
    }
  }
}
