/** Recursive percent and overlong decoding under a shared budget. */
module Percent {
  import opened Bits
  import opened Seqs

  const PIPELINE_CAP := 5

  const PERCENT: byte := 0x25
  const AMPERSAND: byte := 0x26
  const PLUS: byte := 0x2B
  const SPACE: byte := 0x20

  predicate IsHex(b: byte) { 0x30 <= b <= 0x39 || 0x41 <= b <= 0x46 || 0x61 <= b <= 0x66 }

  function HexVal(b: byte): (v: byte)
    ensures v < 16
  {
    if 0x30 <= b <= 0x39 then b - 0x30
    else if 0x61 <= b <= 0x66 then b - 0x61 + 10
    else if 0x41 <= b <= 0x46 then b - 0x41 + 10
    else 0
  }

  predicate EscapeAt(s: seq<byte>, i: int)
  {
    0 <= i && i + 2 < |s| && s[i] == PERCENT && IsHex(s[i + 1]) && IsHex(s[i + 2])
  }

  predicate OverlongAt(s: seq<byte>, i: int)
  {
    0 <= i && i + 1 < |s| && (s[i] == 0xC0 || s[i] == 0xC1) && 0x80 <= s[i + 1] <= 0xBF
  }

  function Unescape(high: byte, low: byte): byte { HexVal(high) * 16 + HexVal(low) }

  /** The seven-bit character an overlong pair stands for. */
  function Overlong(lead: byte, next: byte): byte
    requires lead == 0xC0 || lead == 0xC1
  {
    (lead % 0x20) * 0x40 + next % 0x40
  }

  /** The byte decoded at the head of `s`, and the bytes it takes. */
  function DecodeHead(s: seq<byte>, plusAsSpace: bool): (r: (byte, nat))
    requires s != []
    ensures 1 <= r.1 <= |s|
  {
    if s[0] == PLUS && plusAsSpace then (SPACE, 1)
    else if EscapeAt(s, 0) then (Unescape(s[1], s[2]), 3)
    else (s[0], 1)
  }

  function PercentDecode(s: seq<byte>, plusAsSpace: bool): seq<byte>
    decreases |s|
  {
    if s == [] then []
    else var (b, n) := DecodeHead(s, plusAsSpace); [b] + PercentDecode(s[n..], plusAsSpace)
  }

  function CollapseOverlong(s: seq<byte>): seq<byte>
    decreases |s|
  {
    if s == [] then []
    else if OverlongAt(s, 0) then [Overlong(s[0], s[1])] + CollapseOverlong(s[2..])
    else [s[0]] + CollapseOverlong(s[1..])
  }

  /** `(high << bits) | low` in one byte. */
  method Glue(high: byte, low: byte, bits: nat) returns (b: byte)
    requires (bits == 4 && low < 16 && high < 16) || (bits == 6 && low < 0x40 && high < 2)
    ensures b == high * (if bits == 4 then 16 else 0x40) + low
  {
    assert Pow2(4) == 16 && Pow2(6) == 0x40;
    OrCommutes(high * Pow2(bits), low);
    OrDisjoint(low, high, bits);
    b := Or(high * Pow2(bits), low);
  }

  method PercentDecodeBytes(input: seq<byte>, plusAsSpace: bool) returns (out: seq<byte>)
    ensures out == PercentDecode(input, plusAsSpace)
  {
    out := [];
    var i := 0;
    while i < |input|
      invariant i <= |input|
      invariant out + PercentDecode(input[i..], plusAsSpace) == PercentDecode(input, plusAsSpace)
    {
      var b, n := DecodeAt(input, i, plusAsSpace);
      assert input[i..][n..] == input[i + n..];
      ghost var rest := PercentDecode(input[i + n..], plusAsSpace);
      assert PercentDecode(input[i..], plusAsSpace) == [b] + rest;
      Assoc(out, [b], rest);
      out := out + [b];
      i := i + n;
    }
  }

  method DecodeAt(input: seq<byte>, i: nat, plusAsSpace: bool) returns (b: byte, n: nat)
    requires i < |input|
    ensures (b, n) == DecodeHead(input[i..], plusAsSpace)
  {
    if input[i] == PLUS && plusAsSpace {
      b, n := SPACE, 1;
    } else if input[i] == PERCENT && i + 2 < |input| && IsHex(input[i + 1]) && IsHex(input[i + 2]) {
      b := Glue(HexVal(input[i + 1]), HexVal(input[i + 2]), 4);
      n := 3;
    } else {
      b, n := input[i], 1;
    }
  }

  method Collapse(bytes: seq<byte>) returns (out: seq<byte>)
    ensures out == CollapseOverlong(bytes)
  {
    out := [];
    var i := 0;
    while i < |bytes|
      invariant i <= |bytes|
      invariant out + CollapseOverlong(bytes[i..]) == CollapseOverlong(bytes)
    {
      ghost var here := bytes[i..];
      assert here[1..] == bytes[i + 1..];
      var b := bytes[i];
      if (b == 0xC0 || b == 0xC1) && i + 1 < |bytes| && 0x80 <= bytes[i + 1] <= 0xBF {
        assert here[2..] == bytes[i + 2..] && OverlongAt(here, 0);
        assert CollapseOverlong(here) == [Overlong(b, bytes[i + 1])] + CollapseOverlong(bytes[i + 2..]);
        Assoc(out, [Overlong(b, bytes[i + 1])], CollapseOverlong(bytes[i + 2..]));
        var c := Glue(b % 0x20, bytes[i + 1] % 0x40, 6);
        out := out + [c];
        i := i + 2;
      } else {
        assert CollapseOverlong(here) == [b] + CollapseOverlong(bytes[i + 1..]);
        Assoc(out, [b], CollapseOverlong(bytes[i + 1..]));
        out := out + [b];
        i := i + 1;
      }
    }
  }

  function OnePass(s: seq<byte>, plusAsSpace: bool): seq<byte>
  {
    CollapseOverlong(PercentDecode(s, plusAsSpace))
  }

  /** The bytes reached and the budget left; `+` means space on the first pass only. */
  function Fixpoint(s: seq<byte>, plusAsSpace: bool, budget: nat): (r: (seq<byte>, nat))
    ensures r.1 <= budget
    decreases budget
  {
    if budget == 0 then (s, 0)
    else
      var next := OnePass(s, plusAsSpace);
      if next == s then (s, budget) else Fixpoint(next, false, budget - 1)
  }

  method PercentOverlongFixpoint(raw: seq<byte>, plusAsSpace: bool, budget: nat)
    returns (bytes: seq<byte>, passes: nat, left: nat)
    ensures (bytes, left) == Fixpoint(raw, plusAsSpace, budget)
    ensures passes + left == budget
  {
    bytes, passes, left := raw, 0, budget;
    while left > 0
      invariant passes + left == budget
      invariant Fixpoint(bytes, plusAsSpace && passes == 0, left) == Fixpoint(raw, plusAsSpace, budget)
    {
      var decoded := PercentDecodeBytes(bytes, plusAsSpace && passes == 0);
      var next := Collapse(decoded);
      if next == bytes { break; }
      bytes, passes, left := next, passes + 1, left - 1;
    }
  }

  // ---- fully decoded bytes ----

  ghost predicate NoEscape(s: seq<byte>) { forall i :: !EscapeAt(s, i) }

  ghost predicate NoOverlong(s: seq<byte>) { forall i :: !OverlongAt(s, i) }

  /** Nothing left to decode. */
  ghost predicate Stable(s: seq<byte>) { NoEscape(s) && NoOverlong(s) }

  lemma {:induction false} PercentShrinks(s: seq<byte>)
    ensures |PercentDecode(s, false)| <= |s|
    ensures if NoEscape(s) then PercentDecode(s, false) == s else |PercentDecode(s, false)| < |s|
    decreases |s|
  {
    if s != [] {
      if EscapeAt(s, 0) {
        PercentShrinks(s[3..]);
      } else {
        PercentShrinks(s[1..]);
        assert forall i {:trigger EscapeAt(s[1..], i)} :: i >= 0 ==> EscapeAt(s[1..], i) == EscapeAt(s, i + 1);
        if !NoEscape(s) {
          var i :| EscapeAt(s, i);
          assert EscapeAt(s[1..], i - 1);
        }
        assert [s[0]] + s[1..] == s;
      }
    }
  }

  lemma {:induction false} OverlongShrinks(s: seq<byte>)
    ensures |CollapseOverlong(s)| <= |s|
    ensures if NoOverlong(s) then CollapseOverlong(s) == s else |CollapseOverlong(s)| < |s|
    decreases |s|
  {
    if s != [] {
      if OverlongAt(s, 0) {
        OverlongShrinks(s[2..]);
      } else {
        OverlongShrinks(s[1..]);
        assert forall i {:trigger OverlongAt(s[1..], i)} :: i >= 0 ==> OverlongAt(s[1..], i) == OverlongAt(s, i + 1);
        if !NoOverlong(s) {
          var i :| OverlongAt(s, i);
          assert OverlongAt(s[1..], i - 1);
        }
        assert [s[0]] + s[1..] == s;
      }
    }
  }

  /** A pass either shortens the bytes or finds nothing left to decode. */
  lemma PassShrinks(s: seq<byte>)
    ensures if Stable(s) then OnePass(s, false) == s else |OnePass(s, false)| < |s|
  {
    PercentShrinks(s);
    OverlongShrinks(PercentDecode(s, false));
  }

  lemma {:induction false} PlusDecodesSeparately(s: seq<byte>)
    ensures |PercentDecode(s, true)| == |PercentDecode(s, false)|
    ensures PercentDecode(s, true) == s ==> PercentDecode(s, false) == s
    decreases |s|
  {
    if s != [] {
      if s[0] != PLUS && EscapeAt(s, 0) {
        PlusDecodesSeparately(s[3..]);
        PercentShrinks(s[3..]);
        assert |PercentDecode(s, true)| < |s|;
      } else {
        PlusDecodesSeparately(s[1..]);
        assert s == [s[0]] + s[1..];
      }
    }
  }

  /** The first, form-decoding pass changes nothing only on fully decoded bytes. */
  lemma FirstPassUnchanged(s: seq<byte>)
    requires OnePass(s, true) == s
    ensures Stable(s)
  {
    PlusDecodesSeparately(s);
    PercentShrinks(s);
    OverlongShrinks(PercentDecode(s, true));
    assert PercentDecode(s, true) == s;
  }

  /** The fixpoint uses its whole budget or leaves nothing to decode; and bytes with nothing
      left are returned untouched by any further run. */
  lemma {:induction false} FixpointIsStable(s: seq<byte>, plusAsSpace: bool, budget: nat)
    ensures var r := Fixpoint(s, plusAsSpace, budget);
            && (r.1 == 0 || Stable(r.0))
            && |r.0| <= |s|
            && forall more: nat :: r.1 > 0 ==> Fixpoint(r.0, false, more) == (r.0, more)
    decreases budget
  {
    if budget > 0 {
      var next := OnePass(s, plusAsSpace);
      PassShrinks(s);
      PlusDecodesSeparately(s);
      PercentShrinks(s);
      OverlongShrinks(PercentDecode(s, plusAsSpace));
      if next == s {
        if plusAsSpace { FirstPassUnchanged(s); }
      } else {
        FixpointIsStable(next, false, budget - 1);
      }
    }
  }

  /** Without a budget the loop ends as well: at most one pass a byte, and the form pass. */
  lemma {:induction false} PassesAreBounded(s: seq<byte>, plusAsSpace: bool, budget: nat)
    ensures budget - Fixpoint(s, plusAsSpace, budget).1 <= |s| + if plusAsSpace then 1 else 0
    decreases budget
  {
    if budget > 0 {
      var next := OnePass(s, plusAsSpace);
      if next != s {
        PassShrinks(s);
        PlusDecodesSeparately(s);
        PercentShrinks(s);
        OverlongShrinks(PercentDecode(s, plusAsSpace));
        PassesAreBounded(next, false, budget - 1);
      }
    }
  }

  // ---- the encoder of the test kit ----

  function EncodeByte(b: byte): seq<byte>
  {
    if b == PERCENT then [PERCENT, 0x32, 0x35]
    else if b == AMPERSAND then [PERCENT, 0x32, 0x36]
    else if b == PLUS then [PERCENT, 0x32, 0x42]
    else [b]
  }

  function EncodeComponent(s: seq<byte>): seq<byte>
  {
    if s == [] then [] else EncodeByte(s[0]) + EncodeComponent(s[1..])
  }

  method EncQueryComponent(s: seq<byte>) returns (out: seq<byte>)
    ensures out == EncodeComponent(s)
  {
    out := [];
    for i := 0 to |s|
      invariant out + EncodeComponent(s[i..]) == EncodeComponent(s)
    {
      assert s[i..][1..] == s[i + 1..];
      out := out + EncodeByte(s[i]);
    }
  }

  /** One decoding pass undoes one encoding, form decoding or not. */
  lemma {:induction false} DecodeEncoded(s: seq<byte>, plusAsSpace: bool)
    ensures PercentDecode(EncodeComponent(s), plusAsSpace) == s
    decreases |s|
  {
    if s != [] {
      var rest := EncodeComponent(s[1..]);
      DecodeEncoded(s[1..], plusAsSpace);
      DecodeEncodedByte(s[0], rest, plusAsSpace);
      assert (EncodeByte(s[0]) + rest)[|EncodeByte(s[0])|..] == rest;
      assert [s[0]] + s[1..] == s;
    }
  }

  lemma DecodeEncodedByte(b: byte, rest: seq<byte>, plusAsSpace: bool)
    ensures DecodeHead(EncodeByte(b) + rest, plusAsSpace) == (b, |EncodeByte(b)|)
  {
  }

  lemma {:induction false} EncodeKeepsOverlong(s: seq<byte>)
    ensures NoOverlong(EncodeComponent(s)) <==> NoOverlong(s)
    decreases |s|
  {
    if s != [] {
      var rest := EncodeComponent(s[1..]);
      EncodeKeepsOverlong(s[1..]);
      OverlongHead(s[0], s[1..]);
      assert [s[0]] + s[1..] == s;
      if s[1..] != [] { assert rest[0] == EncodeByte(s[1])[0]; }
      if |EncodeByte(s[0])| == 3 {
        ThreeAscii(EncodeByte(s[0]), rest);
      } else {
        OverlongHead(s[0], rest);
      }
    }
  }

  lemma ThreeAscii(e: seq<byte>, rest: seq<byte>)
    requires |e| == 3 && e[0] < 0x80 && e[1] < 0x80 && e[2] < 0x80
    ensures NoOverlong(e + rest) <==> NoOverlong(rest)
  {
    OverlongHead(e[0], [e[1], e[2]] + rest);
    OverlongHead(e[1], [e[2]] + rest);
    OverlongHead(e[2], rest);
    assert e + rest == [e[0]] + ([e[1], e[2]] + rest) && [e[1], e[2]] + rest == [e[1]] + ([e[2]] + rest);
  }

  lemma OverlongHead(b: byte, rest: seq<byte>)
    ensures NoOverlong([b] + rest) <==> !OverlongAt([b] + rest, 0) && NoOverlong(rest)
  {
    var s := [b] + rest;
    assert forall i {:trigger OverlongAt(rest, i)} :: i >= 0 ==> OverlongAt(rest, i) == OverlongAt(s, i + 1);
    if exists i :: OverlongAt(s, i) {
      var i :| OverlongAt(s, i);
      if i > 0 { assert OverlongAt(rest, i - 1); }
    }
  }

  lemma {:induction false} EncodeGrows(s: seq<byte>)
    ensures |EncodeComponent(s)| >= |s|
    ensures EncodeComponent(s) == s <==> PERCENT !in s && AMPERSAND !in s && PLUS !in s
    decreases |s|
  {
    if s != [] {
      EncodeGrows(s[1..]);
      assert [s[0]] + s[1..] == s;
      if |EncodeByte(s[0])| == 1 {
        assert EncodeComponent(s)[1..] == EncodeComponent(s[1..]);
      }
    }
  }

  /** The encoder's promise, exactly: a value comes back as it was if and only if it holds no
      escape and no overlong pair of its own. */
  lemma EncodedValueComesBackIff(v: seq<byte>, budget: nat)
    requires budget >= 2
    ensures Fixpoint(EncodeComponent(v), true, budget).0 == v <==> Stable(v)
  {
    if NoOverlong(v) {
      ComesBackWithoutOverlong(v, budget);
    } else {
      OverlongIsLost(v, budget);
    }
  }

  lemma ComesBackWithoutOverlong(v: seq<byte>, budget: nat)
    requires budget >= 2 && NoOverlong(v)
    ensures Fixpoint(EncodeComponent(v), true, budget).0 == v <==> Stable(v)
  {
    AfterFormPass(v, budget);
    OverlongShrinks(v);
    if EncodeComponent(v) == v {
      PlainWhenUnchanged(v);
    } else {
      ValueAloneIff(v, budget - 1);
    }
  }

  lemma OverlongIsLost(v: seq<byte>, budget: nat)
    requires budget >= 2 && !NoOverlong(v)
    ensures |Fixpoint(EncodeComponent(v), true, budget).0| < |v|
  {
    AfterFormPass(v, budget);
    OverlongShrinks(v);
    EncodeGrows(v);
    FixpointIsStable(CollapseOverlong(v), false, budget - 1);
  }

  lemma AfterFormPass(v: seq<byte>, budget: nat)
    requires budget >= 1
    ensures var e, c := EncodeComponent(v), CollapseOverlong(v);
            Fixpoint(e, true, budget).0 == if c == e then e else Fixpoint(c, false, budget - 1).0
  {
    DecodeEncoded(v, true);
  }

  lemma PlainWhenUnchanged(v: seq<byte>)
    requires EncodeComponent(v) == v
    ensures NoEscape(v)
  {
    EncodeGrows(v);
  }

  lemma ValueAloneIff(v: seq<byte>, budget: nat)
    requires budget >= 1
    ensures Fixpoint(v, false, budget).0 == v <==> Stable(v)
  {
    PassShrinks(v);
    FixpointIsStable(OnePass(v, false), false, budget - 1);
  }

  /** `%41` is such a value: the round trip turns it into `A`. */
  lemma EscapedValueIsLost()
    ensures Fixpoint(EncodeComponent([PERCENT, 0x34, 0x31]), true, PIPELINE_CAP).0 == [0x41]
  {
    var v, e := [PERCENT, 0x34, 0x31], [PERCENT, 0x32, 0x35, 0x34, 0x31];
    assert v[1..] == [0x34, 0x31] && [0x34, 0x31][1..] == [0x31] && [0x31][1..] == [];
    assert EncodeComponent([0x31]) == [0x31];
    assert EncodeComponent([0x34, 0x31]) == [0x34, 0x31];
    assert EncodeComponent(v) == e;
    DecodeEncoded(v, true);
    assert NoOverlong(v);
    OverlongShrinks(v);
    assert OnePass(e, true) == v;
    assert v[3..] == [] && PercentDecode(v, false) == [0x41];
    assert NoOverlong([0x41]) && NoEscape([0x41]);
    OverlongShrinks([0x41]);
    PassShrinks([0x41]);
    assert Fixpoint([0x41], false, 3) == ([0x41], 3);
  }

  function EncodeTimes(v: seq<byte>, k: nat): seq<byte>
  {
    if k == 0 then v else EncodeComponent(EncodeTimes(v, k - 1))
  }

  lemma {:induction false} LayersKeepOverlong(v: seq<byte>, k: nat)
    ensures NoOverlong(EncodeTimes(v, k)) <==> NoOverlong(v)
  {
    if k > 0 {
      LayersKeepOverlong(v, k - 1);
      EncodeKeepsOverlong(EncodeTimes(v, k - 1));
    }
  }

  /** A layer that adds nothing means no layer added anything. */
  lemma {:induction false} IdleLayers(v: seq<byte>, k: nat)
    requires EncodeTimes(v, k + 1) == EncodeTimes(v, k)
    ensures EncodeTimes(v, k) == v
    decreases k
  {
    if k > 0 {
      var x := EncodeTimes(v, k - 1);
      DecodeEncoded(EncodeComponent(x), false);
      DecodeEncoded(x, false);
      IdleLayers(v, k - 1);
    }
  }

  /** A budget of n undoes n layers of encoding and no more: one to five layers over a fully
      decoded value are undone exactly. */
  lemma BudgetUndoesLayers(v: seq<byte>, k: nat, plusAsSpace: bool, budget: nat)
    requires Stable(v) && (plusAsSpace ==> k >= 1)
    ensures Fixpoint(EncodeTimes(v, k), plusAsSpace, budget).0 == EncodeTimes(v, if k <= budget then 0 else k - budget)
  {
    var r := LayersUndone(v, k, plusAsSpace, budget, if k <= budget then 0 else k - budget, false);
  }

  /** `later` is how passes after the first treat `+`. */
  lemma {:induction false} LayersUndone(v: seq<byte>, k: nat, plusAsSpace: bool, budget: nat, left: nat, later: bool)
    returns (r: (seq<byte>, nat))
    requires Stable(v) && (plusAsSpace ==> k >= 1) && !later
    requires left == if k <= budget then 0 else k - budget
    ensures r == Fixpoint(EncodeTimes(v, k), plusAsSpace, budget) && r.0 == EncodeTimes(v, left)
    decreases budget
  {
    if budget == 0 || k == 0 || EncodeTimes(v, k - 1) == EncodeTimes(v, k) {
      r := Fixpoint(EncodeTimes(v, k), plusAsSpace, budget);
      NothingUndone(v, k, plusAsSpace, budget, left);
    } else {
      LayerTaken(v, k, plusAsSpace, budget, later);
      r := LayersUndone(v, k - 1, later, budget - 1, left, later);
    }
  }

  lemma NothingUndone(v: seq<byte>, k: nat, plusAsSpace: bool, budget: nat, left: nat)
    requires Stable(v) && (plusAsSpace ==> k >= 1) && left == if k <= budget then 0 else k - budget
    requires budget == 0 || k == 0 || EncodeTimes(v, k - 1) == EncodeTimes(v, k)
    ensures Fixpoint(EncodeTimes(v, k), plusAsSpace, budget).0 == EncodeTimes(v, left)
  {
    if budget == 0 {
      NoBudget(EncodeTimes(v, k), plusAsSpace, budget);
    } else if k == 0 {
      StableIsFixed(v, budget);
    } else {
      IdleLayersAreFixed(v, k, plusAsSpace, budget, left);
    }
  }

  lemma LayerTaken(v: seq<byte>, k: nat, plusAsSpace: bool, budget: nat, later: bool)
    requires Stable(v) && k >= 1 && budget > 0 && EncodeTimes(v, k - 1) != EncodeTimes(v, k) && !later
    ensures Fixpoint(EncodeTimes(v, k), plusAsSpace, budget) == Fixpoint(EncodeTimes(v, k - 1), later, budget - 1)
  {
    PassUndoesLayer(v, k, plusAsSpace);
    OnePassTaken(EncodeTimes(v, k), EncodeTimes(v, k - 1), plusAsSpace, budget);
  }

  lemma NoBudget(s: seq<byte>, plusAsSpace: bool, none: nat)
    requires none == 0
    ensures Fixpoint(s, plusAsSpace, none) == (s, 0)
  {
  }

  lemma StableIsFixed(v: seq<byte>, budget: nat)
    requires Stable(v)
    ensures Fixpoint(v, false, budget) == (v, budget)
  {
    PassShrinks(v);
  }

  lemma OnePassTaken(s: seq<byte>, next: seq<byte>, plusAsSpace: bool, budget: nat)
    requires budget > 0 && OnePass(s, plusAsSpace) == next && next != s
    ensures Fixpoint(s, plusAsSpace, budget) == Fixpoint(next, false, budget - 1)
  {
  }

  lemma IdleLayersAreFixed(v: seq<byte>, k: nat, plusAsSpace: bool, budget: nat, left: nat)
    requires Stable(v) && k >= 1 && budget > 0 && EncodeTimes(v, k - 1) == EncodeTimes(v, k) && left <= k
    ensures Fixpoint(EncodeTimes(v, k), plusAsSpace, budget).0 == EncodeTimes(v, left)
  {
    PassUndoesLayer(v, k, plusAsSpace);
    IdleLayers(v, k - 1);
    AllLayersIdle(v, k, left);
  }

  lemma PassUndoesLayer(v: seq<byte>, k: nat, plusAsSpace: bool)
    requires Stable(v) && k >= 1
    ensures OnePass(EncodeTimes(v, k), plusAsSpace) == EncodeTimes(v, k - 1)
  {
    var x := EncodeTimes(v, k - 1);
    DecodeEncoded(x, plusAsSpace);
    LayersKeepOverlong(v, k - 1);
    OverlongShrinks(x);
  }

  lemma {:induction false} AllLayersIdle(v: seq<byte>, k: nat, j: nat)
    requires 1 <= k && j <= k && EncodeTimes(v, k) == v && EncodeTimes(v, k - 1) == v
    ensures EncodeTimes(v, j) == v
    decreases j
  {
    if j > 0 { AllLayersIdle(v, k, j - 1); }
  }
}
