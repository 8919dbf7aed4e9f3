/** Payloads under several layers of base64, and how far the derived channel sees into them. */
module Base64Layers {
  import opened Bits
  import opened Seqs
  import opened Base64
  import Percent

  // ---- one layer ----

  /** One layer of encoding, with its padding or without. */
  function Wrap(b: seq<byte>, padded: bool): seq<byte> { EncodeCore(b) + if padded then Padding(|b|) else [] }

  /** What encoded text consists of. */
  predicate LetterOrPad(c: byte) { Sextet(c).Some? || c == PAD }

  lemma {:induction false} CoreIsAlphabet(b: seq<byte>)
    ensures Alphabet(EncodeCore(b))
    decreases |b|
  {
    if |b| >= 3 { CoreIsAlphabet(b[3..]); }
  }

  lemma {:induction false} CoreLength(b: seq<byte>)
    ensures |EncodeCore(b)| % 4 != 1 && (b != [] ==> |EncodeCore(b)| > |b|)
    decreases |b|
  {
    if |b| >= 3 {
      CoreLength(b[3..]);
      FourMore(|EncodeCore(b[3..])|);
    }
  }

  lemma FourMore(n: nat)
    ensures (n + 4) % 4 == n % 4
  {
  }

  lemma WrapIsText(b: seq<byte>, padded: bool)
    ensures forall i :: 0 <= i < |Wrap(b, padded)| ==> LetterOrPad(Wrap(b, padded)[i])
  {
    CoreIsAlphabet(b);
    PaddingIsPads(|b|);
  }

  lemma WrapIsLonger(b: seq<byte>, padded: bool)
    requires b != []
    ensures |Wrap(b, padded)| > |b|
  {
    CoreLength(b);
  }

  lemma WrapIsCandidate(b: seq<byte>, padded: bool)
    requires b != [] && |Wrap(b, padded)| >= BASE64_MIN_LEN
    ensures IsCandidate(Wrap(b, padded), BASE64_MIN_LEN)
  {
    CoreIsAlphabet(b);
    CoreLength(b);
    PaddingIsPads(|b|);
    CandidateIff(EncodeCore(b), if padded then Padding(|b|) else [], BASE64_MIN_LEN);
  }

  lemma WrapDecodes(b: seq<byte>, padded: bool)
    ensures Decode(Wrap(b, padded)) == Some(b)
  {
    Base64RoundTrip(b);
    assert EncodeCore(b) + [] == EncodeCore(b);
  }

  /** A value that one layer can carry through: mostly printable, nothing to percent-decode in it. */
  ghost predicate Carried(b: seq<byte>) { MostlyPrintable(b) && Percent.Stable(b) }

  lemma {:induction false} AllPrintable(b: seq<byte>)
    requires forall i :: 0 <= i < |b| ==> Printable(b[i])
    ensures PrintableCount(b) == |b|
    decreases |b|
  {
    if b != [] { AllPrintable(b[1..]); }
  }

  lemma WrapIsCarried(b: seq<byte>, padded: bool)
    requires b != []
    ensures Carried(Wrap(b, padded))
  {
    var w := Wrap(b, padded);
    WrapIsText(b, padded);
    WrapIsLonger(b, padded);
    AllPrintable(w);
    forall i ensures !Percent.EscapeAt(w, i) && !Percent.OverlongAt(w, i) {
      if 0 <= i < |w| { assert LetterOrPad(w[i]); }
    }
  }

  lemma WrapIsExpandable(b: seq<byte>, padded: bool)
    requires MostlyPrintable(b) && |Wrap(b, padded)| >= BASE64_MIN_LEN
    ensures Expandable(Wrap(b, padded)) == Some(b)
  {
    WrapIsCandidate(b, padded);
    WrapDecodes(b, padded);
  }

  // ---- layers ----

  /** `outer` is `v` under one layer of encoding. */
  predicate LayerOf(outer: seq<byte>, v: seq<byte>) { outer == Wrap(v, true) || outer == Wrap(v, false) }

  /** A payload and the layers around it, innermost first: the payload is text that one layer carries, long
      enough once encoded; and what stands inside another layer is canonical as it stands. */
  ghost predicate Layered(texts: seq<seq<byte>>, toText: seq<byte> -> seq<byte>)
  {
    && |texts| >= 2 && Carried(texts[0]) && |texts[1]| >= BASE64_MIN_LEN
    && (forall j :: 1 <= j < |texts| ==> LayerOf(texts[j], texts[j - 1]))
    && (forall j :: 0 <= j < |texts| - 1 ==> toText(texts[j]) == texts[j])
  }

  /** One unit of budget takes an expansion from `outer` to `v`. */
  ghost predicate Opens(outer: seq<byte>, v: seq<byte>, toText: seq<byte> -> seq<byte>)
  {
    Expandable(outer) == Some(v) && Percent.Stable(v) && toText(v) == v
  }

  lemma LayerOpens(outer: seq<byte>, v: seq<byte>, toText: seq<byte> -> seq<byte>)
    requires LayerOf(outer, v) && Carried(v) && |outer| >= BASE64_MIN_LEN && toText(v) == v
    ensures Opens(outer, v, toText) && Carried(outer) && |outer| > |v|
  {
    var padded := outer == Wrap(v, true);
    WrapIsExpandable(v, padded);
    WrapIsCarried(v, padded);
    WrapIsLonger(v, padded);
  }

  lemma {:induction false} LayersOpen(texts: seq<seq<byte>>, j: nat, toText: seq<byte> -> seq<byte>)
    requires Layered(texts, toText) && 1 <= j < |texts|
    ensures Opens(texts[j], texts[j - 1], toText) && Carried(texts[j]) && |texts[j]| >= BASE64_MIN_LEN
    ensures |texts[j]| > |texts[0]|
    decreases j
  {
    if j > 1 { LayersOpen(texts, j - 1, toText); }
    assert LayerOf(texts[j], texts[j - 1]);
    if j > 1 { NextIsLonger(texts[j], texts[j - 1]); }
    LayerOpens(texts[j], texts[j - 1], toText);
  }

  lemma NextIsLonger(outer: seq<byte>, v: seq<byte>)
    requires LayerOf(outer, v) && v != []
    ensures |outer| > |v|
  {
    WrapIsLonger(v, outer == Wrap(v, true));
  }

  // ---- opening all of them ----

  /** With a unit for each of them everything is opened; with less, as many from the end as there is budget. */
  function Opened(own: seq<seq<byte>>, inner: seq<seq<byte>>, budget: nat): seq<seq<byte>>
  {
    if budget >= |inner| then own + inner else inner[|inner| - budget..]
  }

  lemma OneMoreOpened(own: seq<seq<byte>>, inner: seq<seq<byte>>, v: seq<byte>, budget: nat)
    requires budget > 0
    ensures Opened(own, inner + [v], budget) == Opened(own, inner, budget - 1) + [v]
  {
    if budget > |inner| {
      Assoc(own, inner, [v]);
    } else {
      LaterOfSnoc(inner, v, |inner| + 1 - budget);
    }
  }

  lemma LaterOfSnoc<T>(s: seq<T>, x: T, n: nat)
    requires n <= |s|
    ensures (s + [x])[n..] == s[n..] + [x]
  {
  }

  lemma OpensOnce(outer: seq<byte>, v: seq<byte>, budget: nat, toText: seq<byte> -> seq<byte>)
    requires Opens(outer, v, toText) && budget > 0
    ensures Expand(outer, budget, toText).pushed == Expand(v, budget - 1, toText).pushed + [v]
  {
    Percent.StableIsFixed(v, budget - 1);
  }

  /** What a payload by itself expands to, with the budget left behind its layers. */
  function Own(b: seq<byte>, layers: nat, budget: nat, toText: seq<byte> -> seq<byte>): seq<seq<byte>>
  {
    if budget >= layers then Expand(b, budget - layers, toText).pushed else []
  }

  ghost predicate AllOpen(texts: seq<seq<byte>>, toText: seq<byte> -> seq<byte>)
  {
    forall j :: 1 <= j < |texts| ==> Opens(texts[j], texts[j - 1], toText)
  }

  /** Expanding the `k`-th layer pushes, innermost first, what the payload itself expands to, the payload,
      and the layers around it but that one. */
  lemma {:induction false} LayersAreOpened(texts: seq<seq<byte>>, k: nat, budget: nat, toText: seq<byte> -> seq<byte>,
                                           own: seq<seq<byte>>)
    requires AllOpen(texts, toText) && k < |texts| && own == Own(texts[0], k, budget, toText)
    ensures Expand(texts[k], budget, toText).pushed == Opened(own, texts[..k], budget)
    decreases k
  {
    if k == 0 || budget == 0 {
      NothingIsOpened(texts, k, budget, toText, own);
    } else {
      OwnIsSame(texts[0], k, budget, toText);
      LayersAreOpened(texts, k - 1, budget - 1, toText, own);
      OneMoreIsOpened(texts, k, budget, toText, own);
    }
  }

  lemma NothingIsOpened(texts: seq<seq<byte>>, k: nat, budget: nat, toText: seq<byte> -> seq<byte>, own: seq<seq<byte>>)
    requires k < |texts| && (k == 0 || budget == 0) && own == Own(texts[0], k, budget, toText)
    ensures Expand(texts[k], budget, toText).pushed == Opened(own, texts[..k], budget)
  {
    if k == 0 {
      assert own + texts[..0] == own;
    } else {
      var inner: seq<seq<byte>> := texts[..k];
      assert inner[k..] == [];
    }
  }

  lemma OwnIsSame(b: seq<byte>, layers: nat, budget: nat, toText: seq<byte> -> seq<byte>)
    requires layers > 0 && budget > 0
    ensures Own(b, layers, budget, toText) == Own(b, layers - 1, budget - 1, toText)
  {
  }

  lemma OneMoreIsOpened(texts: seq<seq<byte>>, k: nat, budget: nat, toText: seq<byte> -> seq<byte>, own: seq<seq<byte>>)
    requires AllOpen(texts, toText) && 1 <= k < |texts| && budget > 0
    requires Expand(texts[k - 1], budget - 1, toText).pushed == Opened(own, texts[..k - 1], budget - 1)
    ensures Expand(texts[k], budget, toText).pushed == Opened(own, texts[..k], budget)
  {
    OpensOnce(texts[k], texts[k - 1], budget, toText);
    OneMoreOpened(own, texts[..k - 1], texts[k - 1], budget);
    assert texts[..k] == texts[..k - 1] + [texts[k - 1]];
  }

  /** The derived channel sees a payload under layers of base64 exactly when the budget has a unit for
      each of them. */
  lemma PayloadIsSeenIff(texts: seq<seq<byte>>, budget: nat, toText: seq<byte> -> seq<byte>)
    requires Layered(texts, toText)
    ensures texts[0] in Expand(texts[|texts| - 1], budget, toText).pushed <==> budget >= |texts| - 1
  {
    LayeredOpens(texts, toText);
    InnermostIsSeenIff(texts, budget, toText);
  }

  lemma LayeredOpens(texts: seq<seq<byte>>, toText: seq<byte> -> seq<byte>)
    requires Layered(texts, toText)
    ensures AllOpen(texts, toText) && forall j :: 1 <= j < |texts| ==> |texts[j]| > |texts[0]|
  {
    forall j | 1 <= j < |texts|
      ensures Opens(texts[j], texts[j - 1], toText) && |texts[j]| > |texts[0]|
    {
      LayersOpen(texts, j, toText);
    }
  }

  lemma InnermostIsSeenIff(texts: seq<seq<byte>>, budget: nat, toText: seq<byte> -> seq<byte>)
    requires |texts| >= 2 && AllOpen(texts, toText) && forall j :: 1 <= j < |texts| ==> |texts[j]| > |texts[0]|
    ensures texts[0] in Expand(texts[|texts| - 1], budget, toText).pushed <==> budget >= |texts| - 1
  {
    var k := |texts| - 1;
    var own := Own(texts[0], k, budget, toText);
    LayersAreOpened(texts, k, budget, toText, own);
    OpenedHasIff(own, texts[..k], texts[0], budget);
  }

  lemma OpenedHasIff(own: seq<seq<byte>>, inner: seq<seq<byte>>, b: seq<byte>, budget: nat)
    requires inner != [] && inner[0] == b && forall i :: 1 <= i < |inner| ==> inner[i] != b
    ensures b in Opened(own, inner, budget) <==> budget >= |inner|
  {
    if budget >= |inner| {
      assert (own + inner)[|own|] == b;
    } else {
      NotLater(inner, |inner| - budget, b);
    }
  }

  lemma NotLater<T>(s: seq<T>, n: nat, x: T)
    requires 1 <= n <= |s| && forall i :: 1 <= i < |s| ==> s[i] != x
    ensures x !in s[n..]
  {
    assert forall j :: 0 <= j < |s| - n ==> s[n..][j] == s[n + j];
  }

  // ---- payloads in other encodings ----

  /** Whatever printable bytes a value carries, the variant pushed last is their canonical text, so far as
      the rest of the budget decodes them; and a budget that is enough for its layers of percent encoding
      gets down to the payload itself. */
  lemma CarriedIsDecoded(b: seq<byte>, padded: bool, budget: nat, toText: seq<byte> -> seq<byte>)
    requires MostlyPrintable(b) && |Wrap(b, padded)| >= 12 && budget >= 1
    ensures var pushed := Expand(Wrap(b, padded), budget, toText).pushed;
            pushed != [] && pushed[|pushed| - 1] == toText(Percent.Fixpoint(b, false, budget - 1).0)
  {
    WrapIsExpandable(b, padded);
  }

  /** A value of fewer than twelve bytes is left alone, whatever it holds. */
  lemma ShortIsLeftAlone(value: seq<byte>, budget: nat, toText: seq<byte> -> seq<byte>)
    requires |value| < 12
    ensures Expand(value, budget, toText) == Expansion([], budget, 0)
  {
  }

  lemma PercentLayersAreSeen(v: seq<byte>, k: nat, b: seq<byte>, padded: bool, budget: nat,
                             toText: seq<byte> -> seq<byte>)
    requires Percent.Stable(v) && b == Percent.EncodeTimes(v, k) && k < budget
    requires MostlyPrintable(b) && |Wrap(b, padded)| >= 12
    ensures toText(v) in Expand(Wrap(b, padded), budget, toText).pushed
  {
    CarriedIsDecoded(b, padded, budget, toText);
    Percent.BudgetUndoesLayers(v, k, false, budget - 1);
  }

  /** The alphabet is the 64 letters of the encoding and nothing else. */
  lemma AlphabetIs(c: byte)
    ensures Sextet(c).Some? <==> exists v: nat :: v < 64 && Letter(v) == c
  {
    if Sextet(c).Some? { assert Letter(Sextet(c).value) == c; }
  }

  // ---- printable bytes ----

  function Unprintable(b: seq<byte>): (n: nat)
    ensures n <= |b|
  {
    if b == [] then 0
    else (if b[0] in [0x09, 0x0A, 0x0D] || 0x20 <= b[0] <= 0x7E then 0 else 1) + Unprintable(b[1..])
  }

  lemma {:induction false} CountsAddUp(b: seq<byte>)
    ensures PrintableCount(b) + Unprintable(b) == |b|
    decreases |b|
  {
    if b != [] { CountsAddUp(b[1..]); }
  }

  /** At most one byte in ten may be a control character or no ASCII. */
  lemma MostlyPrintableIff(b: seq<byte>)
    ensures MostlyPrintable(b) <==> b != [] && 10 * Unprintable(b) <= |b|
  {
    CountsAddUp(b);
  }
}
