/** Well-formed UTF-8 is what scalar values encode to (definition D92 of the Unicode Standard). */
module Utf8Encoding {
  import opened Bits
  import opened Utf8

  predicate Scalar(c: nat) { c < 0xD800 || 0xE000 <= c < 0x11_0000 }

  /** `10xxxxxx` with six bits of the value. */
  function Trail(x: nat): byte { 0x80 + x % 0x40 }

  function Encode(c: nat): (s: seq<byte>)
    requires Scalar(c)
    ensures 1 <= |s| <= 4
  {
    if c < 0x80 then [c]
    else if c < 0x800 then [0xC0 + c / 0x40, Trail(c)]
    else if c < 0x1_0000 then [0xE0 + c / 0x1000, Trail(c / 0x40), Trail(c)]
    else [0xF0 + c / 0x4_0000, Trail(c / 0x1000), Trail(c / 0x40), Trail(c)]
  }

  function EncodeAll(cs: seq<nat>): seq<byte>
    requires forall i :: 0 <= i < |cs| ==> Scalar(cs[i])
  {
    if cs == [] then [] else Encode(cs[0]) + EncodeAll(cs[1..])
  }

  lemma EncodedIsChar(c: nat, rest: seq<byte>)
    requires Scalar(c)
    ensures CharLen(Encode(c) + rest) == |Encode(c)|
  {
    if c < 0x80 {
    } else if c < 0x800 {
      TwoBytes(c);
    } else if c < 0x1_0000 {
      ThreeBytes(c);
    } else {
      FourBytes(c);
    }
    assert forall i :: 0 <= i < |Encode(c)| ==> (Encode(c) + rest)[i] == Encode(c)[i];
  }

  lemma TwoBytes(c: nat)
    requires 0x80 <= c < 0x800
    ensures 2 <= c / 0x40 < 0x20
  {
  }

  lemma ThreeBytes(c: nat)
    requires 0x800 <= c < 0x1_0000 && Scalar(c)
    ensures c / 0x1000 < 0x10
    ensures c / 0x1000 == 0 ==> c / 0x40 % 0x40 >= 0x20
    ensures c / 0x1000 == 0xD ==> c / 0x40 % 0x40 < 0x20
  {
  }

  lemma FourBytes(c: nat)
    requires 0x1_0000 <= c < 0x11_0000
    ensures c / 0x4_0000 <= 4
    ensures c / 0x4_0000 == 0 ==> c / 0x1000 % 0x40 >= 0x10
    ensures c / 0x4_0000 == 4 ==> c / 0x1000 % 0x40 < 0x10
  {
  }

  /** The value of the character at the head of a text. */
  lemma CharIsEncoded(s: seq<byte>) returns (c: nat)
    requires CharLen(s) > 0
    ensures Scalar(c) && Encode(c) == s[..CharLen(s)]
  {
    var n := CharLen(s);
    if n == 1 {
      c := s[0];
    } else if n == 2 {
      c := TwoOf(s[0] - 0xC0, s[1] - 0x80);
    } else if n == 3 {
      c := ThreeOf(s[0] - 0xE0, s[1] - 0x80, s[2] - 0x80);
    } else {
      c := FourOf(s[0] - 0xF0, s[1] - 0x80, s[2] - 0x80, s[3] - 0x80);
    }
  }

  lemma TwoOf(a: nat, b: nat) returns (c: nat)
    requires 2 <= a < 0x20 && b < 0x40
    ensures 0x80 <= c < 0x800 && c / 0x40 == a && c % 0x40 == b
  {
    c := a * 0x40 + b;
  }

  lemma ThreeOf(a: nat, b: nat, d: nat) returns (c: nat)
    requires a < 0x10 && b < 0x40 && d < 0x40 && (a == 0 ==> b >= 0x20) && (a == 0xD ==> b < 0x20)
    ensures Scalar(c) && 0x800 <= c < 0x1_0000
    ensures c / 0x1000 == a && c / 0x40 % 0x40 == b && c % 0x40 == d
  {
    c := a * 0x1000 + b * 0x40 + d;
    assert c / 0x40 == a * 0x40 + b;
  }

  lemma FourOf(a: nat, b: nat, d: nat, e: nat) returns (c: nat)
    requires a <= 4 && b < 0x40 && d < 0x40 && e < 0x40 && (a == 0 ==> b >= 0x10) && (a == 4 ==> b < 0x10)
    ensures 0x1_0000 <= c < 0x11_0000
    ensures c / 0x4_0000 == a && c / 0x1000 % 0x40 == b && c / 0x40 % 0x40 == d && c % 0x40 == e
  {
    c := a * 0x4_0000 + b * 0x1000 + d * 0x40 + e;
    assert c / 0x40 == a * 0x1000 + b * 0x40 + d;
    assert c / 0x1000 == a * 0x40 + b;
  }

  lemma {:induction false} EncodedIsValid(cs: seq<nat>)
    requires forall i :: 0 <= i < |cs| ==> Scalar(cs[i])
    ensures Valid(EncodeAll(cs))
    decreases |cs|
  {
    if cs != [] {
      var more := EncodeAll(cs[1..]);
      EncodedIsValid(cs[1..]);
      EncodedIsChar(cs[0], more);
      assert (Encode(cs[0]) + more)[|Encode(cs[0])|..] == more;
      OneMoreChar(Encode(cs[0]) + more, |Encode(cs[0])|);
    }
  }

  lemma {:induction false} ValidIsEncoded(s: seq<byte>) returns (cs: seq<nat>)
    requires Valid(s)
    ensures (forall i :: 0 <= i < |cs| ==> Scalar(cs[i])) && EncodeAll(cs) == s
    decreases |s|
  {
    if s == [] {
      cs := [];
    } else {
      var n := CharLen(s);
      var c := CharIsEncoded(s);
      var more := ValidIsEncoded(s[n..]);
      cs := [c] + more;
      assert cs[1..] == more && s == s[..n] + s[n..];
    }
  }

  /** Bytes are well-formed exactly when they are the encoding of some scalar values. */
  lemma ValidIff(s: seq<byte>)
    ensures Valid(s) <==> exists cs: seq<nat> :: (forall i :: 0 <= i < |cs| ==> Scalar(cs[i])) && EncodeAll(cs) == s
  {
    if Valid(s) { var cs := ValidIsEncoded(s); }
    if cs: seq<nat> :| (forall i :: 0 <= i < |cs| ==> Scalar(cs[i])) && EncodeAll(cs) == s { EncodedIsValid(cs); }
  }
}
