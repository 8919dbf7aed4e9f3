/** Standard base64 (section 4 of RFC 4648) through a 32-bit accumulator that wraps, and the
    derived-variant expansion that shares one budget with percent decoding. */
module Base64 {
  import opened Bits
  import opened Seqs
  import Percent

  const PAD: byte := 0x3D
  const BASE64_MIN_LEN := 12

  function Sextet(c: byte): (r: Option<byte>)
    ensures r.Some? ==> r.value < 64
  {
    if 0x41 <= c <= 0x5A then Some(c - 0x41)
    else if 0x61 <= c <= 0x7A then Some(c - 0x61 + 26)
    else if 0x30 <= c <= 0x39 then Some(c - 0x30 + 52)
    else if c == 0x2B then Some(62)
    else if c == 0x2F then Some(63)
    else None
  }

  predicate Alphabet(s: seq<byte>) { forall i :: 0 <= i < |s| ==> Sextet(s[i]).Some? }

  /** `trim_end_matches('=')` */
  function Core(s: seq<byte>): (r: seq<byte>)
    ensures r <= s && (r == [] || r[|r| - 1] != PAD)
  {
    if s == [] || s[|s| - 1] != PAD then s else Core(s[..|s| - 1])
  }

  /** Bits left over from the characters read so far: a number of 0, 2, 4 or 6 bits. */
  datatype Carry = Carry(value: nat, bits: nat)

  predicate ValidCarry(c: Carry)
  {
    || (c.bits == 0 && c.value == 0)
    || (c.bits == 2 && c.value < 4)
    || (c.bits == 4 && c.value < 16)
    || (c.bits == 6 && c.value < 64)
  }

  /** Six more bits: at most one byte comes out. */
  function Feed(c: Carry, sextet: nat): (r: (seq<byte>, Carry))
    requires ValidCarry(c) && sextet < 64
    ensures ValidCarry(r.1) && 8 * |r.0| + r.1.bits == c.bits + 6
  {
    if c.bits == 0 then ([], Carry(sextet, 6))
    else if c.bits == 2 then ([c.value * 64 + sextet], Carry(0, 0))
    else if c.bits == 4 then ([(c.value * 64 + sextet) / 4], Carry(sextet % 4, 2))
    else ([(c.value * 64 + sextet) / 16], Carry(sextet % 16, 4))
  }

  function DecodeFrom(core: seq<byte>, c: Carry): Option<seq<byte>>
    requires ValidCarry(c)
    decreases |core|
  {
    if core == [] then Some([])
    else match Sextet(core[0])
      case None => None
      case Some(v) =>
        var (out, next) := Feed(c, v);
        Then(out, DecodeFrom(core[1..], next))
  }

  const NO_CARRY := Carry(0, 0)

  function Decode(s: seq<byte>): Option<seq<byte>> { DecodeFrom(Core(s), NO_CARRY) }

  // ---- the loop over the wrapping accumulator ----

  /** The accumulator's low bits are the carry; what is above them is stale. */
  ghost predicate Accumulates(buf: u32, bits: nat, c: Carry)
  {
    && ValidCarry(c) && bits == c.bits
    && (bits == 2 ==> buf % 4 == c.value)
    && (bits == 4 ==> buf % 16 == c.value)
    && (bits == 6 ==> buf % 64 == c.value)
  }

  method Base64Decode(s: seq<byte>) returns (r: Option<seq<byte>>)
    ensures r == Decode(s)
  {
    var core := Core(s);
    var out: seq<byte> := [];
    var buf: u32, bits := 0, 0;
    ghost var c := NO_CARRY;
    assert core[0..] == core && (forall t: seq<byte> :: [] + t == t);
    for i := 0 to |core|
      invariant Accumulates(buf, bits, c)
      invariant Decode(s) == Then(out, DecodeFrom(core[i..], c))
    {
      assert core[i..][1..] == core[i + 1..];
      var v := Sextet(core[i]);
      if v == None { return None; }
      ghost var (produced, next) := Feed(c, v.value);
      ThenTwice(out, produced, DecodeFrom(core[i + 1..], next));
      var more;
      buf, bits, more := FeedBits(buf, bits, v.value, c);
      out := out + more;
      c := next;
    }
    assert core[|core|..] == [] && out + [] == out;
    return Some(out);
  }

  /** One turn of the loop: six bits in, and a byte out when eight are there. */
  method FeedBits(buf: u32, bits: nat, v: byte, ghost c: Carry) returns (buf': u32, bits': nat, out: seq<byte>)
    requires v < 64 && Accumulates(buf, bits, c)
    ensures Accumulates(buf', bits', Feed(c, v).1) && out == Feed(c, v).0
  {
    buf' := PushSextet(buf, v);
    bits' := bits + 6;
    out := [];
    LowBits(buf, c.value, v, bits);
    if bits' >= 8 {
      bits' := bits' - 8;
      SmallPowers();
      out := [(buf' / Pow2(bits')) % 0x100];
    }
  }

  lemma SmallPowers()
    ensures Pow2(0) == 1 && Pow2(2) == 4 && Pow2(4) == 16
  {
    assert Pow2(1) == 2 && Pow2(3) == 8;
  }

  /** `(buf << 6) | v` in 32 bits. */
  method PushSextet(buf: u32, v: byte) returns (r: u32)
    requires v < 64
    ensures r == 64 * (buf % 0x400_0000) + v
  {
    assert Pow2(6) == 64;
    assert Pow2(32) == U32_MOD by { PowersUsed(); }
    var shifted := Shl(buf, 6, 32);
    ShiftedOut(buf);
    OrCommutes(shifted, v);
    OrDisjoint(v, buf % 0x400_0000, 6);
    r := Or(shifted, v);
  }

  lemma ShiftedOut(buf: u32)
    ensures (buf * 64) % U32_MOD == (buf % 0x400_0000) * 64
  {
    var high, low := buf / 0x400_0000, buf % 0x400_0000;
    assert buf * 64 == high * U32_MOD + low * 64;
  }

  /** What the shifted accumulator holds in its low bits, for each number of carried bits. */
  lemma LowBits(before: u32, value: nat, v: byte, bits: nat)
    requires v < 64 && Accumulates(before, bits, Carry(value, bits))
    ensures var q := before % 0x400_0000;
            var buf := 64 * q + v;
            && (bits == 2 ==> q == 4 * (q / 4) + value) && (bits == 4 ==> q == 16 * (q / 16) + value)
            && (bits == 6 ==> q == 64 * (q / 64) + value)
            && (bits == 0 ==> buf % 64 == v)
            && (bits == 2 ==> buf % 0x100 == value * 64 + v)
            && (bits == 4 ==> (buf / 4) % 0x100 == (value * 64 + v) / 4 && buf % 4 == v % 4)
            && (bits == 6 ==> (buf / 16) % 0x100 == (value * 64 + v) / 16 && buf % 16 == v % 16)
  {
    LowOf(before);
    var q := before % 0x400_0000;
    if bits == 0 {
      SextetByte(q, v);
    } else if bits == 2 {
      WholeByte(q / 4, value, v);
    } else if bits == 4 {
      QuarterByte(q / 16, value, v);
    } else {
      SixteenthByte(q / 64, value, v);
    }
  }

  lemma SextetByte(k: nat, v: nat)
    requires v < 64
    ensures (64 * k + v) % 64 == v
  {
  }

  lemma WholeByte(k: nat, value: nat, v: nat)
    requires value < 4 && v < 64
    ensures (64 * (4 * k + value) + v) % 0x100 == value * 64 + v
  {
    assert 64 * (4 * k + value) + v == 0x100 * k + (value * 64 + v);
  }

  lemma LowOf(before: nat)
    ensures var q := before % 0x400_0000; q % 4 == before % 4 && q % 16 == before % 16 && q % 64 == before % 64
  {
    var h, q := before / 0x400_0000, before % 0x400_0000;
    LowTwo(h, q);
    LowFour(h, q);
    LowSix(h, q);
  }

  lemma LowTwo(h: nat, q: nat)
    ensures (0x400_0000 * h + q) % 4 == q % 4
  {
    assert 0x400_0000 * h + q == 4 * (0x100_0000 * h) + q;
  }

  lemma LowFour(h: nat, q: nat)
    ensures (0x400_0000 * h + q) % 16 == q % 16
  {
    assert 0x400_0000 * h + q == 16 * (0x40_0000 * h) + q;
  }

  lemma LowSix(h: nat, q: nat)
    ensures (0x400_0000 * h + q) % 64 == q % 64
  {
    assert 0x400_0000 * h + q == 64 * (0x10_0000 * h) + q;
  }

  lemma QuarterByte(k: nat, value: nat, v: nat)
    requires value < 16 && v < 64
    ensures ((64 * (16 * k + value) + v) / 4) % 0x100 == (value * 64 + v) / 4
    ensures (64 * (16 * k + value) + v) % 4 == v % 4
  {
    QuarterOf(k, value * 64 + v);
    RestOfQuarter(value, v);
  }

  lemma QuarterOf(k: nat, y: nat)
    requires y < 0x400
    ensures ((0x400 * k + y) / 4) % 0x100 == y / 4 && (0x400 * k + y) % 4 == y % 4
  {
    var h, l := y / 4, y % 4;
    assert 0x400 * k + y == 4 * (0x100 * k + h) + l;
  }

  lemma RestOfQuarter(value: nat, v: nat)
    ensures (value * 64 + v) % 4 == v % 4
  {
    assert value * 64 + v == 4 * (16 * value) + v;
  }

  lemma SixteenthByte(k: nat, value: nat, v: nat)
    requires value < 64 && v < 64
    ensures ((64 * (64 * k + value) + v) / 16) % 0x100 == (value * 64 + v) / 16
    ensures (64 * (64 * k + value) + v) % 16 == v % 16
  {
    SixteenthOf(k, value * 64 + v);
    RestOfSixteenth(value, v);
  }

  lemma SixteenthOf(k: nat, y: nat)
    requires y < 0x1000
    ensures ((0x1000 * k + y) / 16) % 0x100 == y / 16 && (0x1000 * k + y) % 16 == y % 16
  {
    var h, l := y / 16, y % 16;
    assert 0x1000 * k + y == 16 * (0x100 * k + h) + l;
  }

  lemma RestOfSixteenth(value: nat, v: nat)
    ensures (value * 64 + v) % 16 == v % 16
  {
    assert value * 64 + v == 16 * (4 * value) + v;
  }

  // ---- which strings decode, and to what length ----

  lemma {:induction false} DecodesIffAlphabet(core: seq<byte>, c: Carry)
    requires ValidCarry(c)
    ensures DecodeFrom(core, c).Some? <==> Alphabet(core)
    ensures DecodeFrom(core, c).Some? ==> |DecodeFrom(core, c).value| == (6 * |core| + c.bits) / 8
    decreases |core|
  {
    if core != [] {
      assert Alphabet(core) <==> Sextet(core[0]).Some? && Alphabet(core[1..]) by {
        assert core == [core[0]] + core[1..];
      }
      if Sextet(core[0]).Some? {
        DecodesIffAlphabet(core[1..], Feed(c, Sextet(core[0]).value).1);
      }
    }
  }

  predicate IsCandidate(s: seq<byte>, minLen: nat)
  {
    |s| >= minLen && (var core := Core(s); core != [] && |core| % 4 != 1 && Alphabet(core))
  }

  /** A string decodes exactly when it is of the alphabet up to its padding, to six bits a
      character; every candidate decodes, to at least one byte. */
  lemma DecodedLength(s: seq<byte>, minLen: nat)
    ensures Decode(s).Some? <==> Alphabet(Core(s))
    ensures Decode(s).Some? ==> |Decode(s).value| == 6 * |Core(s)| / 8
    ensures IsCandidate(s, minLen) ==> Decode(s).Some? && Decode(s).value != []
  {
    DecodesIffAlphabet(Core(s), NO_CARRY);
  }

  // ---- the encoding and the round trip ----

  function Letter(v: nat): (c: byte)
    requires v < 64
    ensures Sextet(c) == Some(v) && c != PAD
  {
    if v < 26 then 0x41 + v else if v < 52 then 0x61 + (v - 26) else if v < 62 then 0x30 + (v - 52)
    else if v == 62 then 0x2B else 0x2F
  }

  function Quantum(a: byte, b: byte, c: byte): seq<byte>
  {
    [Letter(a / 4), Letter(a % 4 * 16 + b / 16), Letter(b % 16 * 4 + c / 64), Letter(c % 64)]
  }

  /** Encoding without padding; the last group is completed with zero bits. */
  function EncodeCore(b: seq<byte>): seq<byte>
    decreases |b|
  {
    if |b| == 0 then []
    else if |b| == 1 then Quantum(b[0], 0, 0)[..2]
    else if |b| == 2 then Quantum(b[0], b[1], 0)[..3]
    else Quantum(b[0], b[1], b[2]) + EncodeCore(b[3..])
  }

  function Padding(n: nat): seq<byte> { if n % 3 == 1 then [PAD, PAD] else if n % 3 == 2 then [PAD] else [] }

  lemma DecodeStep(core: seq<byte>, c: Carry, v: nat, rest: seq<byte>)
    requires ValidCarry(c) && v < 64 && core == [Letter(v)] + rest
    ensures DecodeFrom(core, c) == Then(Feed(c, v).0, DecodeFrom(rest, Feed(c, v).1))
  {
    assert core[1..] == rest;
  }

  lemma DecodeTwo(a: byte, b: byte, rest: seq<byte>)
    ensures DecodeFrom([Letter(a / 4), Letter(a % 4 * 16 + b / 16)] + rest, NO_CARRY)
      == Then([a], DecodeFrom(rest, Carry(b / 16, 4)))
  {
    var l0, l1 := Letter(a / 4), Letter(a % 4 * 16 + b / 16);
    assert [l0, l1] + rest == [l0] + ([l1] + rest);
    DecodeStep([l0] + ([l1] + rest), NO_CARRY, a / 4, [l1] + rest);
    DecodeStep([l1] + rest, Carry(a / 4, 6), a % 4 * 16 + b / 16, rest);
    SecondByte(a, b);
    NothingFirst(DecodeFrom([l1] + rest, Carry(a / 4, 6)));
  }

  lemma SecondByte(a: byte, b: byte)
    ensures Feed(Carry(a / 4, 6), a % 4 * 16 + b / 16) == ([a], Carry(b / 16, 4))
  {
    var sum := a / 4 * 64 + (a % 4 * 16 + b / 16);
    assert sum == 16 * a + b / 16;
  }

  lemma DecodeThird(b: byte, c: byte, rest: seq<byte>)
    ensures DecodeFrom([Letter(b % 16 * 4 + c / 64)] + rest, Carry(b / 16, 4))
      == Then([b], DecodeFrom(rest, Carry(c / 64, 2)))
  {
    DecodeStep([Letter(b % 16 * 4 + c / 64)] + rest, Carry(b / 16, 4), b % 16 * 4 + c / 64, rest);
    assert Feed(Carry(b / 16, 4), b % 16 * 4 + c / 64) == ([b], Carry(c / 64, 2));
  }

  lemma DecodeFourth(c: byte, rest: seq<byte>)
    ensures DecodeFrom([Letter(c % 64)] + rest, Carry(c / 64, 2))
      == Then([c], DecodeFrom(rest, NO_CARRY))
  {
    DecodeStep([Letter(c % 64)] + rest, Carry(c / 64, 2), c % 64, rest);
    assert Feed(Carry(c / 64, 2), c % 64) == ([c], NO_CARRY);
  }

  lemma {:induction false} DecodeEncodedCore(b: seq<byte>)
    ensures DecodeFrom(EncodeCore(b), NO_CARRY) == Some(b)
    decreases |b|
  {
    if |b| == 1 {
      DecodeTwo(b[0], 0, []);
      var two := [Letter(b[0] / 4), Letter(b[0] % 4 * 16 + 0 / 16)];
      assert two + [] == two && EncodeCore(b) == two && [b[0]] + [] == b;
    } else if |b| == 2 {
      PairDecodes(b[0], b[1]);
      assert b == [b[0], b[1]];
    } else if |b| >= 3 {
      DecodeEncodedCore(b[3..]);
      QuantumDecodes(b[0], b[1], b[2], EncodeCore(b[3..]));
      assert [b[0], b[1], b[2]] + b[3..] == b;
    }
  }

  lemma PairDecodes(a: byte, b: byte)
    ensures DecodeFrom(Quantum(a, b, 0)[..3], NO_CARRY) == Some([a, b])
  {
    var third := [Letter(b % 16 * 4 + 0 / 64)];
    DecodeTwo(a, b, third);
    DecodeThird(b, 0, []);
    assert third + [] == third;
    assert Quantum(a, b, 0)[..3] == [Letter(a / 4), Letter(a % 4 * 16 + b / 16)] + third;
    assert [a] + ([b] + []) == [a, b];
  }

  lemma QuantumDecodes(a: byte, b: byte, c: byte, rest: seq<byte>)
    requires DecodeFrom(rest, NO_CARRY).Some?
    ensures DecodeFrom(Quantum(a, b, c) + rest, NO_CARRY) == Some([a, b, c] + DecodeFrom(rest, NO_CARRY).value)
  {
    var out := DecodeFrom(rest, NO_CARRY).value;
    var fourth := [Letter(c % 64)] + rest;
    var third := [Letter(b % 16 * 4 + c / 64)] + fourth;
    FourLetters(Letter(a / 4), Letter(a % 4 * 16 + b / 16), Letter(b % 16 * 4 + c / 64), Letter(c % 64), rest);
    DecodeTwo(a, b, third);
    DecodeThird(b, c, fourth);
    DecodeFourth(c, rest);
    ThreeBytes(a, b, c, out);
  }

  lemma FourLetters(w: byte, x: byte, y: byte, z: byte, rest: seq<byte>)
    ensures [w, x, y, z] + rest == [w, x] + ([y] + ([z] + rest))
  {
  }

  lemma ThreeBytes(a: byte, b: byte, c: byte, out: seq<byte>)
    ensures [a] + ([b] + ([c] + out)) == [a, b, c] + out
  {
  }

  lemma {:induction false} EncodedIsUnpadded(b: seq<byte>)
    ensures forall i :: 0 <= i < |EncodeCore(b)| ==> EncodeCore(b)[i] != PAD
    decreases |b|
  {
    if |b| >= 3 { EncodedIsUnpadded(b[3..]); }
  }

  lemma {:induction false} CoreOfPadded(s: seq<byte>, pads: seq<byte>)
    requires s == [] || s[|s| - 1] != PAD
    requires forall i :: 0 <= i < |pads| ==> pads[i] == PAD
    ensures Core(s + pads) == s
    decreases |pads|
  {
    if pads == [] {
      assert s + pads == s;
    } else {
      CoreOfPadded(s, pads[..|pads| - 1]);
      assert (s + pads)[..|s + pads| - 1] == s + pads[..|pads| - 1];
    }
  }

  /** What the gate asks of a string of the alphabet with any padding: a core that is not empty and
      not one letter more than whole groups. The whole length may be any number, padding or not. */
  lemma CandidateIff(core: seq<byte>, pads: seq<byte>, minLen: nat)
    requires Alphabet(core) && forall i :: 0 <= i < |pads| ==> pads[i] == PAD
    ensures IsCandidate(core + pads, minLen) <==> |core| > 0 && |core| % 4 != 1 && |core| + |pads| >= minLen
  {
    CoreOfPadded(core, pads);
  }

  /** So every length from two on is the length of a candidate, and no other: five letters of which
      two are padding, say, or six without any. */
  lemma CandidateLengths(n: nat, minLen: nat)
    ensures (exists s: seq<byte> :: |s| == n && IsCandidate(s, minLen)) <==> n >= 2 && n >= minLen
  {
    if n >= 2 && n >= minLen {
      var pads := if n % 4 == 1 then [PAD, PAD] else [];
      var core := seq(n - |pads|, _ => 0x41);
      CandidateIff(core, pads, minLen);
      assert |core + pads| == n;
    }
  }

  lemma UnpaddedDecodes(e: seq<byte>, b: seq<byte>)
    requires e == [] || e[|e| - 1] != PAD
    requires DecodeFrom(e, NO_CARRY) == Some(b)
    ensures Decode(e) == Some(b)
  {
  }

  lemma PaddedDecodes(e: seq<byte>, pads: seq<byte>, b: seq<byte>)
    requires e == [] || e[|e| - 1] != PAD
    requires forall i :: 0 <= i < |pads| ==> pads[i] == PAD
    requires DecodeFrom(e, NO_CARRY) == Some(b)
    ensures Decode(e + pads) == Some(b)
  {
    CoreOfPadded(e, pads);
  }

  lemma PaddingIsPads(n: nat)
    ensures forall i :: 0 <= i < |Padding(n)| ==> Padding(n)[i] == PAD
  {
  }

  lemma EndsUnpadded(b: seq<byte>, e: seq<byte>)
    requires e == EncodeCore(b)
    ensures e == [] || e[|e| - 1] != PAD
  {
    EncodedIsUnpadded(b);
  }

  lemma DecodesEitherWay(b: seq<byte>, e: seq<byte>, pads: seq<byte>)
    requires e == EncodeCore(b) && pads == Padding(|b|)
    ensures Decode(e) == Some(b) && Decode(e + pads) == Some(b)
  {
    assert DecodeFrom(e, NO_CARRY) == Some(b) by { DecodeEncodedCore(b); }
    EndsUnpadded(b, e);
    PaddingIsPads(|b|);
    UnpaddedDecodes(e, b);
    PaddedDecodes(e, pads, b);
  }

  /** Decoding inverts the standard encoding, padded or unpadded, for every byte string. */
  lemma Base64RoundTrip(b: seq<byte>)
    ensures Decode(EncodeCore(b)) == Some(b)
    ensures Decode(EncodeCore(b) + Padding(|b|)) == Some(b)
  {
    DecodesEitherWay(b, EncodeCore(b), Padding(|b|));
  }

  // ---- derived variants under the shared budget ----

  predicate Printable(c: byte) { c == 0x0D || c == 0x0A || c == 0x09 || 0x20 <= c <= 0x7E }

  function PrintableCount(b: seq<byte>): (n: nat)
    ensures n <= |b|
  {
    if b == [] then 0 else (if Printable(b[0]) then 1 else 0) + PrintableCount(b[1..])
  }

  predicate MostlyPrintable(b: seq<byte>) { b != [] && PrintableCount(b) * 100 >= 90 * |b| }

  lemma WholePercent(p: nat, n: nat)
    requires n > 0
    ensures p / n >= 90 <==> p >= 90 * n
  {
    var q, r := p / n, p % n;
    assert p == q * n + r;
    if q >= 90 { AtLeast(90, q, n); } else { AtLeast(q, 89, n); }
  }

  lemma AtLeast(a: nat, b: nat, n: nat)
    requires a <= b
    ensures a * n <= b * n
  {
  }

  method IsMostlyPrintable(b: seq<byte>) returns (r: bool)
    ensures r == MostlyPrintable(b)
  {
    if b == [] { return false; }
    WholePercent(PrintableCount(b) * 100, |b|);
    r := PrintableCount(b) * 100 / |b| >= 90;
  }

  /** The decoded text of a value worth expanding. */
  function Expandable(value: seq<byte>): Option<seq<byte>>
  {
    if !IsCandidate(value, BASE64_MIN_LEN) then None
    else match Decode(value)
      case None => None
      case Some(decoded) => if MostlyPrintable(decoded) then Some(decoded) else None
  }

  datatype Expansion = Expansion(pushed: seq<seq<byte>>, left: nat, passes: nat)

  /** `toText` stands for lossy UTF-8 decoding followed by NFKC normalization. */
  function Expand(value: seq<byte>, budget: nat, toText: seq<byte> -> seq<byte>): Expansion
    decreases budget, 0
  {
    if budget == 0 then Expansion([], 0, 0)
    else match Expandable(value)
      case None => Expansion([], budget, 0)
      case Some(decoded) => ExpandFrom(decoded, budget - 1, toText)
  }

  /** What a decoded value adds: the variants nested in it, then its own text. */
  function ExpandFrom(decoded: seq<byte>, budget: nat, toText: seq<byte> -> seq<byte>): Expansion
    decreases budget, 1
  {
    var (bytes, left) := Percent.Fixpoint(decoded, false, budget);
    var inner := Expand(toText(bytes), left, toText);
    Expansion(inner.pushed + [toText(bytes)], inner.left, inner.passes + (budget - left))
  }

  method ExpandBase64(value: seq<byte>, budget: nat, out: seq<seq<byte>>, toText: seq<byte> -> seq<byte>)
    returns (left: nat, out': seq<seq<byte>>)
    ensures out' == out + Expand(value, budget, toText).pushed
    ensures left == Expand(value, budget, toText).left
    decreases budget, 0
  {
    left, out' := budget, out;
    assert out + [] == out;
    if budget == 0 { return; }
    var decoded := DecodeCandidate(value);
    if decoded == None { return; }
    left, out' := ExpandDecoded(decoded.value, budget - 1, out, toText);
  }

  method DecodeCandidate(value: seq<byte>) returns (r: Option<seq<byte>>)
    ensures r == Expandable(value)
  {
    if !IsCandidate(value, BASE64_MIN_LEN) { return None; }
    r := Base64Decode(value);
    if r.Some? {
      var printable := IsMostlyPrintable(r.value);
      if !printable { r := None; }
    }
  }

  /** A decoded value: canonicalized under the same budget, then searched for nested base64. */
  method ExpandDecoded(decoded: seq<byte>, budget: nat, out: seq<seq<byte>>, toText: seq<byte> -> seq<byte>)
    returns (left: nat, out': seq<seq<byte>>)
    ensures out' == out + ExpandFrom(decoded, budget, toText).pushed
    ensures left == ExpandFrom(decoded, budget, toText).left
    decreases budget, 1
  {
    var bytes, passes, rest := Percent.PercentOverlongFixpoint(decoded, false, budget);
    var canon := toText(bytes);
    left, out' := ExpandBase64(canon, rest, out, toText);
    Assoc(out, Expand(canon, rest, toText).pushed, [canon]);
    out' := out' + [canon];
  }

  /** Budget is neither created nor lost: every unit pays for one decoding pass or one pushed
      variant, so no chain of encodings yields more than the cap of them together. */
  lemma {:induction false} BudgetIsConserved(value: seq<byte>, budget: nat, toText: seq<byte> -> seq<byte>)
    ensures var e := Expand(value, budget, toText);
            e.left + e.passes + |e.pushed| == budget
    decreases budget
  {
    if budget > 0 && Expandable(value).Some? {
      var (bytes, left) := Percent.Fixpoint(Expandable(value).value, false, budget - 1);
      BudgetIsConserved(toText(bytes), left, toText);
    }
  }
}
