/** The Proxy-Wasm header-map wire format: a pair count, a table of sizes, then the
    NUL-terminated contents, all numbers 32-bit little-endian. */
module HeaderMap {
  import opened Bits
  import opened Seqs

  type Header = (seq<byte>, seq<byte>)
  type Sizes = (nat, nat)

  /** `(n as u32).to_le_bytes()`: the high bits of a larger number are lost. */
  function Le32(n: nat): (b: seq<byte>)
    ensures |b| == 4
  {
    var w := n % U32_MOD;
    [w % 0x100, w / 0x100 % 0x100, w / 0x1_0000 % 0x100, w / 0x100_0000]
  }

  function Word(b: seq<byte>): u32
    requires |b| >= 4
  {
    (b[0] as int) + (b[1] as int) * 0x100 + (b[2] as int) * 0x1_0000 + (b[3] as int) * 0x100_0000
  }

  lemma WordOfLe32(n: nat)
    requires n < U32_MOD
    ensures Word(Le32(n)) == n
  {
    SmallWord(n);
    FourBytes(n);
  }

  lemma SmallWord(n: nat)
    requires n < U32_MOD
    ensures n % U32_MOD == n
  {
  }

  lemma FourBytes(w: nat)
    ensures w == w % 0x100 + w / 0x100 % 0x100 * 0x100 + w / 0x1_0000 % 0x100 * 0x1_0000 + w / 0x100_0000 * 0x100_0000
  {
    NextByte(w, 0x100);
    NextByte(w, 0x1_0000);
  }

  /** A quotient by a unit splits off its lowest byte. */
  lemma NextByte(w: nat, unit: nat)
    requires unit == 0x100 || unit == 0x1_0000
    ensures w / unit == w / unit % 0x100 + w / (unit * 0x100) * 0x100
  {
    if unit == 0x100 { ByteTwice(w); } else { ByteThrice(w); }
  }

  lemma ByteTwice(w: nat)
    ensures w / 0x100 / 0x100 == w / 0x1_0000
  {
  }

  lemma ByteThrice(w: nat)
    ensures w / 0x1_0000 / 0x100 == w / 0x100_0000
  {
  }

  lemma LowDigit(low: nat, high: nat)
    requires low < 0x100
    ensures (low + 0x100 * high) % 0x100 == low && (low + 0x100 * high) / 0x100 == high
  {
  }

  lemma FourDigits(b0: nat, b1: nat, b2: nat, b3: nat, w: nat)
    requires b0 < 0x100 && b1 < 0x100 && b2 < 0x100 && b3 < 0x100
    requires w == b0 + b1 * 0x100 + b2 * 0x1_0000 + b3 * 0x100_0000
    ensures w < U32_MOD && w % 0x100 == b0 && w / 0x100 % 0x100 == b1 && w / 0x1_0000 % 0x100 == b2
      && w / 0x100_0000 == b3
  {
    var h2 := b2 + 0x100 * b3;
    var h1 := b1 + 0x100 * h2;
    LowDigit(b0, h1);
    LowDigit(b1, h2);
    LowDigit(b2, b3);
    ByteTwice(w);
    ByteThrice(w);
  }

  lemma Le32OfWord(b: seq<byte>)
    requires |b| >= 4
    ensures Le32(Word(b)) == b[..4]
  {
    FourDigits(b[0], b[1], b[2], b[3], Word(b));
    SmallWord(Word(b));
  }

  lemma WordIff(b: seq<byte>, n: nat)
    requires |b| >= 4
    ensures Word(b) == n <==> n < U32_MOD && b[..4] == Le32(n)
  {
    Le32OfWord(b);
    if n < U32_MOD { WordOfLe32(n); }
  }

  // ---- the encoding ----

  function SizesOf(pairs: seq<Header>): (r: seq<Sizes>)
    ensures |r| == |pairs|
  {
    seq(|pairs|, i requires 0 <= i < |pairs| => (|pairs[i].0|, |pairs[i].1|))
  }

  function SizeTable(sizes: seq<Sizes>): seq<byte>
  {
    if sizes == [] then [] else Le32(sizes[0].0) + Le32(sizes[0].1) + SizeTable(sizes[1..])
  }

  function Content(p: Header): seq<byte> { p.0 + [0] + p.1 + [0] }

  function Contents(pairs: seq<Header>): seq<byte>
  {
    if pairs == [] then [] else Content(pairs[0]) + Contents(pairs[1..])
  }

  function Encode(pairs: seq<Header>): seq<byte>
  {
    Le32(|pairs|) + SizeTable(SizesOf(pairs)) + Contents(pairs)
  }

  method EncodeHeaderMapPairs(pairs: seq<Header>) returns (out: seq<byte>)
    ensures out == Encode(pairs)
  {
    out := Le32(|pairs|);
    ghost var sizes := SizesOf(pairs);
    for i := 0 to |pairs|
      invariant out + SizeTable(sizes[i..]) == Le32(|pairs|) + SizeTable(sizes)
    {
      assert sizes[i..][1..] == sizes[i + 1..];
      Assoc(out, Le32(|pairs[i].0|) + Le32(|pairs[i].1|), SizeTable(sizes[i + 1..]));
      Assoc(out, Le32(|pairs[i].0|), Le32(|pairs[i].1|));
      out := out + Le32(|pairs[i].0|) + Le32(|pairs[i].1|);
    }
    for i := 0 to |pairs|
      invariant out + Contents(pairs[i..]) == Encode(pairs)
    {
      assert pairs[i..][1..] == pairs[i + 1..];
      Assoc(out, Content(pairs[i]), Contents(pairs[i + 1..]));
      out := AppendContent(out, pairs[i]);
    }
  }

  method AppendContent(prefix: seq<byte>, p: Header) returns (out: seq<byte>)
    ensures out == prefix + Content(p)
  {
    out := prefix + p.0;
    out := out + [0];
    out := out + p.1;
    out := out + [0];
  }

  // ---- the decoding ----

  type Table = Front<Sizes, byte>

  function TakeSizes(b: seq<byte>, n: nat): Option<Table>
    decreases n
  {
    if n == 0 then Some(Front([], b))
    else if |b| < 8 then None
    else AheadIfAny([(Word(b), Word(b[4..]))], TakeSizes(b[8..], n - 1))
  }

  predicate PairFits(b: seq<byte>, s: Sizes)
  {
    s.0 + s.1 + 2 <= |b| && b[s.0] == 0 && b[s.0 + 1 + s.1] == 0
  }

  function PairAt(b: seq<byte>, s: Sizes): Header
    requires PairFits(b, s)
  {
    (b[..s.0], b[s.0 + 1..s.0 + 1 + s.1])
  }

  function TakePairs(b: seq<byte>, sizes: seq<Sizes>): Option<seq<Header>>
    decreases |sizes|
  {
    if sizes == [] then Some([])
    else if !PairFits(b, sizes[0]) then None
    else Then([PairAt(b, sizes[0])], TakePairs(b[sizes[0].0 + sizes[0].1 + 2..], sizes[1..]))
  }

  function Decode(buf: seq<byte>): Option<seq<Header>>
  {
    if |buf| < 4 then None
    else match TakeSizes(buf[4..], Word(buf))
      case None => None
      case Some(Front(sizes, rest)) => TakePairs(rest, sizes)
  }

  method ReadU32(b: seq<byte>, off: nat) returns (r: Option<u32>)
    ensures r == if off + 4 <= |b| then Some(Word(b[off..])) else None
  {
    if off + 4 > |b| { return None; }
    return Some(Word(b[off..off + 4]));
  }

  method DecodeHeaderMapPairs(buf: seq<byte>) returns (r: Option<seq<Header>>)
    ensures r == Decode(buf)
  {
    var num := ReadU32(buf, 0);
    assert buf[0..] == buf;
    if num == None { return None; }
    var sizes, off := ReadSizes(buf, num.value);
    if sizes == None { return None; }
    r := ReadPairs(buf, off, sizes.value);
  }

  method ReadSizes(buf: seq<byte>, num: nat) returns (r: Option<seq<Sizes>>, off: nat)
    requires |buf| >= 4
    ensures match TakeSizes(buf[4..], num)
            case None => r == None
            case Some(t) => r == Some(t.read) && off <= |buf| && buf[off..] == t.rest
  {
    var sizes: seq<Sizes> := [];
    off := 4;
    NothingAhead(TakeSizes(buf[4..], num));
    for i := 0 to num
      invariant 4 <= off <= |buf|
      invariant TakeSizes(buf[4..], num) == AheadIfAny(sizes, TakeSizes(buf[off..], num - i))
    {
      ghost var here := buf[off..];
      var kl := ReadU32(buf, off);
      if kl == None { return None, off; }
      var vl := ReadU32(buf, off + 4);
      assert here[4..] == buf[off + 4..];
      if vl == None { return None, off; }
      assert here[8..] == buf[off + 8..];
      AheadIfAnyTwice(sizes, [(kl.value, vl.value)], TakeSizes(buf[off + 8..], num - i - 1));
      off := off + 8;
      sizes := sizes + [(kl.value, vl.value)];
    }
    assert sizes + [] == sizes;
    r := Some(sizes);
  }

  method ReadPairs(buf: seq<byte>, start: nat, sizes: seq<Sizes>) returns (r: Option<seq<Header>>)
    requires start <= |buf|
    ensures r == TakePairs(buf[start..], sizes)
  {
    var out: seq<Header> := [];
    var off := start;
    NothingFirst(TakePairs(buf[start..], sizes));
    for i := 0 to |sizes|
      invariant 0 <= off <= |buf|
      invariant TakePairs(buf[start..], sizes) == Then(out, TakePairs(buf[off..], sizes[i..]))
    {
      var pair, next := ReadPair(buf, off, sizes[i].0, sizes[i].1);
      if pair == None { return None; }
      PairStep(buf, off, sizes, i, next);
      ThenTwice(out, [pair.value], TakePairs(buf[next..], sizes[i + 1..]));
      off := next;
      out := out + [pair.value];
    }
    assert out + [] == out;
    r := Some(out);
  }

  lemma PairStep(buf: seq<byte>, off: nat, sizes: seq<Sizes>, i: nat, next: nat)
    requires off <= |buf| && i < |sizes| && PairFits(buf[off..], sizes[i])
    requires next == off + sizes[i].0 + sizes[i].1 + 2 <= |buf|
    ensures TakePairs(buf[off..], sizes[i..])
      == Then([PairAt(buf[off..], sizes[i])], TakePairs(buf[next..], sizes[i + 1..]))
  {
    assert sizes[i..][1..] == sizes[i + 1..];
    assert buf[off..][sizes[i].0 + sizes[i].1 + 2..] == buf[next..];
  }

  method ReadPair(buf: seq<byte>, start: nat, kl: nat, vl: nat) returns (pair: Option<Header>, next: nat)
    requires start <= |buf|
    ensures if PairFits(buf[start..], (kl, vl)) then
              pair == Some(PairAt(buf[start..], (kl, vl))) && next == start + kl + vl + 2
            else pair == None
    ensures pair.Some? ==> next <= |buf|
  {
    next := start;
    if next + kl > |buf| { return None, next; }
    var key := buf[next..next + kl];
    next := next + kl;
    if next >= |buf| || buf[next] != 0 { return None, next; }
    next := next + 1;
    if next + vl > |buf| { return None, next; }
    var val := buf[next..next + vl];
    next := next + vl;
    if next >= |buf| || buf[next] != 0 { return None, next; }
    next := next + 1;
    ghost var here := buf[start..];
    assert here[..kl] == key && here[kl + 1..kl + 1 + vl] == val;
    pair := Some((key, val));
  }

  // ---- decoding is the exact inverse of encoding ----

  predicate SizesFit(sizes: seq<Sizes>)
  {
    forall i :: 0 <= i < |sizes| ==> sizes[i].0 < U32_MOD && sizes[i].1 < U32_MOD
  }

  predicate Fits(pairs: seq<Header>) { |pairs| < U32_MOD && SizesFit(SizesOf(pairs)) }

  lemma EntryIff(b: seq<byte>, s: Sizes, more: seq<byte>)
    requires |b| >= 8
    ensures (Word(b), Word(b[4..])) == s && b[8..] == more
      <==> s.0 < U32_MOD && s.1 < U32_MOD && b == Le32(s.0) + Le32(s.1) + more
  {
    WordIff(b, s.0);
    WordIff(b[4..], s.1);
    var entry := Le32(s.0) + Le32(s.1);
    if b == entry + more {
      assert b[..4] == Le32(s.0) && b[4..][..4] == Le32(s.1) && b[8..] == more;
    }
    if b[..4] == Le32(s.0) && b[4..][..4] == Le32(s.1) && b[8..] == more {
      assert b == b[..4] + b[4..][..4] + b[8..];
    }
  }

  lemma {:induction false} SizesIff(b: seq<byte>, n: nat, sizes: seq<Sizes>, rest: seq<byte>)
    ensures TakeSizes(b, n) == Some(Front(sizes, rest))
      <==> |sizes| == n && SizesFit(sizes) && b == SizeTable(sizes) + rest
    decreases n
  {
    if n == 0 {
      if sizes == [] { assert SizeTable(sizes) + rest == rest; }
    } else if sizes == [] {
    } else {
      var first, tail := sizes[0], sizes[1..];
      assert sizes == [first] + tail;
      var more := SizeTable(tail) + rest;
      assert SizeTable(sizes) + rest == Le32(first.0) + Le32(first.1) + more;
      if |b| >= 8 {
        SizesIff(b[8..], n - 1, tail, rest);
        EntryIff(b, first, more);
        SplitFirst(first, tail);
        TakeOne(b, n, sizes, rest);
      }
    }
  }

  lemma SplitFirst(first: Sizes, tail: seq<Sizes>)
    ensures SizesFit([first] + tail) <==> first.0 < U32_MOD && first.1 < U32_MOD && SizesFit(tail)
  {
    var sizes := [first] + tail;
    assert sizes[0] == first;
    assert forall i :: 0 <= i < |tail| ==> sizes[i + 1] == tail[i];
  }

  lemma TakeOne(b: seq<byte>, n: nat, sizes: seq<Sizes>, rest: seq<byte>)
    requires |b| >= 8 && n > 0 && sizes != []
    ensures TakeSizes(b, n) == Some(Front(sizes, rest))
      <==> (Word(b), Word(b[4..])) == sizes[0] && TakeSizes(b[8..], n - 1) == Some(Front(sizes[1..], rest))
  {
    var first := [(Word(b), Word(b[4..]))];
    var t := TakeSizes(b[8..], n - 1);
    if t.Some? {
      assert (first + t.value.read)[1..] == t.value.read;
      assert sizes == [sizes[0]] + sizes[1..];
    }
  }

  lemma ContentIff(b: seq<byte>, p: Header, more: seq<byte>)
    ensures PairFits(b, (|p.0|, |p.1|)) && PairAt(b, (|p.0|, |p.1|)) == p && more <= b[|p.0| + |p.1| + 2..]
      <==> Content(p) + more <= b
  {
    var k, v := |p.0|, |p.1|;
    if Content(p) + more <= b {
      var whole := Content(p) + more;
      assert b[..k] == whole[..k] == p.0 && b[k] == whole[k] && b[k + 1 + v] == whole[k + 1 + v];
      assert b[k + 1..k + 1 + v] == whole[k + 1..k + 1 + v] == p.1;
      assert whole[k + v + 2..] == more;
    }
    if PairFits(b, (k, v)) && PairAt(b, (k, v)) == p {
      assert b[..k + v + 2] == Content(p);
      assert b == Content(p) + b[k + v + 2..];
    }
  }

  lemma {:induction false} PairsIff(b: seq<byte>, sizes: seq<Sizes>, pairs: seq<Header>)
    ensures TakePairs(b, sizes) == Some(pairs) <==> SizesOf(pairs) == sizes && Contents(pairs) <= b
    decreases |sizes|
  {
    if sizes != [] && pairs != [] {
      if PairFits(b, sizes[0]) {
        PairsIff(b[sizes[0].0 + sizes[0].1 + 2..], sizes[1..], pairs[1..]);
      }
      PairsIffTail(b, sizes, pairs);
    }
  }

  lemma PairsIffTail(b: seq<byte>, sizes: seq<Sizes>, pairs: seq<Header>)
    requires sizes != [] && pairs != []
    requires PairFits(b, sizes[0]) ==> var more := b[sizes[0].0 + sizes[0].1 + 2..];
      TakePairs(more, sizes[1..]) == Some(pairs[1..]) <==>
      SizesOf(pairs[1..]) == sizes[1..] && Contents(pairs[1..]) <= more
    ensures TakePairs(b, sizes) == Some(pairs) <==> SizesOf(pairs) == sizes && Contents(pairs) <= b
  {
    SizesOfFirst(pairs, sizes);
    if sizes[0] == (|pairs[0].0|, |pairs[0].1|) {
      ContentIff(b, pairs[0], Contents(pairs[1..]));
    }
    if PairFits(b, sizes[0]) { TakeFirst(b, sizes, pairs); }
  }

  lemma SizesOfFirst(pairs: seq<Header>, sizes: seq<Sizes>)
    requires pairs != [] && sizes != []
    ensures SizesOf(pairs) == sizes <==> sizes[0] == (|pairs[0].0|, |pairs[0].1|) && SizesOf(pairs[1..]) == sizes[1..]
  {
    assert sizes == [sizes[0]] + sizes[1..];
    assert SizesOf(pairs) == [(|pairs[0].0|, |pairs[0].1|)] + SizesOf(pairs[1..]);
  }

  lemma TakeFirst(b: seq<byte>, sizes: seq<Sizes>, pairs: seq<Header>)
    requires sizes != [] && pairs != [] && PairFits(b, sizes[0])
    ensures TakePairs(b, sizes) == Some(pairs)
      <==> PairAt(b, sizes[0]) == pairs[0] &&
           TakePairs(b[sizes[0].0 + sizes[0].1 + 2..], sizes[1..]) == Some(pairs[1..])
  {
    var first := [PairAt(b, sizes[0])];
    var t := TakePairs(b[sizes[0].0 + sizes[0].1 + 2..], sizes[1..]);
    if t.Some? {
      assert (first + t.value)[1..] == t.value;
      assert pairs == [pairs[0]] + pairs[1..];
    }
  }

  /** A buffer decodes to these pairs exactly when their sizes are 32-bit and the buffer starts
      with their encoding. */
  lemma DecodesIffEncoded(buf: seq<byte>, pairs: seq<Header>)
    ensures Decode(buf) == Some(pairs) <==> Fits(pairs) && Encode(pairs) <= buf
  {
    if |buf| >= 4 {
      if Decode(buf) == Some(pairs) { DecodedIsEncoded(buf, pairs); }
      if Fits(pairs) && Encode(pairs) <= buf { EncodedDecodes(buf, pairs); }
    }
  }

  lemma DecodedIsEncoded(buf: seq<byte>, pairs: seq<Header>)
    requires Decode(buf) == Some(pairs)
    ensures Fits(pairs) && Encode(pairs) <= buf
  {
    var t := TakeSizes(buf[4..], Word(buf)).value;
    PairsIff(t.rest, t.read, pairs);
    SizesIff(buf[4..], Word(buf), t.read, t.rest);
    WordIff(buf, |pairs|);
    assert buf == buf[..4] + buf[4..];
    var head, table := Le32(|pairs|), SizeTable(SizesOf(pairs));
    assert buf == head + (table + t.rest);
    assert t.rest == Contents(pairs) + t.rest[|Contents(pairs)|..];
    PrefixOfRest(head, table, Contents(pairs), t.rest);
  }

  lemma PrefixOfRest(a: seq<byte>, b: seq<byte>, c: seq<byte>, rest: seq<byte>)
    requires c <= rest
    ensures a + b + c <= a + (b + rest)
  {
  }

  lemma EncodedDecodes(buf: seq<byte>, pairs: seq<Header>)
    requires |buf| >= 4 && Fits(pairs) && Encode(pairs) <= buf
    ensures Decode(buf) == Some(pairs)
  {
    var head, table, whole := Le32(|pairs|), SizeTable(SizesOf(pairs)), Encode(pairs);
    var rest := buf[4 + |table|..];
    assert buf[..4] == whole[..4] == head;
    WordIff(buf, |pairs|);
    assert buf[4..4 + |table|] == whole[4..4 + |table|] == table;
    assert buf[4..] == table + rest;
    SizesIff(buf[4..], |pairs|, SizesOf(pairs), rest);
    assert Contents(pairs) <= rest by { assert whole[4 + |table|..] == Contents(pairs); }
    PairsIff(rest, SizesOf(pairs), pairs);
  }

  /** The round trip holds exactly for maps whose count and sizes are 32-bit numbers. */
  lemma RoundTripIff(pairs: seq<Header>)
    ensures Decode(Encode(pairs)) == Some(pairs) <==> Fits(pairs)
  {
    DecodesIffEncoded(Encode(pairs), pairs);
  }
}
