/** gRPC de-framing and the schema-less protobuf walk.
    `Deframe` and `Walk` specify the extractor; the class below computes them in place. */
module Grpc {
  import opened Bits
  import opened Seqs
  import Utf8

  datatype Limits = Limits(maxDepth: u32, maxFields: u32, maxLeaves: nat)

  datatype Stats = Stats(
    messages: u32,
    totalPayloadBytes: u64,
    maxMessageLen: u32,
    fields: u32,
    maxDepth: u32,
    depthExceeded: bool,
    fieldsExceeded: bool,
    compressed: bool,
    malformed: bool,
    leaves: seq<seq<byte>>)

  const EMPTY := Stats(0, 0, 0, 0, 0, false, false, false, false, [])

  function Sat32(x: nat): u32 { if x <= U32_MAX then x else U32_MAX }

  function Sat64(x: nat): u64 { if x <= U64_MAX then x else U64_MAX }

  // ---- varints ----

  datatype Varint = Varint(value: nat, size: nat)

  /** Base-128 number at the head of `b`, least significant group first, of at most `room` bytes. */
  function Base128(b: seq<byte>, room: nat): (r: Option<Varint>)
    ensures r.Some? ==> 1 <= r.value.size <= |b| && r.value.size <= room
    decreases room
  {
    if room == 0 || b == [] then None
    else if b[0] < 0x80 then Some(Varint(b[0], 1))
    else match Base128(b[1..], room - 1)
      case None => None
      case Some(v) => Some(Varint(b[0] % 0x80 + 0x80 * v.value, v.size + 1))
  }

  /** A varint is at most ten bytes long. */
  function Groups(b: seq<byte>): (r: Option<Varint>)
    ensures r.Some? ==> 1 <= r.value.size <= |b|
  {
    Base128(b, 10)
  }

  /** Only the low 64 bits of a varint are kept. */
  function VarintAt(b: seq<byte>): (r: Option<Varint>)
    ensures r.Some? ==> 1 <= r.value.size <= |b| && r.value.value < U64_MOD
  {
    match Groups(b)
    case None => None
    case Some(v) => Some(Varint(v.value % U64_MOD, v.size))
  }

  method ReadVarint(b: seq<byte>, start: nat) returns (r: Option<u64>, i: nat)
    requires start <= |b|
    ensures i <= |b|
    ensures match VarintAt(b[start..])
            case None => r == None
            case Some(v) => r == Some(v.value) && i == start + v.size
  {
    var result: u64 := 0;
    i := start;
    assert Pow2(0) == 1;
    for k := 0 to 10
      invariant i == start + k <= |b|
      invariant Reads(b[start..], b[i..], result, k)
    {
      if i >= |b| { return None, i; }
      var c := b[i];
      ghost var tail := b[i..];
      assert tail[1..] == b[i + 1..];
      i := i + 1;
      ghost var before := result;
      result := PutGroup(result, c % 0x80, k);
      ReadsStep(b[start..], tail, before, k, result);
      if c < 0x80 {
        return Some(result), i;
      }
    }
    return None, i;
  }

  /** `result |= group << (7 * k)` in a 64-bit register. */
  method PutGroup(result: u64, group: byte, k: nat) returns (r: u64)
    requires k <= 9 && result < Pow2(7 * k) && group < 0x80
    ensures r == (result + group * Pow2(7 * k)) % U64_MOD
    ensures k <= 8 ==> r == result + group * Pow2(7 * k) < Pow2(7 * (k + 1))
  {
    OrShifted(result, group, k);
    r := Or(result, Shl(group, 7 * k, 64));
  }

  /** `k` groups of `whole` are folded into `result`, and `tail` is unread. */
  ghost predicate Reads(whole: seq<byte>, tail: seq<byte>, result: nat, k: nat)
  {
    && k <= 10
    && (k <= 9 ==> result < Pow2(7 * k))
    && match Base128(tail, 10 - k)
       case None => Groups(whole) == None
       case Some(v) => Groups(whole) == Some(Varint(result + Pow2(7 * k) * v.value, v.size + k))
  }

  lemma ReadsStep(whole: seq<byte>, tail: seq<byte>, result: nat, k: nat, next: u64)
    requires k <= 9 && tail != [] && Reads(whole, tail, result, k)
    requires next == (result + (tail[0] % 0x80) * Pow2(7 * k)) % U64_MOD
    requires k <= 8 ==> next == result + (tail[0] % 0x80) * Pow2(7 * k) < Pow2(7 * (k + 1))
    ensures if tail[0] < 0x80 then VarintAt(whole) == Some(Varint(next, k + 1))
            else Reads(whole, tail[1..], next, k + 1)
  {
    if tail[0] < 0x80 {
      ReadsEnd(whole, tail, result, k);
    } else {
      ReadsMore(whole, tail, result, k, next);
    }
  }

  lemma ReadsEnd(whole: seq<byte>, tail: seq<byte>, result: nat, k: nat)
    requires k <= 9 && tail != [] && tail[0] < 0x80 && Reads(whole, tail, result, k)
    ensures Groups(whole) == Some(Varint(result + (tail[0] % 0x80) * Pow2(7 * k), k + 1))
  {
    LastGroup(tail, 10 - k);
    LastProduct(tail[0], Pow2(7 * k));
  }

  lemma LastGroup(tail: seq<byte>, room: nat)
    requires room > 0 && tail != [] && tail[0] < 0x80
    ensures Base128(tail, room) == Some(Varint(tail[0], 1))
  {
  }

  lemma LastProduct(c: nat, p: nat)
    requires c < 0x80
    ensures p * c == (c % 0x80) * p
  {
    SmallMod(c, 0x80);
  }

  lemma ReadsMore(whole: seq<byte>, tail: seq<byte>, result: nat, k: nat, next: nat)
    requires k <= 9 && tail != [] && tail[0] >= 0x80 && Reads(whole, tail, result, k)
    requires k <= 8 ==> next == result + (tail[0] % 0x80) * Pow2(7 * k) < Pow2(7 * (k + 1))
    ensures Reads(whole, tail[1..], next, k + 1)
  {
    var rest := Base128(tail[1..], 9 - k);
    assert Base128(tail, 10 - k) ==
      (match rest case None => None case Some(v) => Some(Varint(tail[0] % 0x80 + 0x80 * v.value, v.size + 1)));
    if k == 9 {
      assert rest == None;
    } else if rest.Some? {
      GroupShift(result, tail[0] % 0x80, rest.value.value, k);
    }
  }

  /** One more seven-bit group, wrapped at 64 bits. */
  lemma OrShifted(result: nat, group: nat, k: nat)
    requires k <= 9 && result < Pow2(7 * k) && group < 0x80
    ensures Or(result, Shl(group, 7 * k, 64)) == (result + group * Pow2(7 * k)) % U64_MOD
    ensures k <= 8 ==> Or(result, Shl(group, 7 * k, 64)) == result + group * Pow2(7 * k) < Pow2(7 * (k + 1))
  {
    if k <= 8 {
      SmallShift(result, group, k);
      SmallMod(result + group * Pow2(7 * k), U64_MOD);
    } else {
      TopShift(result, group);
    }
  }

  /** The tenth group keeps one bit: the other six are shifted out. */
  lemma TopShift(result: nat, group: nat)
    requires result < Pow2(63) && group < 0x80
    ensures Or(result, Shl(group, 63, 64)) == (result + group * Pow2(63)) % U64_MOD
  {
    var half := 0x8000_0000_0000_0000;
    assert Pow2(63) == half && Pow2(64) == U64_MOD by { PowersUsed(); }
    var q, bit := group / 2, group % 2;
    assert group * half == q * U64_MOD + bit * half;
    assert (group * half) % U64_MOD == bit * half by { ModOf(group * half, q, bit * half, U64_MOD); }
    assert (result + group * half) % U64_MOD == result + bit * half by {
      ModOf(result + group * half, q, result + bit * half, U64_MOD);
    }
    OrDisjoint(result, bit, 63);
  }

  lemma ModOf(x: nat, q: nat, r: nat, m: nat)
    requires r < m && x == q * m + r
    ensures x % m == r
  {
    var d := x / m - q;
    assert d * m == x / m * m - q * m;
    if d >= 1 {
      MulMonotone(1, d, m);
    } else if d <= -1 {
      MulMonotone(1, -d, m);
    }
  }

  lemma SmallMod(x: nat, m: nat)
    requires x < m
    ensures x % m == x
  {
  }

  lemma SmallShift(result: nat, group: nat, k: nat)
    requires k <= 8 && result < Pow2(7 * k) && group < 0x80
    ensures result + group * Pow2(7 * k) < Pow2(7 * (k + 1)) <= U64_MOD
    ensures Or(result, Shl(group, 7 * k, 64)) == result + group * Pow2(7 * k)
  {
    var p := Pow2(7 * k);
    assert Pow2(7) == 0x80 && Pow2(7 * (k + 1)) == 0x80 * p by { PowersUsed(); Pow2Add(7 * k, 7); }
    assert group * p <= 0x7F * p by { MulMonotone(group, 0x7F, p); }
    assert Pow2(7 * (k + 1)) <= Pow2(64) == U64_MOD by { Pow2Monotone(7 * (k + 1), 64); PowersUsed(); }
    SmallMod(group * p, U64_MOD);
    OrDisjoint(result, group, 7 * k);
  }

  lemma MulMonotone(a: nat, b: nat, p: nat)
    requires a <= b
    ensures a * p <= b * p
  {
  }

  lemma GroupShift(low: nat, group: nat, high: nat, k: nat)
    ensures low + Pow2(7 * k) * (group + 0x80 * high) == (low + group * Pow2(7 * k)) + Pow2(7 * (k + 1)) * high
  {
    var p := Pow2(7 * k);
    assert Pow2(7 * (k + 1)) == p * 0x80 by { PowersUsed(); Pow2Add(7 * k, 7); }
    assert p * (group + 0x80 * high) == group * p + (p * 0x80) * high;
  }

  lemma {:induction false} Pow2Monotone(a: nat, b: nat)
    requires a <= b
    ensures Pow2(a) <= Pow2(b)
    decreases b - a
  {
    if a < b { Pow2Monotone(a, b - 1); }
  }

  // ---- one protobuf field value ----

  datatype WireValue = Skip(size: nat) | Chunk(start: nat, end: nat) | Bad

  predicate Fits(rest: seq<byte>, v: WireValue)
  {
    && (v.Skip? ==> v.size <= |rest|)
    && (v.Chunk? ==> v.start <= v.end <= |rest|)
  }

  /** The value that follows a tag of wire type `wire`, from the rest of the message. */
  function ReadValue(rest: seq<byte>, wire: nat): (v: WireValue)
    ensures Fits(rest, v)
  {
    match wire
    case 0 => (match VarintAt(rest) case None => Bad case Some(v) => Skip(v.size))
    case 1 => if 8 <= |rest| then Skip(8) else Bad
    case 5 => if 4 <= |rest| then Skip(4) else Bad
    case 2 =>
      (match VarintAt(rest)
       case None => Bad
       case Some(len) => if len.size + len.value <= |rest| then Chunk(len.size, len.size + len.value) else Bad)
    case _ => Bad
  }

  // ---- the walk over one message ----

  function Walk(buf: seq<byte>, depth: u32, lim: Limits, s: Stats): Stats
    decreases |buf|, 1
  {
    WalkFields(buf, depth, lim, s.(maxDepth := Max(s.maxDepth, depth)))
  }

  function WalkFields(buf: seq<byte>, depth: u32, lim: Limits, s: Stats): Stats
    decreases |buf|, 0
  {
    if buf == [] then s
    else match VarintAt(buf)
      case None => s.(malformed := true)
      case Some(tag) =>
        var s1 := s.(fields := Sat32(s.fields + 1));
        if s1.fields > lim.maxFields then s1.(fieldsExceeded := true)
        else AfterTag(buf[tag.size..], tag.value % 8, depth, lim, s1)
  }

  function AfterTag(rest: seq<byte>, wire: nat, depth: u32, lim: Limits, s: Stats): Stats
    decreases |rest|, 4
  {
    AfterValue(rest, ReadValue(rest, wire), depth, lim, s)
  }

  function AfterValue(rest: seq<byte>, v: WireValue, depth: u32, lim: Limits, s: Stats): Stats
    requires Fits(rest, v)
    decreases |rest|, 3
  {
    match v
    case Bad => s.(malformed := true)
    case Skip(n) => WalkFields(rest[n..], depth, lim, s)
    case Chunk(a, e) => WalkFields(rest[e..], depth, lim, TakeChunk(rest[a..e], depth, lim, s))
  }

  /** A length-delimited field: a text leaf, or a nested message. */
  function TakeChunk(field: seq<byte>, depth: u32, lim: Limits, s: Stats): Stats
    decreases |field|, 2
  {
    if Utf8.Valid(field) then
      if field != [] && |s.leaves| < lim.maxLeaves then s.(leaves := s.leaves + [field]) else s
    else if depth >= lim.maxDepth then s.(depthExceeded := true)
    else Walk(field, depth + 1, lim, s)
  }

  // ---- framing ----

  function BigEndian32(b: seq<byte>): u32
    requires |b| == 4
  {
    (b[0] as int) * 0x100_0000 + (b[1] as int) * 0x1_0000 + (b[2] as int) * 0x100 + b[3]
  }

  function CountFrame(len: u32, s: Stats): Stats
  {
    s.(messages := Sat32(s.messages + 1),
       totalPayloadBytes := Sat64(s.totalPayloadBytes + len),
       maxMessageLen := Max(s.maxMessageLen, len))
  }

  function TakeFrame(flag: byte, msg: seq<byte>, lim: Limits, s: Stats): Stats
    requires |msg| <= U32_MAX
  {
    var s1 := CountFrame(|msg|, s);
    if flag == 0 then Walk(msg, 1, lim, s1)
    else if flag == 1 then s1.(compressed := true)
    else s1.(malformed := true)
  }

  function Deframe(body: seq<byte>, lim: Limits, s: Stats): Stats
    decreases |body|
  {
    if body == [] then s
    else if |body| < 5 then s.(malformed := true)
    else
      var end := 5 + BigEndian32(body[1..5]);
      if end > |body| then s.(malformed := true)
      else Deframe(body[end..], lim, TakeFrame(body[0], body[5..end], lim, s))
  }

  method ReadWireValue(buf: seq<byte>, i: nat, wire: nat) returns (v: WireValue)
    requires i <= |buf|
    ensures v == ReadValue(buf[i..], wire)
  {
    match wire
    case 0 =>
      var r, j := ReadVarint(buf, i);
      v := if r == None then Bad else Skip(j - i);
    case 1 =>
      v := if i + 8 > |buf| then Bad else Skip(8);
    case 5 =>
      v := if i + 4 > |buf| then Bad else Skip(4);
    case 2 =>
      var len, j := ReadVarint(buf, i);
      v := if len == None || j + len.value > |buf| then Bad else Chunk(j - i, j - i + len.value);
    case _ =>
      v := Bad;
  }

  class GrpcExtract {
    var messages: u32
    var totalPayloadBytes: u64
    var maxMessageLen: u32
    var fields: u32
    var maxDepth: u32
    var depthExceeded: bool
    var fieldsExceeded: bool
    var compressed: bool
    var malformed: bool
    var leaves: seq<seq<byte>>

    ghost function View(): Stats
      reads this
    {
      Stats(messages, totalPayloadBytes, maxMessageLen, fields, maxDepth, depthExceeded, fieldsExceeded,
            compressed, malformed, leaves)
    }

    constructor ()
      ensures View() == EMPTY
    {
      messages, totalPayloadBytes, maxMessageLen, fields, maxDepth := 0, 0, 0, 0, 0;
      depthExceeded, fieldsExceeded, compressed, malformed := false, false, false, false;
      leaves := [];
    }

    method ParseMessage(buf: seq<byte>, depth: u32, lim: Limits)
      modifies this
      ensures View() == Walk(buf, depth, lim, old(View()))
      decreases |buf|, 1
    {
      maxDepth := Max(maxDepth, depth);
      var i := 0;
      assert buf[i..] == buf;
      while i < |buf|
        invariant i <= |buf|
        invariant WalkFields(buf[i..], depth, lim, View()) == Walk(buf, depth, lim, old(View()))
      {
        var stop;
        stop, i := ParseField(buf, i, depth, lim);
        if stop { return; }
      }
      assert buf[i..] == [];
    }

    /** One turn of the field loop; `stop` when the message is abandoned. */
    method ParseField(buf: seq<byte>, i: nat, depth: u32, lim: Limits) returns (stop: bool, next: nat)
      requires i < |buf|
      modifies this
      ensures if stop then View() == WalkFields(buf[i..], depth, lim, old(View()))
              else i < next <= |buf| &&
                   WalkFields(buf[next..], depth, lim, View()) == WalkFields(buf[i..], depth, lim, old(View()))
      decreases |buf|, 0
    {
      var tag, t := ReadVarint(buf, i);
      if tag == None {
        malformed := true;
        return true, i;
      }
      fields := Sat32(fields + 1);
      if fields > lim.maxFields {
        fieldsExceeded := true;
        return true, i;
      }
      assert buf[i..][t - i..] == buf[t..];
      ghost var goal := WalkFields(buf[i..], depth, lim, old(View()));
      assert goal == AfterTag(buf[t..], tag.value % 8, depth, lim, View());
      var v := ReadWireValue(buf, t, tag.value % 8);
      stop, next := ParseValue(buf, t, v, depth, lim, goal);
    }

    /** The value after a tag; `goal` is where the walk of this message ends. */
    method ParseValue(buf: seq<byte>, i: nat, v: WireValue, depth: u32, lim: Limits, ghost goal: Stats)
      returns (stop: bool, next: nat)
      requires 0 < i <= |buf| && Fits(buf[i..], v)
      requires goal == AfterValue(buf[i..], v, depth, lim, View())
      modifies this
      ensures if stop then View() == goal else i <= next <= |buf| && WalkFields(buf[next..], depth, lim, View()) == goal
      decreases |buf| - 1, 3
    {
      stop, next := false, i;
      match v
      case Bad =>
        malformed := true;
        stop := true;
      case Skip(n) =>
        next := i + n;
        assert buf[i..][n..] == buf[next..];
      case Chunk(a, e) =>
        next := i + e;
        var field := buf[i + a..next];
        assert buf[i..][a..e] == field && buf[i..][e..] == buf[next..];
        assert goal == WalkFields(buf[next..], depth, lim, TakeChunk(field, depth, lim, View()));
        TakeField(field, depth, lim);
    }

    method TakeField(field: seq<byte>, depth: u32, lim: Limits)
      modifies this
      ensures View() == TakeChunk(field, depth, lim, old(View()))
      decreases |field|, 2
    {
      if Utf8.Valid(field) {
        if field != [] && |leaves| < lim.maxLeaves { leaves := leaves + [field]; }
      } else if depth >= lim.maxDepth {
        depthExceeded := true;
      } else {
        ParseMessage(field, depth + 1, lim);
      }
    }

    method ParseFrame(flag: byte, msg: seq<byte>, lim: Limits)
      requires |msg| <= U32_MAX
      modifies this
      ensures View() == TakeFrame(flag, msg, lim, old(View()))
    {
      messages := Sat32(messages + 1);
      totalPayloadBytes := Sat64(totalPayloadBytes + |msg|);
      maxMessageLen := Max(maxMessageLen, |msg|);
      if flag == 0 {
        ParseMessage(msg, 1, lim);
      } else if flag == 1 {
        compressed := true;
      } else {
        malformed := true;
      }
    }

    /** The whole extraction of one body. */
    method Extract(body: seq<byte>, lim: Limits)
      modifies this
      ensures View() == Deframe(body, lim, old(View()))
    {
      ghost var goal := Deframe(body, lim, View());
      var pos := 0;
      while pos + 5 <= |body|
        invariant pos <= |body|
        invariant Deframe(body[pos..], lim, View()) == goal
      {
        ghost var here := body[pos..];
        var len := BigEndian32(body[pos + 1..pos + 5]);
        assert here[1..5] == body[pos + 1..pos + 5];
        var end := pos + 5 + len;
        if end > |body| {
          malformed := true;
          return;
        }
        var msg := body[pos + 5..end];
        assert here[5..5 + len] == msg && here[5 + len..] == body[end..];
        assert Deframe(body[end..], lim, TakeFrame(body[pos], msg, lim, View())) == goal;
        ParseFrame(body[pos], msg, lim);
        pos := end;
      }
      if pos != |body| {
        malformed := true;
      }
    }
  }
}
