/** Protobuf message trees, their wire encoding, and the proof that extraction reads the
    encoding of a list of trees back as exactly the metrics and leaves of those trees. */
module GrpcRoundTrip {
  import opened Bits
  import opened Seqs
  import opened Grpc
  import opened GrpcBounds
  import Utf8

  // ---- varints ----

  function EncodeVarint(v: nat): (b: seq<byte>)
    ensures |b| >= 1
  {
    if v < 0x80 then [v] else [v % 0x80 + 0x80] + EncodeVarint(v / 0x80)
  }

  /** The push loop of the encoder: low seven bits first, the high bit on all bytes but the last. */
  method AppendVarint(value: u64, prefix: seq<byte>) returns (out: seq<byte>)
    ensures out == prefix + EncodeVarint(value)
  {
    out := prefix;
    var v: u64 := value;
    while true
      invariant out + EncodeVarint(v) == prefix + EncodeVarint(value)
      decreases v
    {
      var b := v % 0x80;
      assert Pow2(7) == 0x80 by { PowersUsed(); }
      assert Or(b, 0x80) == b + 0x80 by { OrDisjoint(b, 1, 7); }
      var w := v / 0x80;
      if w != 0 { b := Or(b, 0x80); }
      out := out + [b];
      v := w;
      if v == 0 { break; }
    }
  }

  lemma {:induction false} Base128Encoded(v: nat, rest: seq<byte>, room: nat)
    requires room >= 1 && v < Pow2(7 * room)
    ensures Base128(EncodeVarint(v) + rest, room) == Some(Varint(v, |EncodeVarint(v)|))
    decreases room
  {
    var b := EncodeVarint(v) + rest;
    if v >= 0x80 {
      assert Pow2(7) == 0x80 by { PowersUsed(); }
      assert 7 * room == 7 * (room - 1) + 7;
      Pow2Add(7 * (room - 1), 7);
      if room == 1 { assert false; }
      assert v / 0x80 < Pow2(7 * (room - 1));
      Base128Encoded(v / 0x80, rest, room - 1);
      assert b[1..] == EncodeVarint(v / 0x80) + rest;
    }
  }

  /** Every 64-bit number is read back, whatever follows it. */
  lemma VarintRoundTrip(v: u64, rest: seq<byte>)
    ensures VarintAt(EncodeVarint(v) + rest) == Some(Varint(v, |EncodeVarint(v)|))
  {
    ReadWithin(v, rest, 10);
  }

  lemma ReadWithin(v: u64, rest: seq<byte>, room: nat)
    requires room >= 10
    ensures Base128(EncodeVarint(v) + rest, room) == Some(Varint(v, |EncodeVarint(v)|))
  {
    SixtyFourBitsFit(v, room);
    Base128Encoded(v, rest, room);
  }

  lemma SixtyFourBitsFit(v: u64, room: nat)
    requires room >= 10
    ensures v < Pow2(7 * room)
  {
    assert Pow2(64) == U64_MOD by { PowersUsed(); }
    Pow2Monotone(64, 7 * room);
  }

  // ---- trees and their encoding ----

  datatype Field =
    | Text(num: nat, text: seq<byte>)
    | Sub(num: nat, msg: seq<Field>)
    | Number(num: nat, value: u64)
    | Fixed64(num: nat, raw: seq<byte>)
    | Fixed32(num: nat, raw: seq<byte>)

  function LenField(num: nat, data: seq<byte>): seq<byte>
  {
    EncodeVarint(num * 8 + 2) + EncodeVarint(|data|) + data
  }

  function EncodeField(f: Field): seq<byte>
    decreases f, 0
  {
    match f
    case Text(num, text) => LenField(num, text)
    case Sub(num, msg) => LenField(num, Encode(msg))
    case Number(num, value) => EncodeVarint(num * 8) + EncodeVarint(value)
    case Fixed64(num, raw) => EncodeVarint(num * 8 + 1) + raw
    case Fixed32(num, raw) => EncodeVarint(num * 8 + 5) + raw
  }

  function Encode(m: seq<Field>): seq<byte>
    decreases m, 1
  {
    if m == [] then [] else EncodeField(m[0]) + Encode(m[1..])
  }

  const FIELD_NUMBERS := 0x2000_0000_0000_0000

  /** Trees the schema-less heuristic can tell apart: texts are UTF-8 and sub-messages are not. */
  predicate WellFormed(f: Field)
    decreases f, 0
  {
    && f.num < FIELD_NUMBERS
    && match f
       case Text(_, text) => Utf8.Valid(text) && |text| < U64_MOD
       case Sub(_, msg) => AllWellFormed(msg) && !Utf8.Valid(Encode(msg)) && |Encode(msg)| < U64_MOD
       case Number(_, _) => true
       case Fixed64(_, raw) => |raw| == 8
       case Fixed32(_, raw) => |raw| == 4
  }

  predicate AllWellFormed(m: seq<Field>)
    decreases m, 1
  {
    m == [] || (WellFormed(m[0]) && AllWellFormed(m[1..]))
  }

  // ---- what a tree holds within `room` further levels ----

  function FieldCount(m: seq<Field>, room: nat): nat
    decreases m, 1
  {
    if m == [] then 0 else FieldCountOf(m[0], room) + FieldCount(m[1..], room)
  }

  function FieldCountOf(f: Field, room: nat): nat
    decreases f, 0
  {
    1 + if f.Sub? && room > 0 then FieldCount(f.msg, room - 1) else 0
  }

  function Leaves(m: seq<Field>, room: nat): seq<seq<byte>>
    decreases m, 1
  {
    if m == [] then [] else LeavesOf(m[0], room) + Leaves(m[1..], room)
  }

  function LeavesOf(f: Field, room: nat): seq<seq<byte>>
    decreases f, 0
  {
    match f
    case Text(_, text) => if text == [] then [] else [text]
    case Sub(_, msg) => if room > 0 then Leaves(msg, room - 1) else []
    case _ => []
  }

  /** Levels of sub-messages below a message. */
  function Below(m: seq<Field>): nat
    decreases m, 1
  {
    if m == [] then 0 else Max(BelowOf(m[0]), Below(m[1..]))
  }

  function BelowOf(f: Field): nat
    decreases f, 0
  {
    if f.Sub? then 1 + Below(f.msg) else 0
  }

  function Room(depth: nat, lim: Limits): nat { Levels(depth, lim) - 1 }

  predicate Ready(depth: nat, lim: Limits, s: Stats)
  {
    s.maxDepth >= depth && 1 <= depth <= Max(lim.maxDepth, 1) && |s.leaves| <= lim.maxLeaves
  }

  /** The record after `fields` fields, `below` further levels and `leaves` are met at `depth`. */
  function After(fields: nat, below: nat, leaves: seq<seq<byte>>, depth: nat, lim: Limits, s: Stats): Stats
    requires s.fields + fields <= lim.maxFields && Ready(depth, lim, s)
  {
    var room := Room(depth, lim);
    s.(fields := s.fields + fields,
       maxDepth := Max(s.maxDepth, depth + Min(below, room)),
       depthExceeded := s.depthExceeded || below > room,
       leaves := Cap(s.leaves + leaves, lim.maxLeaves))
  }

  function AfterField(f: Field, depth: nat, lim: Limits, s: Stats): Stats
    requires s.fields + FieldCountOf(f, Room(depth, lim)) <= lim.maxFields && Ready(depth, lim, s)
  {
    After(FieldCountOf(f, Room(depth, lim)), BelowOf(f), LeavesOf(f, Room(depth, lim)), depth, lim, s)
  }

  /** The record after a tree is walked from `s`, in terms of the tree alone. */
  function AfterTree(m: seq<Field>, depth: nat, lim: Limits, s: Stats): Stats
    requires s.fields + FieldCount(m, Room(depth, lim)) <= lim.maxFields && Ready(depth, lim, s)
  {
    After(FieldCount(m, Room(depth, lim)), Below(m), Leaves(m, Room(depth, lim)), depth, lim, s)
  }

  // ---- one field of the encoding ----

  /** The bytes of one encoded field, as the tag and the value the walk reads from them. */
  function WireOf(f: Field): nat
  {
    match f
    case Text(_, _) => 2 case Sub(_, _) => 2 case Number(_, _) => 0 case Fixed64(_, _) => 1 case Fixed32(_, _) => 5
  }

  function Payload(f: Field): seq<byte>
  {
    match f
    case Text(_, text) => text
    case Sub(_, msg) => Encode(msg)
    case Number(_, value) => EncodeVarint(value)
    case Fixed64(_, raw) => raw
    case Fixed32(_, raw) => raw
  }

  function Value(f: Field): seq<byte>
  {
    if WireOf(f) == 2 then EncodeVarint(|Payload(f)|) + Payload(f) else Payload(f)
  }

  function ExpectedValue(f: Field): WireValue
  {
    if WireOf(f) == 2 then
      var n := |EncodeVarint(|Payload(f)|)|; Chunk(n, n + |Payload(f)|)
    else Skip(|Payload(f)|)
  }

  lemma EncodedShape(f: Field)
    ensures EncodeField(f) == EncodeVarint(f.num * 8 + WireOf(f)) + Value(f)
  {
    match f
    case Text(_, _) => LenFieldShape(f);
    case Sub(_, _) => LenFieldShape(f);
    case Number(_, _) =>
    case Fixed64(_, _) =>
    case Fixed32(_, _) =>
  }

  lemma LenFieldShape(f: Field)
    requires WireOf(f) == 2
    ensures EncodeField(f) == EncodeVarint(f.num * 8 + 2) + (EncodeVarint(|Payload(f)|) + Payload(f))
  {
    assert EncodeField(f) == LenField(f.num, Payload(f));
  }

  lemma ValueIsRead(f: Field, tail: seq<byte>)
    requires WellFormed(f)
    ensures ReadValue(Value(f) + tail, WireOf(f)) == ExpectedValue(f)
    ensures Fits(Value(f) + tail, ExpectedValue(f))
  {
    if WireOf(f) == 2 {
      LengthIsRead(Payload(f), tail);
    } else if f.Number? {
      VarintRoundTrip(f.value, tail);
    }
  }

  lemma LengthIsRead(payload: seq<byte>, tail: seq<byte>)
    requires |payload| < U64_MOD
    ensures var n, rest := |EncodeVarint(|payload|)|, EncodeVarint(|payload|) + payload + tail;
            ReadValue(rest, 2) == Chunk(n, n + |payload|) && Fits(rest, Chunk(n, n + |payload|))
  {
    var n := EncodeVarint(|payload|);
    assert n + payload + tail == n + (payload + tail);
    VarintRoundTrip(|payload|, payload + tail);
  }

  lemma TagIsWalked(key: u64, rest: seq<byte>, depth: u32, lim: Limits, s: Stats)
    requires s.fields < lim.maxFields
    ensures WalkFields(EncodeVarint(key) + rest, depth, lim, s)
      == AfterTag(rest, key % 8, depth, lim, s.(fields := s.fields + 1))
  {
    var buf := EncodeVarint(key) + rest;
    VarintRoundTrip(key, rest);
    assert buf[|EncodeVarint(key)|..] == rest;
  }

  lemma KeyParts(num: nat, wire: nat)
    requires num < FIELD_NUMBERS && wire < 8
    ensures num * 8 + wire < U64_MOD && (num * 8 + wire) % 8 == wire
  {
  }

  lemma KeyedFieldIsWalked(key: u64, wire: nat, value: seq<byte>, tail: seq<byte>, depth: u32, lim: Limits, s: Stats)
    requires s.fields < lim.maxFields && key % 8 == wire
    ensures WalkFields(EncodeVarint(key) + value + tail, depth, lim, s)
      == AfterTag(value + tail, wire, depth, lim, s.(fields := s.fields + 1))
  {
    Assoc(EncodeVarint(key), value, tail);
    TagIsWalked(key, value + tail, depth, lim, s);
  }

  /** Walking an encoded field reads its tag, then its value, then what follows. */
  lemma FieldIsWalked(f: Field, tail: seq<byte>, depth: u32, lim: Limits, s: Stats)
    requires WellFormed(f) && s.fields < lim.maxFields
    ensures WalkFields(EncodeField(f) + tail, depth, lim, s)
      == AfterTag(Value(f) + tail, WireOf(f), depth, lim, s.(fields := s.fields + 1))
  {
    var key := KeyOf(f);
    KeyedFieldIsWalked(key, WireOf(f), Value(f), tail, depth, lim, s);
  }

  /** The key in the tag of an encoded field, its value aside. */
  lemma KeyOf(f: Field) returns (key: u64)
    requires WellFormed(f)
    ensures key % 8 == WireOf(f) && EncodeField(f) == EncodeVarint(key) + Value(f)
  {
    KeyParts(f.num, WireOf(f));
    EncodedShape(f);
    key := f.num * 8 + WireOf(f);
  }

  lemma ValueIsWalked(f: Field, tail: seq<byte>, depth: u32, lim: Limits, s: Stats)
    requires WellFormed(f)
    ensures AfterTag(Value(f) + tail, WireOf(f), depth, lim, s)
      == WalkFields(tail, depth, lim, if WireOf(f) == 2 then TakeChunk(Payload(f), depth, lim, s) else s)
  {
    var rest := Value(f) + tail;
    ValueIsRead(f, tail);
    var v := ExpectedValue(f);
    assert AfterTag(rest, WireOf(f), depth, lim, s) == AfterValue(rest, v, depth, lim, s);
    if WireOf(f) == 2 {
      assert rest[v.start..v.end] == Payload(f);
      assert rest[v.end..] == tail;
    } else {
      assert rest[v.size..] == tail;
    }
  }

  // ---- the walk of a whole message ----

  lemma {:induction false} TreeIsWalked(m: seq<Field>, depth: u32, lim: Limits, s: Stats)
    requires AllWellFormed(m)
    requires s.fields + FieldCount(m, Room(depth, lim)) <= lim.maxFields && Ready(depth, lim, s)
    ensures WalkFields(Encode(m), depth, lim, s) == AfterTree(m, depth, lim, s)
    decreases m, 1
  {
    if m == [] {
      assert s.leaves + [] == s.leaves;
    } else {
      var f := m[0];
      FieldThenRest(f, m[1..], depth, lim, s);
      FieldIsTaken(f, depth, lim, s);
      TreeIsWalked(m[1..], depth, lim, AfterField(f, depth, lim, s));
      AfterTwice(FieldCountOf(f, Room(depth, lim)), FieldCount(m[1..], Room(depth, lim)), BelowOf(f), Below(m[1..]),
                 LeavesOf(f, Room(depth, lim)), Leaves(m[1..], Room(depth, lim)), depth, lim, s);
    }
  }

  /** The record after one encoded field whose tag has been counted. */
  function Taken(f: Field, depth: u32, lim: Limits, s: Stats): Stats
  {
    if WireOf(f) == 2 then TakeChunk(Payload(f), depth, lim, s) else s
  }

  lemma FieldThenRest(f: Field, m: seq<Field>, depth: u32, lim: Limits, s: Stats)
    requires WellFormed(f) && s.fields < lim.maxFields
    ensures WalkFields(EncodeField(f) + Encode(m), depth, lim, s)
      == WalkFields(Encode(m), depth, lim, Taken(f, depth, lim, s.(fields := s.fields + 1)))
  {
    FieldIsWalked(f, Encode(m), depth, lim, s);
    ValueIsWalked(f, Encode(m), depth, lim, s.(fields := s.fields + 1));
  }

  lemma {:induction false} FieldIsTaken(f: Field, depth: u32, lim: Limits, s: Stats)
    requires WellFormed(f)
    requires s.fields + FieldCountOf(f, Room(depth, lim)) <= lim.maxFields && Ready(depth, lim, s)
    ensures Taken(f, depth, lim, s.(fields := s.fields + 1)) == AfterField(f, depth, lim, s)
    decreases f, 0
  {
    assert s.leaves + [] == s.leaves;
    if f.Sub? { SubFieldIsTaken(f, depth, lim, s); }
  }

  lemma {:induction false} SubFieldIsTaken(f: Field, depth: u32, lim: Limits, s: Stats)
    requires f.Sub? && WellFormed(f)
    requires s.fields + FieldCountOf(f, Room(depth, lim)) <= lim.maxFields && Ready(depth, lim, s)
    ensures Taken(f, depth, lim, s.(fields := s.fields + 1)) == AfterField(f, depth, lim, s)
    decreases f.msg, 3
  {
    var inner := Room(depth, lim) - 1;
    if inner >= 0 {
      SubIsTaken(f.msg, FieldCount(f.msg, inner), Leaves(f.msg, inner), depth, lim, s);
    } else {
      assert s.leaves + [] == s.leaves;
      ChunkIsEntered(Encode(f.msg), depth, lim, s.(fields := s.fields + 1));
    }
  }

  lemma {:induction false} SubIsTaken(msg: seq<Field>, fields: nat, leaves: seq<seq<byte>>, depth: u32, lim: Limits,
                                      s: Stats)
    requires AllWellFormed(msg) && !Utf8.Valid(Encode(msg)) && Room(depth, lim) > 0 && Ready(depth, lim, s)
    requires fields == FieldCount(msg, Room(depth, lim) - 1) && leaves == Leaves(msg, Room(depth, lim) - 1)
    requires s.fields + 1 + fields <= lim.maxFields
    ensures TakeChunk(Encode(msg), depth, lim, s.(fields := s.fields + 1))
      == After(1 + fields, 1 + Below(msg), leaves, depth, lim, s)
    decreases msg, 2, 1
  {
    RoomBelow(depth, lim);
    ChunkIsEnteredBelow(Encode(msg), depth, lim, s);
    SubIsWalked(msg, fields, leaves, depth, lim, s);
    OneLevelDown(fields, Below(msg), leaves, depth, lim, s);
  }

  lemma {:induction false} SubIsWalked(msg: seq<Field>, fields: nat, leaves: seq<seq<byte>>, depth: u32, lim: Limits,
                                       s: Stats)
    requires AllWellFormed(msg) && depth < lim.maxDepth && Ready(depth, lim, s)
      && s.fields + 1 + fields <= lim.maxFields
    requires fields == FieldCount(msg, Room(depth + 1, lim)) && leaves == Leaves(msg, Room(depth + 1, lim))
    ensures WalkFields(Encode(msg), depth + 1, lim, Entered(depth, s))
      == After(fields, Below(msg), leaves, depth + 1, lim, Entered(depth, s))
    decreases msg, 2, 0
  {
    TreeIsWalked(msg, depth + 1, lim, Entered(depth, s));
  }

  /** The record on entering a sub-message found at `depth`, its tag counted. */
  function Entered(depth: nat, s: Stats): Stats
    requires depth < U32_MAX && s.fields < U32_MAX
  {
    s.(fields := s.fields + 1, maxDepth := Max(s.maxDepth, depth + 1))
  }

  lemma RoomBelow(depth: nat, lim: Limits)
    requires Room(depth, lim) > 0
    ensures depth < lim.maxDepth && Room(depth + 1, lim) == Room(depth, lim) - 1
  {
  }

  lemma ChunkIsEnteredBelow(bytes: seq<byte>, depth: u32, lim: Limits, s: Stats)
    requires !Utf8.Valid(bytes) && depth < lim.maxDepth && s.fields < U32_MAX
    ensures TakeChunk(bytes, depth, lim, s.(fields := s.fields + 1))
      == WalkFields(bytes, depth + 1, lim, Entered(depth, s))
  {
    ChunkIsEntered(bytes, depth, lim, s.(fields := s.fields + 1));
  }

  lemma ChunkIsEntered(bytes: seq<byte>, depth: u32, lim: Limits, s: Stats)
    requires !Utf8.Valid(bytes)
    ensures TakeChunk(bytes, depth, lim, s) ==
      if depth >= lim.maxDepth then s.(depthExceeded := true)
      else WalkFields(bytes, depth + 1, lim, s.(maxDepth := Max(s.maxDepth, depth + 1)))
  {
  }

  lemma OneLevelDown(fields: nat, below: nat, leaves: seq<seq<byte>>, depth: u32, lim: Limits, s: Stats)
    requires depth < lim.maxDepth && s.fields + 1 + fields <= lim.maxFields && Ready(depth, lim, s)
    ensures After(fields, below, leaves, depth + 1, lim, Entered(depth, s))
      == After(1 + fields, 1 + below, leaves, depth, lim, s)
  {
  }

  /** Meeting one part and then another is meeting both. */
  lemma AfterTwice(n: nat, n': nat, b: nat, b': nat, l: seq<seq<byte>>, l': seq<seq<byte>>, depth: nat, lim: Limits,
                   s: Stats)
    requires s.fields + n + n' <= lim.maxFields && Ready(depth, lim, s)
    ensures After(n', b', l', depth, lim, After(n, b, l, depth, lim, s))
      == After(n + n', Max(b, b'), l + l', depth, lim, s)
  {
    CapTwice(s.leaves, l, l', lim.maxLeaves);
  }

  lemma CapTwice<T>(a: seq<T>, b: seq<T>, c: seq<T>, n: nat)
    ensures Cap(Cap(a + b, n) + c, n) == Cap(a + (b + c), n)
  {
    Assoc(a, b, c);
    CapOnceMore(a + b, c, n);
  }

  lemma CapOnceMore<T>(s: seq<T>, c: seq<T>, n: nat)
    ensures Cap(Cap(s, n) + c, n) == Cap(s + c, n)
  {
    if |s| > n {
      CapOfLonger(s, c, n);
      CapOfLonger(s[..n], c, n);
      assert s[..n][..n] == s[..n];
    }
  }

  lemma CapOfLonger<T>(s: seq<T>, c: seq<T>, n: nat)
    requires |s| >= n
    ensures Cap(s + c, n) == s[..n]
  {
    assert (s + c)[..n] == s[..n];
    assert |s + c| <= n ==> s + c == s[..n];
  }

  // ---- frames ----

  function BigEndianBytes(n: u32): (b: seq<byte>)
    ensures |b| == 4 && BigEndian32(b) == n
  {
    var high, low := (n as int) / 0x1_0000, (n as int) % 0x1_0000;
    [high / 0x100, high % 0x100, low / 0x100, low % 0x100]
  }

  function Frame(msg: seq<byte>): seq<byte>
    requires |msg| <= U32_MAX
  {
    [0] + BigEndianBytes(|msg|) + msg
  }

  predicate Framable(ms: seq<seq<Field>>)
  {
    forall i :: 0 <= i < |ms| ==> AllWellFormed(ms[i]) && |Encode(ms[i])| <= U32_MAX
  }

  function Body(ms: seq<seq<Field>>): seq<byte>
    requires Framable(ms)
  {
    if ms == [] then [] else Frame(Encode(ms[0])) + Body(ms[1..])
  }

  function PayloadBytes(ms: seq<seq<Field>>): nat
  {
    if ms == [] then 0 else |Encode(ms[0])| + PayloadBytes(ms[1..])
  }

  function LongestMessage(ms: seq<seq<Field>>): nat
  {
    if ms == [] then 0 else Max(|Encode(ms[0])|, LongestMessage(ms[1..]))
  }

  function AllFields(ms: seq<seq<Field>>, room: nat): nat
  {
    if ms == [] then 0 else FieldCount(ms[0], room) + AllFields(ms[1..], room)
  }

  function AllLeaves(ms: seq<seq<Field>>, room: nat): seq<seq<byte>>
  {
    if ms == [] then [] else Leaves(ms[0], room) + AllLeaves(ms[1..], room)
  }

  function Deepest(ms: seq<seq<Field>>): nat
  {
    if ms == [] then 0 else Max(1 + Below(ms[0]), Deepest(ms[1..]))
  }

  /** `r` is the record after `n` frames holding these totals are extracted from `s`. */
  ghost predicate AfterFrames(n: nat, bytes: nat, longest: nat, fields: nat, deepest: nat, leaves: seq<seq<byte>>,
                              lim: Limits, s: Stats, r: Stats)
  {
    && r.messages == s.messages + n
    && r.totalPayloadBytes == s.totalPayloadBytes + bytes
    && r.maxMessageLen == Max(s.maxMessageLen, longest)
    && r.fields == s.fields + fields
    && r.maxDepth == Max(s.maxDepth, Min(deepest, Levels(1, lim)))
    && r.depthExceeded == (s.depthExceeded || deepest > Levels(1, lim))
    && r.leaves == Cap(s.leaves + leaves, lim.maxLeaves)
    && r.fieldsExceeded == s.fieldsExceeded && r.compressed == s.compressed && r.malformed == s.malformed
  }

  ghost predicate AfterTrees(ms: seq<seq<Field>>, lim: Limits, s: Stats, r: Stats)
  {
    AfterFrames(|ms|, PayloadBytes(ms), LongestMessage(ms), AllFields(ms, Room(1, lim)), Deepest(ms),
                AllLeaves(ms, Room(1, lim)), lim, s, r)
  }

  lemma FrameIsRead(msg: seq<byte>, tail: seq<byte>, lim: Limits, s: Stats)
    requires |msg| <= U32_MAX
    ensures Deframe(Frame(msg) + tail, lim, s) == Deframe(tail, lim, TakeFrame(0, msg, lim, s))
  {
    var body, end := Frame(msg) + tail, 5 + |msg|;
    assert body[1..5] == BigEndianBytes(|msg|);
    assert body[5..end] == msg && body[end..] == tail;
  }

  /** A nested message whose tag passes a cap of one. */
  const DEEP_TAG: seq<byte> := [0x80, 0x01]

  /** The message around it, with one more tag after it. */
  const OUTER: seq<byte> := [0x0A, 0x02, 0x80, 0x01, 0x08]

  const LAST_TAG: seq<byte> := [0x08]

  lemma DeepTagCounts(lim: Limits, s: Stats)
    requires lim == Limits(2, 1, 0) && s.fields == 1
    ensures TakeChunk(DEEP_TAG, 1, lim, s) == s.(fields := 2, fieldsExceeded := true, maxDepth := Max(s.maxDepth, 2))
  {
    assert VarintAt(DEEP_TAG) == Some(Varint(0x80, 2)) by { assert Base128(DEEP_TAG[1..], 9) == Some(Varint(1, 1)); }
    assert Utf8.CharLen(DEEP_TAG) == 0;
  }

  lemma LastTagCounts(depth: u32, lim: Limits, s: Stats)
    requires s.fields < U32_MAX && s.fields >= lim.maxFields
    ensures WalkFields(LAST_TAG, depth, lim, s) == s.(fields := s.fields + 1, fieldsExceeded := true)
  {
    assert VarintAt(LAST_TAG) == Some(Varint(8, 1));
  }

  lemma OuterCounts(lim: Limits, s: Stats)
    requires lim == Limits(2, 1, 0) && s.fields == 0
    ensures WalkFields(OUTER, 1, lim, s).fields == 3
  {
    var s1, rest := s.(fields := 1), OUTER[1..];
    assert VarintAt(OUTER) == Some(Varint(0x0A, 1)) && VarintAt(rest) == Some(Varint(2, 1));
    assert rest[1..3] == DEEP_TAG && rest[3..] == LAST_TAG;
    DeepTagCounts(lim, s1);
    LastTagCounts(1, lim, TakeChunk(DEEP_TAG, 1, lim, s1));
    assert WalkFields(OUTER, 1, lim, s) == AfterValue(rest, Chunk(1, 3), 1, lim, s1);
  }

  /** A body that reaches the bound: a cap of one field and two levels, and a count of four. One tag
      passes the cap in the nested message, one after it in the outer one, one in the second frame. */
  lemma FieldsPassTheCap(lim: Limits)
    requires lim == Limits(2, 1, 0)
    ensures var r := Deframe(Frame(OUTER) + Frame(LAST_TAG), lim, EMPTY);
            r.messages == 2 && r.fields == 4 == lim.maxFields + lim.maxDepth + r.messages - 1
  {
    var s := CountFrame(5, EMPTY).(maxDepth := 1);
    var mid := TakeFrame(0, OUTER, lim, EMPTY);
    OuterCounts(lim, s);
    WalkFieldsWithin(OUTER, 1, lim, s);
    FrameIsRead(OUTER, Frame(LAST_TAG), lim, EMPTY);
    assert Frame(LAST_TAG) + [] == Frame(LAST_TAG);
    FrameIsRead(LAST_TAG, [], lim, mid);
    var mid1 := CountFrame(1, mid);
    LastTagCounts(1, lim, mid1.(maxDepth := Max(mid1.maxDepth, 1)));
  }

  lemma FrameIsTaken(m: seq<Field>, lim: Limits, s: Stats)
    requires AllWellFormed(m) && |Encode(m)| <= U32_MAX && |s.leaves| <= lim.maxLeaves
    requires s.fields + FieldCount(m, Room(1, lim)) <= lim.maxFields
    requires s.messages < U32_MAX && s.totalPayloadBytes + |Encode(m)| <= U64_MAX
    ensures AfterFrames(1, |Encode(m)|, |Encode(m)|, FieldCount(m, Room(1, lim)), 1 + Below(m),
                        Leaves(m, Room(1, lim)), lim, s, TakeFrame(0, Encode(m), lim, s))
  {
    var s1 := CountFrame(|Encode(m)|, s);
    TreeIsWalked(m, 1, lim, s1.(maxDepth := Max(s1.maxDepth, 1)));
  }

  lemma AfterFrameAndTrees(m: seq<Field>, tail: seq<seq<Field>>, lim: Limits, s: Stats, mid: Stats, r: Stats)
    requires |s.leaves| <= lim.maxLeaves
    requires AfterFrames(1, |Encode(m)|, |Encode(m)|, FieldCount(m, Room(1, lim)), 1 + Below(m),
                         Leaves(m, Room(1, lim)), lim, s, mid)
    requires AfterTrees(tail, lim, mid, r)
    ensures AfterTrees([m] + tail, lim, s, r)
  {
    var ms := [m] + tail;
    assert ms[1..] == tail;
    CapTwice(s.leaves, Leaves(m, Room(1, lim)), AllLeaves(tail, Room(1, lim)), lim.maxLeaves);
  }

  lemma {:induction false} BodyIsExtracted(ms: seq<seq<Field>>, lim: Limits, s: Stats)
    requires Framable(ms) && |s.leaves| <= lim.maxLeaves
    requires s.fields + AllFields(ms, Room(1, lim)) <= lim.maxFields
    requires s.messages + |ms| <= U32_MAX && s.totalPayloadBytes + PayloadBytes(ms) <= U64_MAX
    ensures AfterTrees(ms, lim, s, Deframe(Body(ms), lim, s))
    decreases |ms|
  {
    if ms == [] {
      assert s.leaves + [] == s.leaves;
    } else {
      var m, tail := ms[0], ms[1..];
      var mid := TakeFrame(0, Encode(m), lim, s);
      FrameIsRead(Encode(m), Body(tail), lim, s);
      FrameIsTaken(m, lim, s);
      BodyIsExtracted(tail, lim, mid);
      assert ms == [m] + tail;
      AfterFrameAndTrees(m, tail, lim, s, mid, Deframe(Body(tail), lim, mid));
    }
  }

  lemma {:induction false} PayloadBytesBound(ms: seq<seq<Field>>)
    requires Framable(ms)
    ensures PayloadBytes(ms) <= |ms| * U32_MAX
    decreases |ms|
  {
    if ms != [] { PayloadBytesBound(ms[1..]); }
  }

  lemma TotalFits(ms: seq<seq<Field>>)
    requires Framable(ms) && |ms| <= U32_MAX
    ensures PayloadBytes(ms) <= U64_MAX
  {
    PayloadBytesBound(ms);
    MulMonotone(|ms|, U32_MAX, U32_MAX);
  }

  /** Extracting the framed encoding of message trees gives the trees' own numbers: frames,
      bytes, fields and leaves in order, no malformed flag, and the depth flag exactly when a
      tree is deeper than the cap. Levels past the cap are not entered, so they do not count. */
  lemma ExtractionReadsTrees(ms: seq<seq<Field>>, lim: Limits)
    requires Framable(ms) && |ms| <= U32_MAX && lim.maxDepth >= 1
    requires AllFields(ms, lim.maxDepth - 1) <= lim.maxFields
    ensures var r := Deframe(Body(ms), lim, EMPTY);
            && r.messages == |ms| && r.totalPayloadBytes == PayloadBytes(ms) && r.maxMessageLen == LongestMessage(ms)
            && r.fields == AllFields(ms, lim.maxDepth - 1)
            && r.leaves == Cap(AllLeaves(ms, lim.maxDepth - 1), lim.maxLeaves)
            && r.maxDepth == Min(Deepest(ms), lim.maxDepth)
            && (r.depthExceeded <==> Deepest(ms) > lim.maxDepth)
            && !r.malformed && !r.fieldsExceeded && !r.compressed
  {
    TotalFits(ms);
    BodyIsExtracted(ms, lim, EMPTY);
    assert EMPTY.leaves + AllLeaves(ms, lim.maxDepth - 1) == AllLeaves(ms, lim.maxDepth - 1);
  }

  // ---- trees past the field cap ----

  /** A tag read at the cap passes it. */
  lemma TagPassesCap(f: Field, tail: seq<byte>, depth: u32, lim: Limits, s: Stats)
    requires WellFormed(f) && s.fields == lim.maxFields < U32_MAX
    ensures WalkFields(EncodeField(f) + tail, depth, lim, s).fields > lim.maxFields
  {
    var key := KeyOf(f);
    var value := Value(f) + tail;
    Assoc(EncodeVarint(key), Value(f), tail);
    VarintRoundTrip(key, value);
  }

  /** Walking a tree with more fields than the cap leaves room for ends past the cap. */
  lemma {:induction false} TreePassesCap(m: seq<Field>, depth: u32, lim: Limits, s: Stats)
    requires AllWellFormed(m) && s.fields <= lim.maxFields < U32_MAX && Ready(depth, lim, s)
    requires s.fields + FieldCount(m, Room(depth, lim)) > lim.maxFields
    ensures WalkFields(Encode(m), depth, lim, s).fields > lim.maxFields
    decreases m, 1
  {
    var f, tail := m[0], Encode(m[1..]);
    if s.fields == lim.maxFields {
      TagPassesCap(f, tail, depth, lim, s);
    } else {
      FieldThenRest(f, m[1..], depth, lim, s);
      if s.fields + FieldCountOf(f, Room(depth, lim)) <= lim.maxFields {
        FieldIsTaken(f, depth, lim, s);
        TreePassesCap(m[1..], depth, lim, AfterField(f, depth, lim, s));
      } else {
        SubPassesCap(f.msg, depth, lim, s);
        WalkFieldsFlags(tail, depth, lim, Taken(f, depth, lim, s.(fields := s.fields + 1)));
      }
    }
  }

  lemma {:induction false} SubPassesCap(msg: seq<Field>, depth: u32, lim: Limits, s: Stats)
    requires AllWellFormed(msg) && !Utf8.Valid(Encode(msg)) && Room(depth, lim) > 0 && Ready(depth, lim, s)
    requires s.fields < lim.maxFields < U32_MAX && s.fields + 1 + FieldCount(msg, Room(depth, lim) - 1) > lim.maxFields
    ensures TakeChunk(Encode(msg), depth, lim, s.(fields := s.fields + 1)).fields > lim.maxFields
    decreases msg, 2, 1
  {
    RoomBelow(depth, lim);
    EnteredPassesCap(msg, depth, lim, s);
    ChunkIsEnteredBelow(Encode(msg), depth, lim, s);
  }

  lemma {:induction false} EnteredPassesCap(msg: seq<Field>, depth: u32, lim: Limits, s: Stats)
    requires AllWellFormed(msg) && depth < lim.maxDepth && Ready(depth, lim, s)
    requires s.fields < lim.maxFields < U32_MAX && s.fields + 1 + FieldCount(msg, Room(depth + 1, lim)) > lim.maxFields
    ensures WalkFields(Encode(msg), depth + 1, lim, Entered(depth, s)).fields > lim.maxFields
    decreases msg, 2, 0
  {
    EnteredIsReady(depth, lim, s);
    TreePassesCap(msg, depth + 1, lim, Entered(depth, s));
  }

  lemma EnteredIsReady(depth: nat, lim: Limits, s: Stats)
    requires depth < lim.maxDepth && s.fields < U32_MAX && Ready(depth, lim, s)
    ensures Ready(depth + 1, lim, Entered(depth, s)) && Entered(depth, s).fields == s.fields + 1
  {
  }

  lemma FramePassesCap(m: seq<Field>, lim: Limits, s: Stats)
    requires AllWellFormed(m) && |Encode(m)| <= U32_MAX && |s.leaves| <= lim.maxLeaves
    requires s.fields <= lim.maxFields < U32_MAX && s.fields + FieldCount(m, Room(1, lim)) > lim.maxFields
    ensures TakeFrame(0, Encode(m), lim, s).fields > lim.maxFields
  {
    var s1 := CountFrame(|Encode(m)|, s);
    TreePassesCap(m, 1, lim, s1.(maxDepth := Max(s1.maxDepth, 1)));
  }

  lemma {:induction false} BodyPassesCap(ms: seq<seq<Field>>, lim: Limits, s: Stats)
    requires Framable(ms) && |s.leaves| <= lim.maxLeaves && s.fields <= lim.maxFields < U32_MAX
    requires s.messages + |ms| <= U32_MAX && s.totalPayloadBytes + PayloadBytes(ms) <= U64_MAX
    requires s.fields + AllFields(ms, Room(1, lim)) > lim.maxFields
    ensures Deframe(Body(ms), lim, s).fields > lim.maxFields
    decreases |ms|
  {
    var m, tail := ms[0], ms[1..];
    var mid := TakeFrame(0, Encode(m), lim, s);
    FrameIsRead(Encode(m), Body(tail), lim, s);
    if s.fields + FieldCount(m, Room(1, lim)) <= lim.maxFields {
      FrameIsTaken(m, lim, s);
      BodyPassesCap(tail, lim, mid);
    } else {
      FramePassesCap(m, lim, s);
      DeframeFlags(Body(tail), lim, mid);
    }
  }

  lemma {:induction false} FramesAreUncompressed(ms: seq<seq<Field>>, lim: Limits, s: Stats)
    requires Framable(ms)
    ensures Deframe(Body(ms), lim, s).compressed == s.compressed
    decreases |ms|
  {
    if ms != [] {
      var msg := Encode(ms[0]);
      var s1 := CountFrame(|msg|, s);
      FrameIsRead(msg, Body(ms[1..]), lim, s);
      WalkFieldsWithin(msg, 1, lim, s1.(maxDepth := Max(s1.maxDepth, 1)));
      FramesAreUncompressed(ms[1..], lim, TakeFrame(0, msg, lim, s));
    }
  }

  lemma FlagPastCap(ms: seq<seq<Field>>, lim: Limits, s: Stats)
    requires Framable(ms) && |s.leaves| <= lim.maxLeaves && s.fields <= lim.maxFields < U32_MAX
    requires s.messages + |ms| <= U32_MAX && s.totalPayloadBytes + PayloadBytes(ms) <= U64_MAX
    requires s.fields + AllFields(ms, Room(1, lim)) > lim.maxFields && !s.fieldsExceeded
    ensures Deframe(Body(ms), lim, s).fieldsExceeded
  {
    BodyPassesCap(ms, lim, s);
    DeframeFlags(Body(ms), lim, s);
  }

  /** The flag of the field cap is set exactly when the trees have more fields than the cap. */
  lemma CapIsPassedIff(ms: seq<seq<Field>>, lim: Limits)
    requires Framable(ms) && |ms| <= U32_MAX && 1 <= lim.maxDepth && lim.maxFields < U32_MAX
    ensures Deframe(Body(ms), lim, EMPTY).fieldsExceeded <==> AllFields(ms, lim.maxDepth - 1) > lim.maxFields
  {
    if AllFields(ms, lim.maxDepth - 1) <= lim.maxFields {
      ExtractionReadsTrees(ms, lim);
    } else {
      TotalFits(ms);
      FlagPastCap(ms, lim, EMPTY);
    }
  }

  // ---- trees within the cap are seen whole ----

  lemma {:induction false} RoomBeyondHeight(m: seq<Field>, room: nat, more: nat)
    requires Below(m) <= room <= more
    ensures FieldCount(m, room) == FieldCount(m, more) && Leaves(m, room) == Leaves(m, more)
    decreases m
  {
    if m != [] {
      RoomBeyondHeight(m[1..], room, more);
      if m[0].Sub? { RoomBeyondHeight(m[0].msg, room - 1, more - 1); }
    }
  }
}
