/** When the flags of the record are set, on every body: which frames are compressed, and which bodies are
    malformed. */
module GrpcFlags {
  import opened Bits
  import opened Grpc
  import Utf8

  // ---- compressed frames ----

  /** Some frame that is there whole has the flag byte 1. */
  predicate HoldsCompressedFrame(body: seq<byte>)
    decreases |body|
  {
    |body| >= 5 &&
    (var end := 5 + BigEndian32(body[1..5]);
     end <= |body| && (body[0] == 1 || HoldsCompressedFrame(body[end..])))
  }

  lemma {:induction false} WalkKeepsCompressed(buf: seq<byte>, depth: u32, lim: Limits, s: Stats)
    ensures WalkFields(buf, depth, lim, s).compressed == s.compressed
    decreases |buf|, 0
  {
    var tag := VarintAt(buf);
    if buf != [] && tag.Some? {
      var s1, rest := s.(fields := Sat32(s.fields + 1)), buf[tag.value.size..];
      if s1.fields <= lim.maxFields {
        ValueKeepsCompressed(rest, ReadValue(rest, tag.value.value % 8), depth, lim, s1);
        assert WalkFields(buf, depth, lim, s) == AfterTag(rest, tag.value.value % 8, depth, lim, s1);
      }
    }
  }

  lemma {:induction false} ValueKeepsCompressed(rest: seq<byte>, v: WireValue, depth: u32, lim: Limits, s: Stats)
    requires Fits(rest, v)
    ensures AfterValue(rest, v, depth, lim, s).compressed == s.compressed
    decreases |rest|, 3
  {
    match v
    case Bad =>
    case Skip(n) => WalkKeepsCompressed(rest[n..], depth, lim, s);
    case Chunk(a, e) =>
      ChunkKeepsCompressed(rest[a..e], depth, lim, s);
      WalkKeepsCompressed(rest[e..], depth, lim, TakeChunk(rest[a..e], depth, lim, s));
  }

  lemma {:induction false} ChunkKeepsCompressed(field: seq<byte>, depth: u32, lim: Limits, s: Stats)
    ensures TakeChunk(field, depth, lim, s).compressed == s.compressed
    decreases |field|, 2
  {
    if !Utf8.Valid(field) && depth < lim.maxDepth {
      WalkKeepsCompressed(field, depth + 1, lim, s.(maxDepth := Max(s.maxDepth, depth + 1)));
    }
  }

  lemma FrameCompressed(flag: byte, msg: seq<byte>, lim: Limits, s: Stats)
    requires |msg| <= U32_MAX
    ensures TakeFrame(flag, msg, lim, s).compressed <==> s.compressed || flag == 1
  {
    var s1 := CountFrame(|msg|, s);
    if flag == 0 { WalkKeepsCompressed(msg, 1, lim, s1.(maxDepth := Max(s1.maxDepth, 1))); }
  }

  lemma {:induction false} DeframeCompressed(body: seq<byte>, lim: Limits, s: Stats)
    ensures Deframe(body, lim, s).compressed <==> s.compressed || HoldsCompressedFrame(body)
    decreases |body|
  {
    if |body| >= 5 {
      var end := 5 + BigEndian32(body[1..5]);
      if end <= |body| {
        FrameCompressed(body[0], body[5..end], lim, s);
        DeframeCompressed(body[end..], lim, TakeFrame(body[0], body[5..end], lim, s));
      }
    }
  }

  /** A body is taken for compressed exactly when a whole frame of it says so. */
  lemma CompressedIff(body: seq<byte>, lim: Limits)
    ensures Deframe(body, lim, EMPTY).compressed <==> HoldsCompressedFrame(body)
  {
    DeframeCompressed(body, lim, EMPTY);
  }

  // ---- varints ----

  /** A varint is there exactly when one of the first ten bytes is below 0x80, and ends at the first. */
  lemma VarintEnds(b: seq<byte>)
    ensures VarintAt(b).Some? <==> exists k :: 0 <= k < |b| && k < 10 && b[k] < 0x80
    ensures VarintAt(b).Some? ==>
      var n := VarintAt(b).value.size; n <= 10 && b[n - 1] < 0x80 && forall k :: 0 <= k < n - 1 ==> b[k] >= 0x80
  {
    GroupsEnd(b, 10);
  }

  lemma {:induction false} GroupsEnd(b: seq<byte>, room: nat)
    ensures Base128(b, room).Some? <==> exists k :: 0 <= k < |b| && k < room && b[k] < 0x80
    ensures Base128(b, room).Some? ==>
      var n := Base128(b, room).value.size; n <= room && b[n - 1] < 0x80 && forall k :: 0 <= k < n - 1 ==> b[k] >= 0x80
    decreases room
  {
    if room > 0 && b != [] && b[0] >= 0x80 {
      GroupsEnd(b[1..], room - 1);
      assert forall k :: 1 <= k < |b| ==> b[k] == b[1..][k - 1];
    }
  }

  // ---- malformed bodies ----

  /** The bytes are fields one after the other: a tag, then a varint, eight bytes, four bytes, or a length
      and as many bytes, which are text or fields again; `room` levels down they may be any bytes, unless
      `whole` is asked for. Wire types 3, 4, 6 and 7 are not used. */
  predicate GoodMessage(b: seq<byte>, room: nat, whole: bool)
    decreases |b|, 0
  {
    b == [] || (VarintAt(b).Some? && GoodValue(b[VarintAt(b).value.size..], VarintAt(b).value.value % 8, room, whole))
  }

  predicate GoodValue(b: seq<byte>, wire: nat, room: nat, whole: bool)
    decreases |b|, 1
  {
    match wire
    case 0 => VarintAt(b).Some? && GoodMessage(b[VarintAt(b).value.size..], room, whole)
    case 1 => |b| >= 8 && GoodMessage(b[8..], room, whole)
    case 5 => |b| >= 4 && GoodMessage(b[4..], room, whole)
    case 2 =>
      VarintAt(b).Some? &&
      (var start := VarintAt(b).value.size;
       var end := start + VarintAt(b).value.value;
       end <= |b| && GoodChunk(b[start..end], room, whole) && GoodMessage(b[end..], room, whole))
    case _ => false
  }

  predicate GoodChunk(b: seq<byte>, room: nat, whole: bool)
    decreases |b|, 2
  {
    Utf8.Valid(b) || (if room == 0 then !whole else GoodMessage(b, room - 1, whole))
  }

  predicate GoodFrame(flag: byte, msg: seq<byte>, room: nat, whole: bool)
  {
    flag == 1 || (flag == 0 && GoodMessage(msg, room, whole))
  }

  /** The frames take up the body, each is plain or compressed, and plain ones hold good messages. */
  predicate GoodBody(body: seq<byte>, room: nat, whole: bool)
    decreases |body|
  {
    body == [] ||
    (|body| >= 5 &&
     (var end := 5 + BigEndian32(body[1..5]);
      && end <= |body|
      && GoodFrame(body[0], body[5..end], room, whole)
      && GoodBody(body[end..], room, whole)))
  }

  /** Levels below a message at `depth`. */
  function LevelsBelow(depth: nat, lim: Limits): nat { if depth <= lim.maxDepth then lim.maxDepth - depth else 0 }

  /** The faults reading can find: malformed bytes and, when `whole` is asked for, nesting too deep. */
  predicate Faulty(s: Stats, whole: bool) { s.malformed || (whole && s.depthExceeded) }

  /** From `s` to `r` a fault is found only in bytes that are not good, and always in such bytes unless the
      field cap ended the reading before. */
  predicate Marks(s: Stats, r: Stats, good: bool, whole: bool)
  {
    && (s.fieldsExceeded ==> r.fieldsExceeded)
    && (Faulty(s, whole) ==> Faulty(r, whole))
    && (Faulty(r, whole) ==> Faulty(s, whole) || !good)
    && (!r.fieldsExceeded && !good ==> Faulty(r, whole))
  }

  lemma MarksThen(s: Stats, mid: Stats, r: Stats, first: bool, second: bool, whole: bool)
    requires Marks(s, mid, first, whole) && Marks(mid, r, second, whole)
    ensures Marks(s, r, first && second, whole)
  {
  }

  lemma {:induction false} WalkMarks(buf: seq<byte>, depth: u32, lim: Limits, s: Stats, whole: bool)
    ensures Marks(s, WalkFields(buf, depth, lim, s), GoodMessage(buf, LevelsBelow(depth, lim), whole), whole)
    decreases |buf|, 0
  {
    var tag := VarintAt(buf);
    if buf != [] && tag.Some? {
      var s1, rest := s.(fields := Sat32(s.fields + 1)), buf[tag.value.size..];
      if s1.fields <= lim.maxFields {
        TagMarks(rest, tag.value.value % 8, depth, lim, s1, whole);
        assert WalkFields(buf, depth, lim, s) == AfterTag(rest, tag.value.value % 8, depth, lim, s1);
      }
    }
  }

  lemma {:induction false} TagMarks(rest: seq<byte>, wire: nat, depth: u32, lim: Limits, s: Stats, whole: bool)
    requires wire < 8
    ensures Marks(s, AfterTag(rest, wire, depth, lim, s), GoodValue(rest, wire, LevelsBelow(depth, lim), whole), whole)
    decreases |rest|, 4
  {
    var v, room := ReadValue(rest, wire), LevelsBelow(depth, lim);
    match v
    case Bad =>
    case Skip(n) =>
      WalkMarks(rest[n..], depth, lim, s, whole);
      assert AfterTag(rest, wire, depth, lim, s) == WalkFields(rest[n..], depth, lim, s);
      assert GoodValue(rest, wire, room, whole) == GoodMessage(rest[n..], room, whole);
    case Chunk(a, e) =>
      var mid := TakeChunk(rest[a..e], depth, lim, s);
      ChunkMarks(rest[a..e], depth, lim, s, whole);
      WalkMarks(rest[e..], depth, lim, mid, whole);
      ChunkThenRest(rest, wire, a, e, depth, lim, s, mid, whole);
  }

  lemma ChunkThenRest(rest: seq<byte>, wire: nat, a: nat, e: nat, depth: u32, lim: Limits, s: Stats, mid: Stats,
                      whole: bool)
    requires wire < 8 && ReadValue(rest, wire) == Chunk(a, e) && mid == TakeChunk(rest[a..e], depth, lim, s)
    requires Marks(s, mid, GoodChunk(rest[a..e], LevelsBelow(depth, lim), whole), whole)
    requires Marks(mid, WalkFields(rest[e..], depth, lim, mid), GoodMessage(rest[e..], LevelsBelow(depth, lim), whole),
                   whole)
    ensures Marks(s, AfterTag(rest, wire, depth, lim, s), GoodValue(rest, wire, LevelsBelow(depth, lim), whole), whole)
  {
    var room := LevelsBelow(depth, lim);
    assert AfterTag(rest, wire, depth, lim, s) == WalkFields(rest[e..], depth, lim, mid);
    assert GoodValue(rest, wire, room, whole)
      == (GoodChunk(rest[a..e], room, whole) && GoodMessage(rest[e..], room, whole));
    MarksThen(s, mid, WalkFields(rest[e..], depth, lim, mid), GoodChunk(rest[a..e], room, whole),
              GoodMessage(rest[e..], room, whole), whole);
  }

  lemma {:induction false} ChunkMarks(field: seq<byte>, depth: u32, lim: Limits, s: Stats, whole: bool)
    ensures Marks(s, TakeChunk(field, depth, lim, s), GoodChunk(field, LevelsBelow(depth, lim), whole), whole)
    decreases |field|, 2
  {
    if !Utf8.Valid(field) && depth < lim.maxDepth {
      var s1 := s.(maxDepth := Max(s.maxDepth, depth + 1));
      WalkMarks(field, depth + 1, lim, s1, whole);
      assert TakeChunk(field, depth, lim, s) == WalkFields(field, depth + 1, lim, s1);
      assert GoodChunk(field, LevelsBelow(depth, lim), whole)
        == GoodMessage(field, LevelsBelow(depth + 1, lim), whole);
    }
  }

  lemma FrameMarks(flag: byte, msg: seq<byte>, lim: Limits, s: Stats, whole: bool)
    requires |msg| <= U32_MAX
    ensures Marks(s, TakeFrame(flag, msg, lim, s), GoodFrame(flag, msg, LevelsBelow(1, lim), whole), whole)
  {
    var s1 := CountFrame(|msg|, s);
    if flag == 0 { WalkMarks(msg, 1, lim, s1.(maxDepth := Max(s1.maxDepth, 1)), whole); }
  }

  lemma {:induction false} DeframeMarks(body: seq<byte>, lim: Limits, s: Stats, whole: bool)
    ensures Marks(s, Deframe(body, lim, s), GoodBody(body, LevelsBelow(1, lim), whole), whole)
    decreases |body|
  {
    if |body| >= 5 {
      var end := 5 + BigEndian32(body[1..5]);
      if end <= |body| {
        var mid := TakeFrame(body[0], body[5..end], lim, s);
        FrameMarks(body[0], body[5..end], lim, s, whole);
        DeframeMarks(body[end..], lim, mid, whole);
        MarksThen(s, mid, Deframe(body[end..], lim, mid),
                  GoodFrame(body[0], body[5..end], LevelsBelow(1, lim), whole),
                  GoodBody(body[end..], LevelsBelow(1, lim), whole), whole);
      }
    }
  }

  /** A body that is called malformed is none of good messages; and one that is none is called malformed,
      unless the field cap ended the reading of a message before. */
  lemma MalformedIff(body: seq<byte>, lim: Limits)
    ensures var r, good := Deframe(body, lim, EMPTY), GoodBody(body, LevelsBelow(1, lim), false);
            (r.malformed ==> !good) && (!r.fieldsExceeded ==> (r.malformed <==> !good))
  {
    DeframeMarks(body, lim, EMPTY, false);
  }

  /** Within the field cap, a body is read without a fault exactly when all of it, down to the last level,
      is good messages. */
  lemma FaultlessIff(body: seq<byte>, lim: Limits)
    ensures var r := Deframe(body, lim, EMPTY);
            !r.fieldsExceeded ==>
              (!r.malformed && !r.depthExceeded <==> GoodBody(body, LevelsBelow(1, lim), true))
  {
    DeframeMarks(body, lim, EMPTY, true);
  }
}
